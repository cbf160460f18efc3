// How long a timer really takes, and whether soft state survives lost refreshes.
//
// Times are milliseconds on one global clock.  A wheel ticks at
// `phase + k * tick`; an event at time t falls in the tick that last happened.
module SoftState {
  import opened Common
  import opened WheelModel
  import opened WheelTimer

  datatype Clock = Clock(tick: nat, phase: int)

  ghost predicate Running(c: Clock, t: int) {
    c.tick > 0 && c.phase <= t
  }

  function TickAt(c: Clock, t: int): nat
    requires Running(c, t)
  {
    (t - c.phase) / c.tick
  }

  /** The time at which a one-shot armed at time t with a delay in milliseconds fires. */
  function FireTime(c: Clock, t: int, ms: nat): int
    requires Running(c, t)
  {
    var now := TickAt(c, t);
    c.phase + FireAt(now, now + TicksFor(ms, c.tick)) * c.tick
  }

  lemma TickBracket(c: Clock, t: int)
    requires Running(c, t)
    ensures c.phase + TickAt(c, t) * c.tick <= t < c.phase + TickAt(c, t) * c.tick + c.tick
  {
    var d := t - c.phase;
    var q, r := d / c.tick, d % c.tick;
    QuotientAndRemainder(d, c.tick, q, r);
  }

  lemma ManyTicks(k: nat, tick: nat)
    requires k >= 256
    ensures k * tick >= 256 * tick
  {
  }

  lemma FewTicks(k: nat, tick: nat, ms: nat)
    requires k * tick < ms + tick && ms <= 255 * tick
    ensures k < 256
  {
    if k >= 256 {
      ManyTicks(k, tick);
    }
  }

  lemma Spread(now: nat, k: nat, tick: nat)
    ensures (now + k) * tick == now * tick + k * tick
    ensures (now + k + 1) * tick == now * tick + k * tick + tick
    ensures k > 0 ==> k * tick >= tick
  {
  }

  /**
   * Less than one tick early, less than two ticks late; at most one tick late for delays the first
   * level of the wheel holds; never early when armed exactly on a tick.
   */
  lemma DelayBounds(c: Clock, t: int, ms: nat)
    requires Running(c, t)
    ensures t + ms - c.tick < FireTime(c, t, ms) < t + ms + 2 * c.tick
    ensures FireTime(c, t, ms) > t
    ensures ms <= 255 * c.tick ==> FireTime(c, t, ms) <= t + ms + c.tick
    ensures t == c.phase + TickAt(c, t) * c.tick ==> FireTime(c, t, ms) >= t + ms
  {
    var now, k := TickAt(c, t), TicksFor(ms, c.tick);
    TickBracket(c, t);
    TicksCoverDelay(ms, c.tick);
    var f := FireAt(now, now + k);
    assert f == now + k || f == now + k + 1;
    Spread(now, k, c.tick);
    assert f == now + k ==> k > 0;
    if ms <= 255 * c.tick {
      FewTicks(k, c.tick, ms);
    }
  }

  /**
   * Exactly when a delay is met in full: it is zero; or its tick is late anyway, being a multiple of
   * 256 at least 256 ticks away; or the part of a tick gone by when it is armed is no more than what
   * rounding up to whole ticks has added.
   */
  lemma DelayIsMetIff(c: Clock, t: int, ms: nat)
    requires Running(c, t)
    ensures var now, k := TickAt(c, t), TicksFor(ms, c.tick);
            FireTime(c, t, ms) >= t + ms <==>
              || ms == 0
              || (k >= TVR_SIZE && (now + k) % TVR_SIZE == 0)
              || (t - c.phase) % c.tick <= k * c.tick - ms
  {
    var now, k, r := TickAt(c, t), TicksFor(ms, c.tick), (t - c.phase) % c.tick;
    QuotientAndRemainder(t - c.phase, c.tick, now, r);
    TicksCoverDelay(ms, c.tick);
    Spread(now, k, c.tick);
    if ms > 0 {
      assert k > 0;
      if k >= TVR_SIZE && (now + k) % TVR_SIZE == 0 {
        assert FireAt(now, now + k) == now + k + 1;
      } else {
        assert FireAt(now, now + k) == now + k;
      }
    }
  }

  /** A delay is cut short when it is armed between two ticks: 10 ms armed 5 ms after a tick takes 5 ms. */
  lemma DelayCanBeShort()
    ensures FireTime(Clock(10, 0), 5, 10) < 5 + 10
  {
    assert TicksFor(10, 10) == 1;
  }

  // ---- refresh jitter ---------------------------------------------------

  /** The refresh interval drawn for a base period; `random` is the raw random number. */
  function JitteredRefresh(base: nat, transit: bool, random: nat): nat {
    var r := if base == 0 then DEFAULT_REFRESH_MS else base;
    var lo := if transit then r * 11 / 10 else r * 8 / 10;
    var hi := if transit then r * 13 / 10 else r * 12 / 10;
    lo + random % (if hi > lo then hi - lo else 1)
  }

  lemma JitterBounds(base: nat, transit: bool, random: nat)
    requires base > 0
    ensures 10 * JitteredRefresh(base, transit, random) <= 13 * base
    ensures !transit ==> 10 * JitteredRefresh(base, transit, random) <= 12 * base
    ensures 10 * JitteredRefresh(base, transit, random) > (if transit then 11 else 8) * base - 10
  {
  }

  /** Every interval between the bounds, the lower one included, is drawn for some random number. */
  lemma JitterCovers(base: nat, transit: bool, ms: nat) returns (random: nat)
    requires base > 0
    requires if transit then base * 11 / 10 <= ms < base * 13 / 10 else base * 8 / 10 <= ms < base * 12 / 10
    ensures JitteredRefresh(base, transit, random) == ms
  {
    var lo := if transit then base * 11 / 10 else base * 8 / 10;
    var hi := if transit then base * 13 / 10 else base * 12 / 10;
    random := ms - lo;
    SmallRemainder(random, hi - lo);
  }

  lemma SmallRemainder(n: nat, d: nat)
    requires n < d
    ensures n % d == n
  {
  }

  /** A base period of 0 stands for the default of 30 seconds. */
  lemma JitterOfNoPeriod(transit: bool, random: nat)
    ensures JitteredRefresh(0, transit, random) == JitteredRefresh(30000, transit, random)
  {
  }

  /** State lifetime: three and a half refresh periods, truncated. */
  function CleanupMs(refresh: nat): nat {
    refresh * 7 / 2
  }

  lemma LifetimeBounds(refresh: nat)
    ensures 7 * refresh - 2 < 2 * CleanupMs(refresh) <= 7 * refresh
  {
  }

  // ---- refreshes against the cleanup timer -----------------------------

  /** One refresh interval of a sender: its role and its random draw. */
  datatype Draw = Draw(transit: bool, random: nat)

  /** The time of the k-th refresh after one sent at `start`; each refresh re-arms the next. */
  function SendTime(c: Clock, start: int, refresh: nat, draws: seq<Draw>, k: nat): (t: int)
    requires Running(c, start) && k <= |draws|
    ensures Running(c, t)
  {
    if k == 0 then start
    else
      var prev := SendTime(c, start, refresh, draws, k - 1);
      DelayBounds(c, prev, JitteredRefresh(refresh, draws[k - 1].transit, draws[k - 1].random));
      FireTime(c, prev, JitteredRefresh(refresh, draws[k - 1].transit, draws[k - 1].random))
  }

  lemma RefreshGap(c: Clock, start: int, refresh: nat, draws: seq<Draw>, k: nat)
    requires Running(c, start) && k < |draws| && refresh > 0
    ensures var gap := SendTime(c, start, refresh, draws, k + 1) - SendTime(c, start, refresh, draws, k);
            && 0 < gap && 10 * gap < 13 * refresh + 20 * c.tick
            && (13 * refresh <= 2550 * c.tick ==> 10 * gap <= 13 * refresh + 10 * c.tick)
  {
    var prev := SendTime(c, start, refresh, draws, k);
    var ms := JitteredRefresh(refresh, draws[k].transit, draws[k].random);
    DelayBounds(c, prev, ms);
    JitterBounds(refresh, draws[k].transit, draws[k].random);
  }

  /** The refreshes of a run that arrive; the first does and no two in a row are lost. */
  ghost predicate NoTwoLostInARow(received: seq<bool>) {
    && received != [] && received[0]
    && forall k {:trigger received[k]} :: 0 < k < |received| - 1 && !received[k] ==> received[k + 1]
  }

  /** The refresh that arrives at index i re-arms the cleanup timer, and the next arrival comes before it fires. */
  ghost predicate RefreshedInTime(sender: Clock, receiver: Clock, start: int, refresh: nat, draws: seq<Draw>, i: nat, j: nat)
    requires Running(sender, start) && Running(receiver, start) && i <= j <= |draws|
  {
    var at := SendTime(sender, start, refresh, draws, i);
    Running(receiver, at) && SendTime(sender, start, refresh, draws, j) < FireTime(receiver, at, CleanupMs(refresh))
  }

  lemma {:induction false} SendTimesIncrease(c: Clock, start: int, refresh: nat, draws: seq<Draw>, k: nat)
    requires Running(c, start) && k <= |draws| && refresh > 0
    ensures SendTime(c, start, refresh, draws, k) >= start
  {
    if k > 0 {
      SendTimesIncrease(c, start, refresh, draws, k - 1);
      RefreshGap(c, start, refresh, draws, k - 1);
    }
  }

  /** Two refresh intervals never outlast the cleanup timer, once R is at least 10/3 ticks. */
  lemma LossOfOneRefreshIsHarmless(sender: Clock, receiver: Clock, start: int, refresh: nat, draws: seq<Draw>, i: nat, j: nat)
    requires Running(sender, start) && Running(receiver, start)
    requires sender.tick == receiver.tick && 3 * refresh >= 10 * sender.tick
    requires i < j <= |draws| && j <= i + 2
    ensures RefreshedInTime(sender, receiver, start, refresh, draws, i, j)
  {
    var at := SendTime(sender, start, refresh, draws, i);
    SendTimesIncrease(sender, start, refresh, draws, i);
    RefreshGap(sender, start, refresh, draws, i);
    if j == i + 2 {
      RefreshGap(sender, start, refresh, draws, i + 1);
    }
    DelayBounds(receiver, at, CleanupMs(refresh));
  }

  /** In a run of any length that never loses two refreshes in a row, the state never expires. */
  lemma SoftStateSurvives(sender: Clock, receiver: Clock, start: int, refresh: nat, draws: seq<Draw>, received: seq<bool>, i: nat)
    returns (j: nat)
    requires Running(sender, start) && Running(receiver, start)
    requires sender.tick == receiver.tick && 3 * refresh >= 10 * sender.tick
    requires |received| == |draws| + 1 && NoTwoLostInARow(received)
    requires i + 2 < |received| && received[i]
    ensures i < j < |received| && received[j]
    ensures RefreshedInTime(sender, receiver, start, refresh, draws, i, j)
  {
    j := if received[i + 1] then i + 1 else i + 2;
    LossOfOneRefreshIsHarmless(sender, receiver, start, refresh, draws, i, j);
  }

  /** The sum of the three intervals drawn from the i-th refresh on. */
  function ThreeDraws(refresh: nat, draws: seq<Draw>, i: nat): nat
    requires i + 3 <= |draws|
  {
    JitteredRefresh(refresh, draws[i].transit, draws[i].random)
    + JitteredRefresh(refresh, draws[i + 1].transit, draws[i + 1].random)
    + JitteredRefresh(refresh, draws[i + 2].transit, draws[i + 2].random)
  }

  /**
   * What the draws decide when two refreshes in a row are lost, for all clocks and phases: the state
   * survives if the three intervals leave 7 ticks of the cleanup lifetime, and expires if they exceed
   * it by 5.
   */
  lemma LossOfTwoRefreshes(sender: Clock, receiver: Clock, start: int, refresh: nat, draws: seq<Draw>, i: nat)
    requires Running(sender, start) && Running(receiver, start)
    requires sender.tick == receiver.tick && refresh > 0 && i + 3 <= |draws|
    ensures ThreeDraws(refresh, draws, i) + 7 * sender.tick <= CleanupMs(refresh) ==>
              RefreshedInTime(sender, receiver, start, refresh, draws, i, i + 3)
    ensures ThreeDraws(refresh, draws, i) >= CleanupMs(refresh) + 5 * sender.tick ==>
              !RefreshedInTime(sender, receiver, start, refresh, draws, i, i + 3)
  {
    SendTimesIncrease(sender, start, refresh, draws, i);
    forall k | i <= k < i + 3
      ensures var ms := JitteredRefresh(refresh, draws[k].transit, draws[k].random);
              var from := SendTime(sender, start, refresh, draws, k);
              from + ms - sender.tick < SendTime(sender, start, refresh, draws, k + 1) < from + ms + 2 * sender.tick
    {
      DelayBounds(sender, SendTime(sender, start, refresh, draws, k),
                  JitteredRefresh(refresh, draws[k].transit, draws[k].random));
    }
    DelayBounds(receiver, SendTime(sender, start, refresh, draws, i), CleanupMs(refresh));
  }

  /** Two losses in a row can expire the state: transit jitter of 1.3 R, default period, 10 ms ticks. */
  lemma LossOfTwoRefreshesCanExpire()
    ensures var c := Clock(10, 0);
            var d := Draw(true, 5999);
            !RefreshedInTime(c, c, 0, DEFAULT_REFRESH_MS, [d, d, d], 0, 3)
  {
    var c := Clock(10, 0);
    var d := Draw(true, 5999);
    var ms := JitteredRefresh(DEFAULT_REFRESH_MS, true, 5999);
    assert ms == 38999;
    var draws := [d, d, d];
    var s1 := SendTime(c, 0, DEFAULT_REFRESH_MS, draws, 1);
    DelayBounds(c, 0, ms);
    var s2 := SendTime(c, 0, DEFAULT_REFRESH_MS, draws, 2);
    DelayBounds(c, s1, ms);
    var s3 := SendTime(c, 0, DEFAULT_REFRESH_MS, draws, 3);
    DelayBounds(c, s2, ms);
    assert s3 > 3 * ms - 30;
    DelayBounds(c, 0, CleanupMs(DEFAULT_REFRESH_MS));
  }
}
