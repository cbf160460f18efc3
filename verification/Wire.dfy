// Bytes on the wire and the RSVP checksum.
module Wire {
  import opened Common

  const HDR_LEN: nat := 8
  const OBJ_HDR_LEN: nat := 4
  const RSVP_VERSION: nat := 1

  type byte = b: int | 0 <= b < 256
  newtype uint32 = x: int | 0 <= x < UINT32

  /** The big-endian 16-bit word at a position. */
  function U16(b: seq<byte>, i: nat): (w: nat)
    requires i + 1 < |b|
    ensures w < 65536
  {
    256 * (b[i] as int) + b[i + 1]
  }

  function Put16(w: nat): (b: seq<byte>)
    requires w < 65536
    ensures |b| == 2 && U16(b, 0) == w
  {
    [w / 256, w % 256]
  }

  /** A 32-bit number, the high half first. */
  function Put32(v: nat): (b: seq<byte>)
    requires v < UINT32
    ensures |b| == 4 && U16(b, 0) * 65536 + U16(b, 2) == v
  {
    var b := Put16(v / 65536) + Put16(v % 65536);
    assert U16(b, 0) == U16(Put16(v / 65536), 0) && U16(b, 2) == U16(Put16(v % 65536), 0);
    b
  }

  function Zeros(n: nat): (z: seq<byte>)
    ensures |z| == n && forall i :: 0 <= i < n ==> z[i] == 0
  {
    seq(n, _ => 0)
  }

  /** Rounds a length up to a multiple of four. */
  function Align(n: nat): (a: nat)
    ensures n <= a < n + 4 && a % 4 == 0
  {
    (n + 3) / 4 * 4
  }

  // ---- one's complement sum --------------------------------------------

  /** The sum of the 16-bit words; a last odd byte counts as the high half of a word. */
  function WordSum(b: seq<byte>): nat {
    if |b| == 0 then 0
    else if |b| == 1 then 256 * (b[0] as int)
    else U16(b, 0) + WordSum(b[2..])
  }

  /** Adds the carries back in until 16 bits are left. */
  function Fold(sum: nat): nat {
    if sum < 65536 then sum else Fold(sum % 65536 + sum / 65536)
  }

  /** The complement of the folded 32-bit sum. */
  function Checksum(b: seq<byte>): nat {
    65535 - FoldedSum(b)
  }

  function FoldedSum(b: seq<byte>): (r: nat)
    ensures r < 65536
  {
    FoldIsResidue(WordSum(b) % UINT32);
    Fold(WordSum(b) % UINT32)
  }

  lemma {:induction false} DropMultiples(k: nat, x: nat)
    ensures (65535 * k + x) % 65535 == x % 65535
  {
    if k > 0 {
      DropMultiples(k - 1, x);
    }
  }

  /** Folding keeps the residue modulo 65535, and gives 0 only for 0. */
  lemma {:induction false} FoldIsResidue(sum: nat)
    ensures Fold(sum) == if sum == 0 then 0 else (sum - 1) % 65535 + 1
    ensures Fold(sum) < 65536
  {
    if sum >= 65536 {
      var hi, lo := sum / 65536, sum % 65536;
      FoldIsResidue(lo + hi);
      assert sum - 1 == 65535 * hi + (lo + hi - 1);
      DropMultiples(hi, lo + hi - 1);
    }
  }

  /** Two sums fold alike exactly when they are congruent modulo 65535 and both or neither are 0. */
  lemma FoldEqualIff(x: nat, y: nat)
    ensures Fold(x) == Fold(y) <==> x % 65535 == y % 65535 && (x == 0 <==> y == 0)
  {
    FoldIsResidue(x);
    FoldIsResidue(y);
    if x > 0 && y > 0 {
      ResidueShift(x);
      ResidueShift(y);
    }
  }

  lemma ResidueShift(x: nat)
    requires x > 0
    ensures x % 65535 == if (x - 1) % 65535 == 65534 then 0 else (x - 1) % 65535 + 1
  {
  }

  /** The sum over a message of at most 131072 bytes, twice what a length field can say, fits in 32 bits. */
  lemma {:induction false} SumFits(b: seq<byte>)
    ensures WordSum(b) <= (|b| + 1) / 2 * 65535
    ensures |b| <= 131072 ==> WordSum(b) < UINT32
    decreases |b|
  {
    if |b| >= 2 {
      SumFits(b[2..]);
    }
  }

  lemma {:induction false} SumOfConcat(a: seq<byte>, b: seq<byte>)
    requires |a| % 2 == 0
    ensures WordSum(a + b) == WordSum(a) + WordSum(b)
    decreases |a|
  {
    if a == [] {
      assert a + b == b;
    } else {
      assert (a + b)[2..] == a[2..] + b;
      SumOfConcat(a[2..], b);
    }
  }

  /** One more word at the end of the summed part. */
  lemma SumOfNextWord(b: seq<byte>, i: nat)
    requires i % 2 == 0 && i + 1 < |b|
    ensures WordSum(b[..i + 2]) == WordSum(b[..i]) + U16(b, i)
  {
    assert b[..i + 2] == b[..i] + [b[i], b[i + 1]];
    SumOfConcat(b[..i], [b[i], b[i + 1]]);
    assert [b[i], b[i + 1]][2..] == [];
  }

  lemma SumOfLastByte(b: seq<byte>)
    requires |b| % 2 == 1
    ensures WordSum(b) == WordSum(b[..|b| - 1]) + 256 * (b[|b| - 1] as int)
  {
    assert b == b[..|b| - 1] + [b[|b| - 1]];
    SumOfConcat(b[..|b| - 1], [b[|b| - 1]]);
  }

  // ---- sealing and verifying a message ---------------------------------

  /** The sum that a verifier forms: everything but the checksum word at offset 2. */
  function SkipSum(b: seq<byte>): nat
    requires |b| >= 4
  {
    U16(b, 0) + WordSum(b[4..])
  }

  predicate Verifies(b: seq<byte>)
    ensures Verifies(b) ==> |b| >= 4
  {
    |b| >= 4 && U16(b, 2) == 65535 - Fold(SkipSum(b) % UINT32)
  }

  function WithWord(b: seq<byte>, i: nat, w: nat): (r: seq<byte>)
    requires i + 1 < |b| && w < 65536
    ensures |r| == |b|
  {
    b[i := w / 256][i + 1 := w % 256]
  }

  /** The message with its checksum computed over a zero checksum field. */
  function Sealed(b: seq<byte>): seq<byte>
    requires |b| >= 4
  {
    WithWord(b, 2, Checksum(WithWord(b, 2, 0)))
  }

  lemma SkipSumIgnoresField(b: seq<byte>, w: nat)
    requires |b| >= 4 && w < 65536
    ensures SkipSum(WithWord(b, 2, w)) == SkipSum(b)
    ensures WordSum(WithWord(b, 2, w)) == SkipSum(b) + w
  {
    var r := WithWord(b, 2, w);
    assert r[4..] == b[4..];
    assert r[2..][2..] == r[4..];
    assert U16(r[2..], 0) == U16(r, 2) == w;
  }

  /** Every sealed message verifies. */
  lemma SealedVerifies(b: seq<byte>)
    requires |b| >= 4
    ensures Verifies(Sealed(b))
    ensures |Sealed(b)| == |b|
    ensures forall i :: 0 <= i < |b| && i != 2 && i != 3 ==> Sealed(b)[i] == b[i]
  {
    SkipSumIgnoresField(b, 0);
    SkipSumIgnoresField(b, Checksum(WithWord(b, 2, 0)));
  }

  /** A verifier accepts exactly the messages that sealing leaves as they are. */
  lemma VerifiesIffSealed(b: seq<byte>)
    requires |b| >= 4
    ensures Verifies(b) <==> b == Sealed(b)
  {
    SkipSumIgnoresField(b, 0);
    SealedVerifies(b);
    assert Checksum(WithWord(b, 2, 0)) == 65535 - Fold(SkipSum(b) % UINT32);
    var w := U16(b, 2);
    assert b[2] == w / 256 && b[3] == w % 256;
    assert b == WithWord(b, 2, w);
  }

  lemma SumWithWord(b: seq<byte>, i: nat, w: nat)
    requires i % 2 == 0 && i + 1 < |b| && w < 65536
    ensures WordSum(WithWord(b, i, w)) + U16(b, i) == WordSum(b) + w
  {
    var r := WithWord(b, i, w);
    assert b == b[..i] + b[i..] && r == r[..i] + r[i..] && r[..i] == b[..i];
    SumOfConcat(b[..i], b[i..]);
    SumOfConcat(b[..i], r[i..]);
    assert r[i..][2..] == b[i..][2..];
    assert U16(r[i..], 0) == w && U16(b[i..], 0) == U16(b, i);
  }

  /**
   * Changing one word beside the checksum goes unnoticed exactly when the new
   * word is congruent to the old one modulo 65535 (0x0000 against 0xFFFF), as long as
   * the sum fits in 32 bits.
   */
  lemma OneWordChangeDetected(b: seq<byte>, i: nat, w: nat)
    requires Verifies(b) && |b| <= 131072 && i % 2 == 0 && i != 2 && i + 1 < |b| && w < 65536
    requires SkipSum(b) > 0 && SkipSum(WithWord(b, i, w)) > 0
    ensures Verifies(WithWord(b, i, w)) <==> w % 65535 == U16(b, i) % 65535
  {
    hide Verifies, SkipSum, WithWord, Fold;
    var r := WithWord(b, i, w);
    SkipSumOfChange(b, i, w);
    SmallVerifies(b);
    SmallVerifies(r);
    FoldEqualIff(SkipSum(r), SkipSum(b));
    FoldIsResidue(SkipSum(r));
    FoldIsResidue(SkipSum(b));
    CongruentTogether(SkipSum(r), SkipSum(b), w, U16(b, i));
  }

  lemma SkipSumOfChange(b: seq<byte>, i: nat, w: nat)
    requires |b| >= 4 && i % 2 == 0 && i != 2 && i + 1 < |b| && w < 65536
    ensures var r := WithWord(b, i, w);
            U16(r, 2) == U16(b, 2) && SkipSum(r) - w == SkipSum(b) - U16(b, i)
  {
    var r := WithWord(b, i, w);
    if i == 0 {
      assert r[4..] == b[4..];
    } else {
      assert U16(r, 0) == U16(b, 0);
      assert r[4..] == WithWord(b[4..], i - 4, w);
      SumWithWord(b[4..], i - 4, w);
      assert U16(b[4..], i - 4) == U16(b, i);
    }
  }

  lemma SmallVerifies(b: seq<byte>)
    requires 4 <= |b| <= 131072
    ensures Verifies(b) <==> U16(b, 2) == 65535 - Fold(SkipSum(b))
  {
    SkipSumIgnoresField(b, 0);
    SumFits(WithWord(b, 2, 0));
  }

  lemma CongruentTogether(x: nat, y: nat, u: nat, v: nat)
    requires x - u == y - v
    ensures x % 65535 == y % 65535 <==> u % 65535 == v % 65535
  {
    assert x - y == u - v;
    CongruentIff(x, y);
    CongruentIff(u, v);
  }

  lemma CongruentIff(x: nat, y: nat)
    ensures x % 65535 == y % 65535 <==> (x - y) % 65535 == 0
  {
  }

  // ---- the loops --------------------------------------------------------

  lemma AddWraps(x: nat, y: nat)
    ensures (x % UINT32 + y) % UINT32 == (x + y) % UINT32
  {
  }

  /** Sums the words of a buffer with a 32-bit accumulator that wraps, starting from a partial sum. */
  method SumWords(b: seq<byte>, start: uint32) returns (sum: uint32)
    ensures sum as nat == (start as nat + WordSum(b)) % UINT32
  {
    sum := start;
    var i := 0;
    while |b| - i > 1
      invariant 0 <= i <= |b| && i % 2 == 0
      invariant sum as nat == (start as nat + WordSum(b[..i])) % UINT32
    {
      SumOfNextWord(b, i);
      AddWraps(start as nat + WordSum(b[..i]), U16(b, i));
      sum := ((sum as nat + U16(b, i)) % UINT32) as uint32;
      i := i + 2;
    }
    if |b| - i > 0 {
      SumOfLastByte(b);
      AddWraps(start as nat + WordSum(b[..i]), 256 * (b[i] as int));
      sum := ((sum as nat + 256 * (b[i] as int)) % UINT32) as uint32;
    } else {
      assert b[..i] == b;
    }
  }

  method FoldSum(start: uint32) returns (sum: uint32)
    ensures sum as nat == Fold(start as nat) && sum < 65536
  {
    sum := start;
    while sum >= 65536
      invariant Fold(sum as nat) == Fold(start as nat)
      decreases sum
    {
      sum := (sum % 65536) + (sum / 65536);
    }
  }

  method ComputeChecksum(b: seq<byte>) returns (c: nat)
    ensures c == Checksum(b)
  {
    var sum := SumWords(b, 0);
    sum := FoldSum(sum);
    c := 65535 - sum as int;
  }

  /** Checks a message; a message shorter than four bytes is refused. */
  method VerifyChecksum(b: seq<byte>) returns (ok: bool)
    ensures ok <==> Verifies(b)
  {
    if |b| < 4 {
      return false;
    }
    var sum := SumWords(b[4..], U16(b, 0) as uint32);
    sum := FoldSum(sum);
    var computed := 65535 - sum as int;
    ok := U16(b, 2) == computed;
  }
}
