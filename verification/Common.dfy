// What several components share.
module Common {
  const UINT32: nat := 0x1_0000_0000

  /** The refresh period of a node that was told no other. */
  const DEFAULT_REFRESH_MS: nat := 30000

  datatype Option<T> = None | Some(value: T)
}
