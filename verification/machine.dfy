/** Machine types shared by the models. */
module Machine {
  type byte = x: nat | x < 0x100
  type u64 = x: nat | x < 0x1_0000_0000_0000_0000

  /** The number of values of a uint32. */
  const WORD: nat := 0x1_0000_0000
}
