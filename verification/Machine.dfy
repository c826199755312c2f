/** What the modules share about the machine: word sizes, the page size, and optional results. */
module Machine {
  const W31: nat := 0x8000_0000
  const W32: nat := 0x1_0000_0000
  const W63: nat := 0x8000_0000_0000_0000
  const W64: nat := 0x1_0000_0000_0000_0000
  const PGSIZE: nat := 0x1000

  datatype Option<+T> = None | Some(value: T)

  /** The low 32 bits of a number, read as a signed `int`. */
  function AsInt(x: int): (r: int)
    ensures 0 <= r + W31 < W32 && (x - r) % W32 == 0
  {
    if x % W32 < W31 then x % W32 else x % W32 - W32
  }
}
