/** Machine integers. Unsigned ones wrap around; signed ones are read from their bits, as two's complement. */
module Words {
  const UINT: nat := 0x1_0000_0000
  const ULONG: nat := 0x1_0000_0000_0000_0000

  type Word = n: int | 0 <= n < UINT

  predicate IsInt(n: int) {
    -0x8000_0000 <= n < 0x8000_0000
  }

  /** The conversion from an unsigned to a signed integer of 32 bits. */
  function AsInt(n: Word): (i: int)
    ensures IsInt(i) && i % UINT == n
  {
    if n < 0x8000_0000 then n else n - UINT
  }

  lemma IntFromBits(i: int)
    requires IsInt(i)
    ensures AsInt(i % UINT) == i && (i % UINT == 0 <==> i == 0)
  {
  }

  predicate IsLong(n: int) {
    -0x8000_0000_0000_0000 <= n < 0x8000_0000_0000_0000
  }

  /** The conversion from an unsigned to a signed integer of 64 bits. */
  function AsLong(n: nat): (i: int)
    requires n < ULONG
    ensures IsLong(i) && i % ULONG == n
  {
    if n < 0x8000_0000_0000_0000 then n else n - ULONG
  }

  lemma LongFromBits(i: int)
    requires IsLong(i)
    ensures AsLong(i % ULONG) == i
  {
  }
}
