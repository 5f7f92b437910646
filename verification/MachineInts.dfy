/** The machine integers the source converts to. */
module MachineInts {
  const U64: nat := 0x1_0000_0000_0000_0000
  const INT_MAX: nat := 0x7FFF_FFFF
  const LONG_MAX: nat := 0x7FFF_FFFF_FFFF_FFFF

  /** The conversion of an unsigned value to `int`. */
  function ToInt(n: nat): int {
    var low := n % 0x1_0000_0000;
    if low < 0x8000_0000 then low else low - 0x1_0000_0000
  }

  /** The `int` that differs from the value by a multiple of 2^32. */
  lemma ToIntMeaning(n: nat)
    ensures -0x8000_0000 <= ToInt(n) < 0x8000_0000 && (n - ToInt(n)) % 0x1_0000_0000 == 0
  {
  }

  /** The conversion of a `uint64_t` to `int64_t`. */
  function ToLong(n: nat): int
    requires n < U64
  {
    if n <= LONG_MAX then n else n - U64
  }
}
