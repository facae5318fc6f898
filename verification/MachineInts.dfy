/** The machine integers of the service: i64 and u64 with saturating operations. */
module MachineInts {
  import opened Prelude

  const I64_MIN: int := -0x8000_0000_0000_0000
  const I64_MAX: int := 0x7FFF_FFFF_FFFF_FFFF
  const U32_MAX: int := 0xFFFF_FFFF
  const U64_MAX: int := 0xFFFF_FFFF_FFFF_FFFF

  type I64 = x: int | I64_MIN <= x <= I64_MAX
  type U32 = x: int | 0 <= x <= U32_MAX witness 0
  type U64 = x: int | 0 <= x <= U64_MAX witness 0

  function AddI64(a: I64, b: I64): I64 {
    Max(I64_MIN, Min(I64_MAX, a + b))
  }

  function SubI64(a: I64, b: I64): I64 {
    Max(I64_MIN, Min(I64_MAX, a - b))
  }

  function AddU64(a: U64, b: U64): U64 {
    Min(U64_MAX, a + b)
  }

  function MulU64(a: U64, b: U64): U64 {
    Mul(a, b);
    Min(U64_MAX, a * b)
  }

  lemma Mul(a: nat, b: nat)
    ensures 0 <= a * b
  {
  }
}
