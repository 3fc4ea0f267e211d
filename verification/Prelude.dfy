/** Types shared by every module: optional values, results and fixed-width integers. */
module Prelude {
  datatype Option<+T> = None | Some(value: T)

  datatype Result<+T, +E> = Ok(value: T) | Err(error: E)

  type byte = n: nat | n < 0x100

  type u32 = n: nat | n < 0x1_0000_0000

  type u64 = n: nat | n < 0x1_0000_0000_0000_0000

  type u128 = n: nat | n < 0x1_0000_0000_0000_0000_0000_0000_0000_0000

  const U32_LIMIT: nat := 0x1_0000_0000

  const U64_LIMIT: nat := 0x1_0000_0000_0000_0000

  const U128_LIMIT: nat := 0x1_0000_0000_0000_0000_0000_0000_0000_0000

  const U64_MAX: u64 := 0xFFFF_FFFF_FFFF_FFFF

  function Min(a: nat, b: nat): nat {
    if a <= b then a else b
  }

  function Pow2(k: nat): (p: nat)
    ensures p > 0
  {
    if k == 0 then 1 else 2 * Pow2(k - 1)
  }

  /** Narrowing casts: the value itself where it fits. */
  function AsU32(n: nat): u32 {
    if n < U32_LIMIT then n else n % U32_LIMIT
  }

  function AsU64(n: nat): u64 {
    if n < U64_LIMIT then n else n % U64_LIMIT
  }

  function AsU128(n: nat): u128 {
    if n < U128_LIMIT then n else n % U128_LIMIT
  }

  /** Rust's `u64::saturating_add`. */
  function SatAdd(a: u64, b: u64): u64 {
    if a + b < U64_LIMIT then a + b else U64_MAX
  }

  /** The characters removed by Rust's `str::trim` (Unicode White_Space). */
  predicate IsWhitespace(c: char) {
    || '\U{9}' <= c <= '\U{D}' || c == ' ' || c == '\U{85}' || c == '\U{A0}' || c == '\U{1680}'
    || '\U{2000}' <= c <= '\U{200A}' || c == '\U{2028}' || c == '\U{2029}' || c == '\U{202F}'
    || c == '\U{205F}' || c == '\U{3000}'
  }

  /** `s.trim().is_empty()` */
  predicate IsBlank(s: string) {
    forall i | 0 <= i < |s| :: IsWhitespace(s[i])
  }
}
