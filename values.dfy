/** Fixed-width integers of the contract interface and an optional value.
    Dafny's integers are unbounded, so each Rust integer type is a subset
    of `int` whose bounds are written out. */
module Values {

  const U32_MAX: int := 0xFFFF_FFFF
  const U64_MAX: int := 0xFFFF_FFFF_FFFF_FFFF
  const I128_MIN: int := -0x8000_0000_0000_0000_0000_0000_0000_0000
  const I128_MAX: int := 0x7FFF_FFFF_FFFF_FFFF_FFFF_FFFF_FFFF_FFFF

  /** Rust `u32`. */
  type U32 = x: int | 0 <= x <= U32_MAX

  /** Rust `u64`. */
  type U64 = x: int | 0 <= x <= U64_MAX

  /** Rust `i128`. */
  type I128 = x: int | I128_MIN <= x <= I128_MAX

  /** A storage read that may find nothing. */
  datatype Option<T> = None | Some(value: T) {
    /** The stored value, or `default` when the entry is absent (Rust's `unwrap_or`). */
    function UnwrapOr(default: T): T
    {
      match this
      case Some(v) => v
      case None => default
    }
  }

  function Min(a: int, b: int): (r: int)
    ensures r <= a && r <= b
    ensures r == a || r == b
  {
    if a <= b then a else b
  }
}
