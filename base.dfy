/** Optional values and the fixed-width integer ranges the Rust source works with. */
module Base {
  datatype Option<+T> = None | Some(value: T)

  /** Rust `u8`. */
  type Byte = b: int | 0 <= b < 0x100

  /** Rust `i32`. */
  const INT32_MIN: int := -0x8000_0000
  const INT32_MAX: int := 0x7FFF_FFFF
  type Int32 = x: int | -0x8000_0000 <= x < 0x8000_0000

  /** Rust `u32`. */
  const UINT32_LIMIT: int := 0x1_0000_0000
  type UInt32 = x: int | 0 <= x < 0x1_0000_0000

  /** Rust `usize` on a 64-bit target. */
  const USIZE_LIMIT: int := 0x1_0000_0000_0000_0000
  type Usize = x: int | 0 <= x < 0x1_0000_0000_0000_0000

  predicate IsInt32(x: int) {
    INT32_MIN <= x <= INT32_MAX
  }

  /** The 16-bit value of two bytes, most significant first. */
  function BigEndian16(hi: Byte, lo: Byte): (v: int)
    ensures 0 <= v < 0x1_0000
  {
    hi as int * 256 + lo as int
  }
}

/** A value or an error, usable with `:-` for the source's `?` and panics made explicit. */
module Results {
  datatype Result<+T, +E> = Ok(value: T) | Err(error: E) {
    predicate IsFailure() {
      Err?
    }

    function PropagateFailure<U>(): Result<U, E>
      requires Err?
    {
      Err(error)
    }

    function Extract(): T
      requires Ok?
    {
      value
    }
  }
}
