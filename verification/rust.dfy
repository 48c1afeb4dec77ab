/** The pieces of Rust's runtime semantics that the marshalling layer relies on:
    byte and 32-bit integer types, the truncating `as` casts, overflow-checked
    multiplication, the allocation limit behind "capacity overflow" panics, and
    `Vec::truncate`.  A 64-bit target is assumed throughout (`usize` has 64 bits). */
module RustCore {

  /** `u8` */
  type Byte = x: int | 0 <= x < 0x100

  const I32_MIN: int := -0x8000_0000
  const I32_MAX: int := 0x7fff_ffff

  /** `i32`; the GL types GLint and GLsizei are this type. */
  type I32 = x: int | -0x8000_0000 <= x <= 0x7fff_ffff

  /** Number of distinct `usize` values on a 64-bit target. */
  const USIZE_MODULUS: int := 0x1_0000_0000_0000_0000

  /** `isize::MAX`: no allocation, and hence no `Vec` or slice, spans more bytes than this. */
  const ISIZE_MAX: int := 0x7fff_ffff_ffff_ffff

  /** Why a wrapper panicked instead of reaching the native call. */
  datatype Panic =
    | UnsupportedFormat     // "unsupported format for read_pixels"
    | UnsupportedPixelType  // "unsupported pixel_type for read_pixels"
    | MultiplyOverflow      // "attempt to multiply with overflow"
    | CapacityOverflow      // "capacity overflow" from the allocator front end
    | InteriorNul           // `CString::new(..).unwrap()` on a string holding a 0 byte

  /** The outcome of a wrapper call: a value, or a panic raised before anything else happens. */
  datatype Result<T> = Ok(value: T) | Panicked(reason: Panic)

  function Min(a: int, b: int): int { if a <= b then a else b }

  /** `n as i32` from a wider integer: keep the low 32 bits and read them as two's complement. */
  function AsI32(n: int): (r: I32)
    ensures (r - n) % 0x1_0000_0000 == 0
    ensures I32_MIN <= n <= I32_MAX ==> r == n
    ensures 0 <= n ==> r <= n
  {
    var m := n % 0x1_0000_0000;
    assert 0 <= n ==> m <= n;
    if m <= I32_MAX then m else m - 0x1_0000_0000
  }

  /** `n as usize` from an `i32`: sign extension, so a negative value becomes a huge one. */
  function AsUsize(n: I32): (r: nat)
    ensures r < USIZE_MODULUS
    ensures 0 <= n ==> r == n
    ensures n < 0 ==> r > ISIZE_MAX
  {
    if n >= 0 then n else n + USIZE_MODULUS
  }

  /** Whether an allocation of `count` elements of `elemSize` bytes is admitted; when it is not,
      `Vec::with_capacity`, `Vec::reserve` and `collect` panic with "capacity overflow". */
  predicate CapacityOk(count: nat, elemSize: nat)
  {
    count * elemSize <= ISIZE_MAX
  }

  /** `a * b` on `i32` with overflow checks on, as in a debug build. */
  function MulI32(a: I32, b: I32): (r: Result<I32>)
    ensures r.Ok? <==> I32_MIN <= a * b <= I32_MAX
    ensures r.Ok? ==> r.value == a * b
    ensures r.Panicked? ==> r.reason == MultiplyOverflow
  {
    var p := a * b;
    if I32_MIN <= p <= I32_MAX then Ok(p) else Panicked(MultiplyOverflow)
  }

  /** `Vec::truncate(len)`: shortens to `len` elements; a `len` at or above the current length
      leaves the vector as it is. */
  function Truncate<T>(v: seq<T>, len: nat): (r: seq<T>)
    ensures |r| == Min(len, |v|)
    ensures r == v[..|r|]
  {
    if len < |v| then v[..len] else v
  }
}
