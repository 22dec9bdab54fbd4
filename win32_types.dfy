/**
 * Integer widths of the Windows types the journal lister uses, and the
 * Option wrapper used for lookups that may fail.
 *
 * Dafny integers are unbounded; every place where the source stores a
 * value into a fixed-width C type says so through one of the functions below.
 */
module Win32Types {

  datatype Option<T> = None | Some(value: T)

  const Two32: int := 0x1_0000_0000
  const Two64: int := 0x1_0000_0000_0000_0000

  /** BYTE. */
  type u8 = x: int | 0 <= x < 0x100
  /** WORD. */
  type u16 = x: int | 0 <= x < 0x1_0000
  /** DWORD / ULONG held as an integer. */
  type u32 = x: int | 0 <= x < 0x1_0000_0000
  /** LONG: a Windows `long` is 32 bits wide. */
  type i32 = x: int | -0x8000_0000 <= x < 0x8000_0000
  /** DWORDLONG / ULONGLONG. */
  type u64 = x: int | 0 <= x < 0x1_0000_0000_0000_0000
  /** LONGLONG / USN / LARGE_INTEGER.QuadPart. */
  type i64 = x: int | -0x8000_0000_0000_0000 <= x < 0x8000_0000_0000_0000

  /** Storing an integer into a DWORD keeps its low 32 bits. */
  function ToU32(x: int): (r: u32)
    ensures (x - r) % Two32 == 0
    ensures 0 <= x < Two32 ==> r == x
  {
    x % Two32
  }

  /** Storing an integer into a LONG (two's complement, as MSVC does). */
  function ToI32(x: int): (r: i32)
    ensures (x - r) % Two32 == 0
    ensures -0x8000_0000 <= x < 0x8000_0000 ==> r == x
  {
    var m := x % Two32;
    if m < 0x8000_0000 then m else m - Two32
  }

  /** Storing an integer into a LONGLONG (two's complement wrap-around). */
  function ToI64(x: int): (r: i64)
    ensures (x - r) % Two64 == 0
    ensures -0x8000_0000_0000_0000 <= x < 0x8000_0000_0000_0000 ==> r == x
  {
    var m := x % Two64;
    if m < 0x8000_0000_0000_0000 then m else m - Two64
  }

  /** Reinterpreting the bits of a 64-bit unsigned value as a signed one. */
  function SignedOf64(x: u64): (r: i64)
    ensures r >= 0 <==> x < 0x8000_0000_0000_0000
    ensures (r - x) % Two64 == 0
  {
    if x < 0x8000_0000_0000_0000 then x else x - Two64
  }
}
