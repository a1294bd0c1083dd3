/** Fixed-width unsigned integers of the C++ source and the two wrappers the model uses. */
module Words {

  const Two16: nat := 0x1_0000
  const Two32: nat := 0x1_0000_0000
  const Two48: nat := 0x1_0000_0000_0000
  const Two64: nat := 0x1_0000_0000_0000_0000

  /** One 16-bit slot of the fragments.pos, fragments.length and fragments.tile streams. */
  type Word16 = x: int | 0 <= x < 0x1_0000

  /** C++ `unsigned int`. */
  type UInt32 = x: int | 0 <= x < 0x1_0000_0000

  /** C++ `unsigned long` (64-bit). */
  type UInt64 = x: int | 0 <= x < 0x1_0000_0000_0000_0000

  /** A C++ `char`; `char` is signed on the platforms the tool is built for. */
  type CChar = x: int | -128 <= x < 128

  /** A `std::string`: contig names are compared byte by byte. */
  type CString = seq<CChar>

  datatype Option<+T> = None | Some(value: T)

  datatype Result<+T, +E> = Success(value: T) | Failure(error: E)

  /** The sum of a sequence of naturals, added from the left. */
  function Sum(s: seq<nat>): nat
  {
    if s == [] then 0 else Sum(s[..|s| - 1]) + s[|s| - 1]
  }

  /** Euclidean division by 2^32 is determined by its quotient and remainder. */
  lemma DivMod32(x: int, q: int, r: int)
    requires 0 <= r < Two32 && x == q * Two32 + r
    ensures x % Two32 == r
  {
  }

  lemma DivMod64(x: int, q: int, r: int)
    requires 0 <= r < Two64 && x == q * Two64 + r
    ensures x % Two64 == r
  {
  }

  /** Reducing before adding changes nothing modulo 2^32. */
  lemma ModAdd32(a: int, b: nat)
    ensures (a % Two32 + b) % Two32 == (a + b) % Two32
  {
    var x := a % Two32 + b;
    DivMod32(a + b, a / Two32 + x / Two32, x % Two32);
  }

  /** Reducing before adding changes nothing modulo 2^64. */
  lemma ModAdd64(a: int, b: nat)
    ensures (a % Two64 + b) % Two64 == (a + b) % Two64
  {
    var x := a % Two64 + b;
    DivMod64(a + b, a / Two64 + x / Two64, x % Two64);
  }
}
