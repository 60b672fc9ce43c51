/**
 * The two java.lang.String operations the library's contracts depend on:
 * String.compareTo (used by Format.compareTo and by string sort criteria) and
 * String.hashCode (used by Format.hashCode), with Java's 32-bit wrap-around.
 * Characters are compared as Dafny chars (Unicode scalar values); Java compares
 * UTF-16 code units, which orders supplementary characters differently.
 */
module JavaLang {

  const Int32Modulus: int := 0x1_0000_0000

  predicate IsInt32(x: int) {
    -0x8000_0000 <= x < 0x8000_0000
  }

  /** Two's-complement truncation of an integer to Java's `int`. */
  function Wrap32(x: int): (r: int)
    ensures IsInt32(r)
    ensures (x - r) % Int32Modulus == 0
  {
    (x + 0x8000_0000) % Int32Modulus - 0x8000_0000
  }

  /**
   * String.compareTo: the difference of the first pair of differing
   * characters, or the difference of the lengths when one string is a prefix
   * of the other. Zero exactly when the strings are equal.
   */
  function CompareTo(a: string, b: string): (r: int)
    ensures r == 0 <==> a == b
  {
    if a == [] || b == [] then |a| - |b|
    else if a[0] != b[0] then a[0] as int - b[0] as int
    else
      var r := CompareTo(a[1..], b[1..]);
      assert a == [a[0]] + a[1..] && b == [b[0]] + b[1..];
      r
  }

  lemma {:induction false} CompareToAntisymmetric(a: string, b: string)
    ensures CompareTo(a, b) == -CompareTo(b, a)
  {
    if a != [] && b != [] && a[0] == b[0] {
      CompareToAntisymmetric(a[1..], b[1..]);
    }
  }

  lemma {:induction false} CompareToTransitive(a: string, b: string, c: string)
    requires CompareTo(a, b) <= 0 && CompareTo(b, c) <= 0
    ensures CompareTo(a, c) <= 0
  {
    if a != [] && b != [] && c != [] && a[0] == b[0] && b[0] == c[0] {
      CompareToTransitive(a[1..], b[1..], c[1..]);
    }
  }

  /** The polynomial String.hashCode is documented as: sum of s[i]*31^(n-1-i). */
  function Polynomial(s: string): int
  {
    if s == [] then 0 else 31 * Polynomial(s[..|s| - 1]) + s[|s| - 1] as int
  }

  /** String.hashCode as Java computes it: h = 31*h + c over the characters, in `int`. */
  function HashCode(s: string): (h: int)
    ensures IsInt32(h)
  {
    if s == [] then 0 else Wrap32(31 * HashCode(s[..|s| - 1]) + s[|s| - 1] as int)
  }

  lemma CongruentScale(x: int, y: int, k: int, c: int)
    requires (x - y) % Int32Modulus == 0
    ensures ((k * x + c) - (k * y + c)) % Int32Modulus == 0
  {
    var q := (x - y) / Int32Modulus;
    assert x - y == q * Int32Modulus;
    assert (k * x + c) - (k * y + c) == (k * q) * Int32Modulus;
  }

  lemma CongruentTrans(x: int, y: int, z: int)
    requires (x - y) % Int32Modulus == 0 && (y - z) % Int32Modulus == 0
    ensures (x - z) % Int32Modulus == 0
  {
    var p := (x - y) / Int32Modulus;
    var q := (y - z) / Int32Modulus;
    assert x - z == (p + q) * Int32Modulus;
  }

  /** The wrapped hash agrees with the documented polynomial modulo 2^32. */
  lemma {:induction false} HashCodeIsPolynomial(s: string)
    ensures (HashCode(s) - Polynomial(s)) % Int32Modulus == 0
  {
    if s != [] {
      var t, c := s[..|s| - 1], s[|s| - 1] as int;
      HashCodeIsPolynomial(t);
      CongruentScale(HashCode(t), Polynomial(t), 31, c);
      CongruentTrans(HashCode(s), 31 * HashCode(t) + c, 31 * Polynomial(t) + c);
    }
  }
}
