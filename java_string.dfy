/** The parts of `java.lang.String` the anagram jobs call: `compareTo`,
    `hashCode`, `contains` and `String.valueOf(int)`. A Java `char` is modelled
    by a Dafny `char`; the words the jobs compare and hash are ASCII. */
module JavaString {
  import opened JavaInt

  // ---------------------------------------------------------------------------
  // compareTo

  /** `a.compareTo(b)`: the difference of the first pair of differing chars, or,
      when one string is a prefix of the other, the difference of the lengths. */
  function CompareTo(a: string, b: string): (r: int)
    ensures r == 0 <==> a == b
  {
    if a == [] || b == [] then |a| - |b|
    else if a[0] != b[0] then a[0] as int - b[0] as int
    else
      assert a == [a[0]] + a[1..] && b == [b[0]] + b[1..];
      CompareTo(a[1..], b[1..])
  }

  /** `a.compareTo(b) <= 0`: the lexicographic order on strings. */
  predicate Le(a: string, b: string) {
    CompareTo(a, b) <= 0
  }

  /** `a.compareTo(b) < 0`. */
  predicate Less(a: string, b: string) {
    CompareTo(a, b) < 0
  }

  /** Swapping the arguments negates the result exactly. */
  lemma {:induction false} CompareToAntisymmetric(a: string, b: string)
    ensures CompareTo(b, a) == -CompareTo(a, b)
  {
    if a != [] && b != [] && a[0] == b[0] {
      CompareToAntisymmetric(a[1..], b[1..]);
    }
  }

  lemma {:induction false} LeTransitive(a: string, b: string, c: string)
    requires Le(a, b) && Le(b, c)
    ensures Le(a, c)
  {
    if a != [] && b != [] && c != [] && a[0] == b[0] && b[0] == c[0] {
      LeTransitive(a[1..], b[1..], c[1..]);
    }
  }

  lemma {:induction false} LessTransitive(a: string, b: string, c: string)
    requires Less(a, b) && Less(b, c)
    ensures Less(a, c)
  {
    LeTransitive(a, b, c);
    CompareToAntisymmetric(a, b);
  }

  lemma LeTotal(a: string, b: string)
    ensures Le(a, b) || Le(b, a)
  {
    CompareToAntisymmetric(a, b);
  }

  /** `<=` on strings is a total order: total, antisymmetric and transitive. */
  lemma LeIsTotalOrder()
    ensures forall a, b :: Le(a, b) || Le(b, a)
    ensures forall a, b :: Le(a, b) && Le(b, a) ==> a == b
    ensures forall a, b, c :: Le(a, b) && Le(b, c) ==> Le(a, c)
  {
    forall a, b ensures Le(a, b) || Le(b, a) {
      LeTotal(a, b);
    }
    forall a, b | Le(a, b) && Le(b, a) ensures a == b {
      CompareToAntisymmetric(a, b);
    }
    forall a, b, c | Le(a, b) && Le(b, c) ensures Le(a, c) {
      LeTransitive(a, b, c);
    }
  }

  // ---------------------------------------------------------------------------
  // hashCode

  /** `s.hashCode()` as the JDK computes it: `h = 31 * h + s[i]` over the chars,
      in `int` arithmetic, so every step wraps around modulo 2^32. */
  function HashCode(s: string): (h: int)
    ensures IsInt32(h)
  {
    if s == [] then 0 else Wrap32(31 * HashCode(s[..|s| - 1]) + s[|s| - 1] as int)
  }

  function Pow31(n: nat): (p: int)
    ensures p >= 1
  {
    if n == 0 then 1 else 31 * Pow31(n - 1)
  }

  /** The documented value `s[0]*31^(n-1) + s[1]*31^(n-2) + ... + s[n-1]`, before
      it is wrapped into an `int`. */
  function HashPolynomial(s: string): int {
    if s == [] then 0 else s[0] as int * Pow31(|s| - 1) + HashPolynomial(s[1..])
  }

  /** Horner's rule: appending a char multiplies the polynomial by 31 and adds it. */
  lemma {:induction false} HashPolynomialAppend(s: string, c: char)
    ensures HashPolynomial(s + [c]) == 31 * HashPolynomial(s) + c as int
  {
    if s != [] {
      assert (s + [c])[1..] == s[1..] + [c];
      HashPolynomialAppend(s[1..], c);
      assert s[0] as int * Pow31(|s|) == 31 * (s[0] as int * Pow31(|s| - 1));
    }
  }

  /** The JDK's loop computes the documented polynomial, wrapped to 32 bits. */
  lemma {:induction false} HashCodeIsWrappedPolynomial(s: string)
    ensures HashCode(s) == Wrap32(HashPolynomial(s))
  {
    if s != [] {
      var p, c := s[..|s| - 1], s[|s| - 1];
      assert s == p + [c];
      HashCodeIsWrappedPolynomial(p);
      HashPolynomialAppend(p, c);
      var w := Wrap32(HashPolynomial(p));
      var q := (HashPolynomial(p) - w) / TwoTo32;
      assert HashPolynomial(p) == w + q * TwoTo32;
      WrapCongruent(31 * HashPolynomial(p) + c as int, 31 * w + c as int, 31 * q);
    }
  }

  // ---------------------------------------------------------------------------
  // contains

  predicate IsPrefix(p: string, s: string) {
    |p| <= |s| && s[..|p|] == p
  }

  /** `t` occurs in `s` starting at index `i`. */
  predicate OccursAt(s: string, t: string, i: int) {
    0 <= i <= |s| - |t| && s[i..i + |t|] == t
  }

  /** `s.contains(t)`, scanning `s` from the left for a prefix equal to `t`. */
  function Contains(s: string, t: string): bool {
    if IsPrefix(t, s) then true
    else if s == [] then false
    else Contains(s[1..], t)
  }

  /** `contains` holds exactly when `t` occurs somewhere in `s` as a contiguous substring. */
  lemma {:induction false} ContainsIffOccurs(s: string, t: string)
    ensures Contains(s, t) <==> exists i :: OccursAt(s, t, i)
  {
    if IsPrefix(t, s) {
      assert OccursAt(s, t, 0);
    } else if s == [] {
      assert forall i :: !OccursAt(s, t, i);
    } else {
      ContainsIffOccurs(s[1..], t);
      forall i ensures OccursAt(s[1..], t, i) <==> OccursAt(s, t, i + 1) {
        if 0 <= i <= |s| - 1 - |t| {
          assert s[1..][i..i + |t|] == s[i + 1..i + 1 + |t|];
        }
      }
      if exists i :: OccursAt(s, t, i) {
        var i :| OccursAt(s, t, i);
        assert i != 0;
        assert OccursAt(s[1..], t, i - 1);
      }
    }
  }

  // ---------------------------------------------------------------------------
  // String.valueOf(int), for non-negative values

  function DigitChar(d: nat): (c: char)
    requires d < 10
    ensures '0' <= c <= '9'
  {
    ('0' as int + d) as char
  }

  /** The decimal text of a non-negative `int`, without leading zeros. */
  function ValueOf(n: nat): (s: string)
    ensures |s| >= 1
    ensures forall i :: 0 <= i < |s| ==> '0' <= s[i] <= '9'
    ensures n > 0 ==> s[0] != '0'
  {
    if n < 10 then [DigitChar(n)] else ValueOf(n / 10) + [DigitChar(n % 10)]
  }

  /** `Integer.parseInt` on a string of decimal digits. */
  function ParseDigits(s: string): nat
    requires forall i :: 0 <= i < |s| ==> '0' <= s[i] <= '9'
  {
    if s == [] then 0
    else ParseDigits(s[..|s| - 1]) * 10 + (s[|s| - 1] as int - '0' as int)
  }

  /** The decimal text parses back to the number. */
  lemma {:induction false} ValueOfRoundTrip(n: nat)
    ensures ParseDigits(ValueOf(n)) == n
  {
    if n >= 10 {
      var s := ValueOf(n);
      assert s[..|s| - 1] == ValueOf(n / 10);
      ValueOfRoundTrip(n / 10);
    }
  }
}
