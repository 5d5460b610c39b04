/**
  Lexicographic order on strings, the order `std::string::operator<` uses.
  Characters are compared by code point, which agrees with the byte-wise
  comparison of the C++ library for ASCII text.
  Note that Dafny's own `<` on sequences means "proper prefix", so the
  order is defined here instead.
 */
module Lex {

  /** `a < b` on `std::string` */
  predicate Less(a: string, b: string)
    decreases |a|
  {
    if |a| == 0 then |b| > 0
    else if |b| == 0 then false
    else if a[0] != b[0] then a[0] < b[0]
    else Less(a[1..], b[1..])
  }

  /** `a <= b` on `std::string` */
  predicate LessEq(a: string, b: string) {
    !Less(b, a)
  }

  lemma {:induction false} Irreflexive(a: string)
    ensures !Less(a, a)
    decreases |a|
  {
    if |a| > 0 {
      Irreflexive(a[1..]);
    }
  }

  lemma {:induction false} Transitive(a: string, b: string, c: string)
    requires Less(a, b) && Less(b, c)
    ensures Less(a, c)
    decreases |a|
  {
    if |a| > 0 && a[0] == b[0] && b[0] == c[0] {
      Transitive(a[1..], b[1..], c[1..]);
    }
  }

  /** Any two different strings are ordered one way or the other. */
  lemma {:induction false} Total(a: string, b: string)
    ensures a == b || Less(a, b) || Less(b, a)
    decreases |a|
  {
    if |a| > 0 && |b| > 0 && a[0] == b[0] {
      Total(a[1..], b[1..]);
      if a[1..] == b[1..] {
        assert a == [a[0]] + a[1..] && b == [b[0]] + b[1..];
      }
    }
  }

  lemma {:induction false} Asymmetric(a: string, b: string)
    requires Less(a, b)
    ensures !Less(b, a)
    decreases |a|
  {
    if |a| > 0 && a[0] == b[0] {
      Asymmetric(a[1..], b[1..]);
    }
  }

  /** `LessEq` is `<` or equality. */
  lemma LessEqIsLessOrEqual(a: string, b: string)
    ensures LessEq(a, b) <==> Less(a, b) || a == b
  {
    Total(a, b);
    if Less(a, b) {
      Asymmetric(a, b);
    }
    if a == b {
      Irreflexive(a);
    }
  }
}
