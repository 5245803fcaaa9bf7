/**
 * The `<` of std::string: lexicographic order on characters, a proper prefix coming first.
 * Characters compare by code point, which for single bytes is the unsigned-char order
 * std::char_traits<char> uses.
 */
module StringOrder {

  /** `a < b` for strings: a proper prefix comes first, and no string comes before its own prefix. */
  predicate Less(a: string, b: string)
    decreases |a|
    ensures |a| < |b| && a == b[..|a|] ==> Less(a, b)
    ensures |b| <= |a| && b == a[..|b|] ==> !Less(a, b)
  {
    if a == [] then b != []
    else if b == [] then false
    else if a[0] != b[0] then a[0] < b[0]
    else Less(a[1..], b[1..])
  }

  /** `a <= b`: equal, or strictly before. */
  predicate LessOrEqual(a: string, b: string)
  {
    a == b || Less(a, b)
  }

  lemma {:induction false} LessIrreflexive(a: string)
    ensures !Less(a, a)
  {
    if a != [] {
      LessIrreflexive(a[1..]);
    }
  }

  lemma {:induction false} LessAsymmetric(a: string, b: string)
    requires Less(a, b)
    ensures !Less(b, a)
  {
    if a != [] && b != [] && a[0] == b[0] {
      LessAsymmetric(a[1..], b[1..]);
    }
  }

  lemma {:induction false} LessTransitive(a: string, b: string, c: string)
    requires Less(a, b) && Less(b, c)
    ensures Less(a, c)
  {
    if a != [] && a[0] == b[0] && b[0] == c[0] {
      LessTransitive(a[1..], b[1..], c[1..]);
    }
  }

  /** Any two different strings are ordered one way or the other. */
  lemma {:induction false} LessTrichotomous(a: string, b: string)
    requires a != b
    ensures Less(a, b) || Less(b, a)
  {
    if a != [] && b != [] && a[0] == b[0] {
      assert a == [a[0]] + a[1..] && b == [b[0]] + b[1..];
      LessTrichotomous(a[1..], b[1..]);
    }
  }

  /** "Not b < a" is exactly "a <= b": the order is total. */
  lemma NotLessIsLessOrEqual(a: string, b: string)
    ensures !Less(b, a) <==> LessOrEqual(a, b)
  {
    if a == b {
      LessIrreflexive(a);
    } else if Less(a, b) {
      LessAsymmetric(a, b);
    } else {
      LessTrichotomous(a, b);
    }
  }

  lemma LessOrEqualTransitive(a: string, b: string, c: string)
    requires LessOrEqual(a, b) && LessOrEqual(b, c)
    ensures LessOrEqual(a, c)
  {
    if a != b && b != c {
      LessTransitive(a, b, c);
    }
  }
}
