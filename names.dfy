/** Comparison of UV map names, as Python's `<` on `str` compares them:
    lexicographically by code point, a proper prefix being the smaller. */
module Names {

  /** `a < b` on Python strings. */
  predicate Less(a: string, b: string)
  {
    if |a| == 0 then |b| > 0
    else if |b| == 0 then false
    else if a[0] != b[0] then a[0] < b[0]
    else Less(a[1..], b[1..])
  }

  lemma {:induction false} LessIrreflexive(a: string)
    ensures !Less(a, a)
  {
    if |a| > 0 {
      LessIrreflexive(a[1..]);
    }
  }

  lemma {:induction false} LessAsymmetric(a: string, b: string)
    ensures Less(a, b) ==> !Less(b, a)
  {
    if |a| > 0 && |b| > 0 && a[0] == b[0] {
      LessAsymmetric(a[1..], b[1..]);
    }
  }

  lemma {:induction false} LessTransitive(a: string, b: string, c: string)
    requires Less(a, b) && Less(b, c)
    ensures Less(a, c)
  {
    if |a| > 0 && a[0] == b[0] && b[0] == c[0] {
      LessTransitive(a[1..], b[1..], c[1..]);
    }
  }

  /** Two different names are always ordered one way or the other. */
  lemma {:induction false} LessTotal(a: string, b: string)
    requires a != b
    ensures Less(a, b) || Less(b, a)
  {
    if |a| > 0 && |b| > 0 && a[0] == b[0] {
      assert a == [a[0]] + a[1..] && b == [b[0]] + b[1..];
      LessTotal(a[1..], b[1..]);
    }
  }

  /** Name x may stand before name y in a list sorted A to Z (descending
      false) or Z to A (descending true). */
  predicate InOrder(x: string, y: string, descending: bool)
  {
    if descending then !Less(x, y) else !Less(y, x)
  }

  /** Name x must stand before name y in a list sorted without ties. */
  predicate Precedes(x: string, y: string, descending: bool)
  {
    if descending then Less(y, x) else Less(x, y)
  }

  lemma InOrderTotal(x: string, y: string, descending: bool)
    ensures InOrder(x, y, descending) || InOrder(y, x, descending)
  {
    LessAsymmetric(x, y);
  }

  lemma InOrderTransitive(x: string, y: string, z: string, descending: bool)
    requires InOrder(x, y, descending) && InOrder(y, z, descending)
    ensures InOrder(x, z, descending)
  {
    if x != y && y != z {
      LessTotal(x, y);
      LessTotal(y, z);
      if descending {
        LessTransitive(z, y, x);
      } else {
        LessTransitive(x, y, z);
      }
      LessAsymmetric(x, z);
    }
  }

  /** Between different names, "may stand before" is "must stand before". */
  lemma InOrderDistinct(x: string, y: string, descending: bool)
    requires x != y
    ensures InOrder(x, y, descending) <==> Precedes(x, y, descending)
  {
    LessTotal(x, y);
    LessAsymmetric(x, y);
  }

  lemma PrecedesAsymmetric(x: string, y: string, descending: bool)
    ensures Precedes(x, y, descending) ==> !Precedes(y, x, descending)
  {
    LessAsymmetric(x, y);
  }
}
