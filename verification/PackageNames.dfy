/** Alphabetical order of package names: Python's comparison of strings by code point. */
module PackageNames {

  predicate Before(a: string, b: string) {
    if b == "" then false
    else if a == "" then true
    else a[0] < b[0] || (a[0] == b[0] && Before(a[1..], b[1..]))
  }

  lemma {:induction false} BeforeIsStrict(a: string, b: string)
    ensures Before(a, b) ==> !Before(b, a) && a != b
  {
    if a != "" && b != "" && a[0] == b[0] { BeforeIsStrict(a[1..], b[1..]); }
  }

  lemma {:induction false} BeforeIsTotal(a: string, b: string)
    ensures a == b || Before(a, b) || Before(b, a)
  {
    if a != "" && b != "" && a[0] == b[0] {
      BeforeIsTotal(a[1..], b[1..]);
      assert a == [a[0]] + a[1..] && b == [b[0]] + b[1..];
    }
  }

  lemma {:induction false} BeforeIsTransitive(a: string, b: string, c: string)
    requires Before(a, b) && Before(b, c)
    ensures Before(a, c)
  {
    if a != "" && a[0] == b[0] && b[0] == c[0] {
      BeforeIsTransitive(a[1..], b[1..], c[1..]);
    }
  }

  /** The first character that differs decides, by its code point. */
  lemma {:induction false} FirstDifferenceDecides(a: string, b: string, i: nat)
    requires i < |a| && i < |b| && a[..i] == b[..i] && a[i] != b[i]
    ensures Before(a, b) <==> a[i] < b[i]
    decreases i
  {
    if i > 0 {
      assert a[0] == a[..i][0] && b[0] == b[..i][0];
      assert a[1..][..i - 1] == a[..i][1..] && b[1..][..i - 1] == b[..i][1..];
      FirstDifferenceDecides(a[1..], b[1..], i - 1);
    }
  }

  /** A name comes before every longer one that it begins. */
  lemma {:induction false} BeginningComesFirst(a: string, b: string)
    requires a <= b
    ensures Before(a, b) <==> a != b
    decreases |a|
  {
    if a != "" {
      assert a[1..] <= b[1..];
      BeginningComesFirst(a[1..], b[1..]);
      assert a == [a[0]] + a[1..] && b == [b[0]] + b[1..];
    }
  }

  /** The first of the sorted names. */
  method First(names: seq<string>) returns (first: string)
    requires names != []
    ensures first in names
    ensures forall n | n in names :: first == n || Before(first, n)
  {
    first := names[0];
    var i := 1;
    while i < |names|
      invariant 1 <= i <= |names| && first in names
      invariant forall n | n in names[..i] :: first == n || Before(first, n)
    {
      BeforeIsTotal(first, names[i]);
      if Before(names[i], first) {
        forall n | n in names[..i] && n != first
          ensures Before(names[i], n)
        {
          BeforeIsTransitive(names[i], first, n);
        }
        first := names[i];
      }
      i := i + 1;
    }
  }
}
