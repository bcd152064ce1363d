/** Sorting strings by code point, the behaviour of Python's `sorted` on names. */
module NameOrder {

  predicate Le(a: string, b: string) {
    a == "" || (b != "" && (a[0] < b[0] || (a[0] == b[0] && Le(a[1..], b[1..]))))
  }

  /** The names agree on their first `k` characters, and then `a` has the smaller one. */
  ghost predicate SmallerAt(a: string, b: string, k: nat) {
    k < |a| && k < |b| && a[..k] == b[..k] && a[k] < b[k]
  }

  /** The order is the lexicographic one: a prefix first, otherwise the first difference decides. */
  lemma {:induction false} LeIsLexicographic(a: string, b: string)
    ensures Le(a, b) <==> a <= b || exists k: nat :: SmallerAt(a, b, k)
  {
    forall k: nat | SmallerAt(a, b, k) && k > 0 ensures a[0] == b[0] {
      assert a[..k][0] == a[0] && b[..k][0] == b[0];
    }
    if a != "" && b != "" && a[0] == b[0] {
      LeIsLexicographic(a[1..], b[1..]);
      assert a == [a[0]] + a[1..] && b == [b[0]] + b[1..];
      if k: nat :| SmallerAt(a[1..], b[1..], k) {
        assert a[..k + 1] == [a[0]] + a[1..][..k] && b[..k + 1] == [b[0]] + b[1..][..k];
        assert SmallerAt(a, b, k + 1);
      }
      if k: nat :| SmallerAt(a, b, k) {
        assert a[1..][..k - 1] == a[..k][1..] && b[1..][..k - 1] == b[..k][1..];
        assert SmallerAt(a[1..], b[1..], k - 1);
      }
    } else if a != "" && b != "" {
      if a[0] < b[0] { assert SmallerAt(a, b, 0); }
    }
  }

  lemma {:induction false} LeTotal(a: string, b: string)
    ensures Le(a, b) || Le(b, a)
  {
    if a != "" && b != "" && a[0] == b[0] { LeTotal(a[1..], b[1..]); }
  }

  lemma {:induction false} LeTransitive(a: string, b: string, c: string)
    requires Le(a, b) && Le(b, c)
    ensures Le(a, c)
  {
    if a != "" && a[0] == b[0] && b[0] == c[0] { LeTransitive(a[1..], b[1..], c[1..]); }
  }

  function InsertName(x: string, xs: seq<string>): seq<string> {
    if xs == [] || Le(x, xs[0]) then [x] + xs else [xs[0]] + InsertName(x, xs[1..])
  }

  function SortNames(xs: seq<string>): seq<string> {
    if xs == [] then [] else InsertName(xs[0], SortNames(xs[1..]))
  }

  ghost predicate Ascending(xs: seq<string>) {
    forall i, j :: 0 <= i < j < |xs| ==> Le(xs[i], xs[j])
  }

  lemma {:induction false} InsertNameAdds(x: string, xs: seq<string>)
    ensures multiset(InsertName(x, xs)) == multiset{x} + multiset(xs)
    ensures forall y :: y in InsertName(x, xs) <==> y == x || y in xs
  {
    if xs != [] {
      assert xs == [xs[0]] + xs[1..];
      InsertNameAdds(x, xs[1..]);
    }
  }

  lemma AscendingCons(x: string, xs: seq<string>)
    requires Ascending(xs) && (xs != [] ==> Le(x, xs[0]))
    ensures Ascending([x] + xs)
  {
    forall j | 0 <= j < |xs| ensures Le(x, xs[j]) {
      if j > 0 { LeTransitive(x, xs[0], xs[j]); }
    }
  }

  lemma {:induction false} InsertNameKeeps(x: string, xs: seq<string>)
    requires Ascending(xs)
    ensures Ascending(InsertName(x, xs))
  {
    if xs == [] || Le(x, xs[0]) {
      AscendingCons(x, xs);
    } else {
      var rest := InsertName(x, xs[1..]);
      InsertNameKeeps(x, xs[1..]);
      LeTotal(x, xs[0]);
      assert rest[0] == x || rest[0] == xs[1];
      AscendingCons(xs[0], rest);
    }
  }

  lemma {:induction false} SortNamesSorts(xs: seq<string>)
    ensures Ascending(SortNames(xs))
    ensures multiset(SortNames(xs)) == multiset(xs)
    ensures |SortNames(xs)| == |xs|
    ensures forall x :: x in SortNames(xs) <==> x in xs
  {
    if xs != [] {
      SortNamesSorts(xs[1..]);
      InsertNameKeeps(xs[0], SortNames(xs[1..]));
      InsertNameAdds(xs[0], SortNames(xs[1..]));
      assert xs == [xs[0]] + xs[1..];
    }
    assert |multiset(SortNames(xs))| == |SortNames(xs)|;
    forall x ensures x in SortNames(xs) <==> x in xs {
      assert x in SortNames(xs) <==> x in multiset(SortNames(xs));
      assert x in xs <==> x in multiset(xs);
    }
  }
}
