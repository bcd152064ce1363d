/**
 Descending stable sort by an integer key, the behaviour of Python's `sorted`
 with a negated key. The order is characterised independently of any algorithm:
 descending keys, and every key's group in its input order.
 */
module StableSort {

  function Key<T>(keys: map<T, int>, x: T): int {
    if x in keys then keys[x] else 0
  }

  function Pick<T>(keys: map<T, int>, k: int, x: T): seq<T> {
    if Key(keys, x) == k then [x] else []
  }

  /** The elements of `xs` with key `k`, in the order of `xs`. */
  function Group<T>(keys: map<T, int>, k: int, xs: seq<T>): seq<T> {
    if xs == [] then []
    else Pick(keys, k, xs[0]) + Group(keys, k, xs[1..])
  }

  ghost predicate Descending<T>(keys: map<T, int>, xs: seq<T>) {
    forall i, j :: 0 <= i < j < |xs| ==> Key(keys, xs[i]) >= Key(keys, xs[j])
  }

  ghost predicate IsStableSort<T(!new)>(keys: map<T, int>, xs: seq<T>, ys: seq<T>) {
    Descending(keys, ys) && forall k :: Group(keys, k, ys) == Group(keys, k, xs)
  }

  function Insert<T>(keys: map<T, int>, x: T, xs: seq<T>): seq<T> {
    if xs == [] || Key(keys, x) >= Key(keys, xs[0]) then [x] + xs
    else [xs[0]] + Insert(keys, x, xs[1..])
  }

  function SortDescending<T>(keys: map<T, int>, xs: seq<T>): seq<T> {
    if xs == [] then [] else Insert(keys, xs[0], SortDescending(keys, xs[1..]))
  }

  lemma {:induction false} InsertAdds<T>(keys: map<T, int>, x: T, xs: seq<T>)
    ensures multiset(Insert(keys, x, xs)) == multiset{x} + multiset(xs)
  {
    if xs != [] {
      assert xs == [xs[0]] + xs[1..];
      InsertAdds(keys, x, xs[1..]);
    }
  }

  lemma {:induction false} InsertSorts<T>(keys: map<T, int>, x: T, xs: seq<T>)
    requires Descending(keys, xs)
    ensures Descending(keys, Insert(keys, x, xs))
  {
    if xs != [] && Key(keys, x) < Key(keys, xs[0]) {
      var rest := Insert(keys, x, xs[1..]);
      InsertSorts(keys, x, xs[1..]);
      assert rest[0] == x || rest[0] == xs[1];
      assert Descending(keys, [xs[0]] + rest);
    }
  }

  lemma GroupCons<T>(keys: map<T, int>, k: int, x: T, xs: seq<T>)
    ensures Group(keys, k, [x] + xs) == Pick(keys, k, x) + Group(keys, k, xs)
  {
    assert ([x] + xs)[1..] == xs;
  }

  lemma {:induction false} InsertKeepsGroups<T>(keys: map<T, int>, k: int, x: T, xs: seq<T>)
    ensures Group(keys, k, Insert(keys, x, xs)) == Pick(keys, k, x) + Group(keys, k, xs)
  {
    if xs == [] || Key(keys, x) >= Key(keys, xs[0]) {
      GroupCons(keys, k, x, xs);
    } else {
      InsertKeepsGroups(keys, k, x, xs[1..]);
      GroupCons(keys, k, xs[0], Insert(keys, x, xs[1..]));
      assert Pick(keys, k, x) == [] || Pick(keys, k, xs[0]) == [];
    }
  }

  lemma {:induction false} SortAdds<T>(keys: map<T, int>, xs: seq<T>)
    ensures multiset(SortDescending(keys, xs)) == multiset(xs)
  {
    if xs != [] {
      SortAdds(keys, xs[1..]);
      InsertAdds(keys, xs[0], SortDescending(keys, xs[1..]));
      assert xs == [xs[0]] + xs[1..];
    }
  }

  lemma {:induction false} SortKeepsGroups<T>(keys: map<T, int>, k: int, xs: seq<T>)
    ensures Group(keys, k, SortDescending(keys, xs)) == Group(keys, k, xs)
  {
    if xs != [] {
      SortKeepsGroups(keys, k, xs[1..]);
      InsertKeepsGroups(keys, k, xs[0], SortDescending(keys, xs[1..]));
    }
  }

  lemma {:induction false} SortSorts<T>(keys: map<T, int>, xs: seq<T>)
    ensures Descending(keys, SortDescending(keys, xs))
  {
    if xs != [] {
      SortSorts(keys, xs[1..]);
      InsertSorts(keys, xs[0], SortDescending(keys, xs[1..]));
    }
  }

  lemma SortIsStable<T(!new)>(keys: map<T, int>, xs: seq<T>)
    ensures IsStableSort(keys, xs, SortDescending(keys, xs))
    ensures multiset(SortDescending(keys, xs)) == multiset(xs)
  {
    SortSorts(keys, xs);
    SortAdds(keys, xs);
    forall k ensures Group(keys, k, SortDescending(keys, xs)) == Group(keys, k, xs) {
      SortKeepsGroups(keys, k, xs);
    }
  }

  lemma {:induction false} GroupMember<T>(keys: map<T, int>, k: int, xs: seq<T>, i: nat)
    requires i < |xs| && Key(keys, xs[i]) == k
    ensures Group(keys, k, xs) != []
  {
    if i > 0 { GroupMember(keys, k, xs[1..], i - 1); }
  }

  lemma {:induction false} GroupHead<T>(keys: map<T, int>, k: int, xs: seq<T>)
    requires Group(keys, k, xs) != []
    ensures exists i :: 0 <= i < |xs| && Key(keys, xs[i]) == k
  {
    if Key(keys, xs[0]) != k {
      GroupHead(keys, k, xs[1..]);
      var i :| 0 <= i < |xs[1..]| && Key(keys, xs[1..][i]) == k;
      assert xs[i + 1] == xs[1..][i];
    }
  }

  lemma {:induction false} InGroup<T>(keys: map<T, int>, k: int, xs: seq<T>, i: nat) returns (g: nat)
    requires i < |xs| && Key(keys, xs[i]) == k
    ensures g < |Group(keys, k, xs)| && Group(keys, k, xs)[g] == xs[i]
  {
    if i == 0 {
      g := 0;
    } else {
      g := InGroup(keys, k, xs[1..], i - 1);
      g := g + |Pick(keys, k, xs[0])|;
    }
  }

  lemma {:induction false} FromGroup<T>(keys: map<T, int>, k: int, xs: seq<T>, g: nat) returns (i: nat)
    requires g < |Group(keys, k, xs)|
    ensures i < |xs| && xs[i] == Group(keys, k, xs)[g]
  {
    var n := |Pick(keys, k, xs[0])|;
    if g < n {
      i := 0;
    } else {
      i := FromGroup(keys, k, xs[1..], g - n);
      i := i + 1;
    }
  }

  lemma {:induction false} PairInGroup<T>(keys: map<T, int>, k: int, xs: seq<T>, i: nat, j: nat)
    returns (g: nat, h: nat)
    requires i < j < |xs| && Key(keys, xs[i]) == Key(keys, xs[j]) == k
    ensures g < h < |Group(keys, k, xs)| && Group(keys, k, xs)[g] == xs[i] && Group(keys, k, xs)[h] == xs[j]
  {
    if i == 0 {
      h := InGroup(keys, k, xs[1..], j - 1);
      g, h := 0, h + 1;
    } else {
      g, h := PairInGroup(keys, k, xs[1..], i - 1, j - 1);
      var n := |Pick(keys, k, xs[0])|;
      g, h := g + n, h + n;
    }
  }

  lemma {:induction false} PairFromGroup<T>(keys: map<T, int>, k: int, xs: seq<T>, g: nat, h: nat)
    returns (i: nat, j: nat)
    requires g < h < |Group(keys, k, xs)|
    ensures i < j < |xs| && xs[i] == Group(keys, k, xs)[g] && xs[j] == Group(keys, k, xs)[h]
  {
    var n := |Pick(keys, k, xs[0])|;
    if g < n {
      j := FromGroup(keys, k, xs[1..], h - n);
      i, j := 0, j + 1;
    } else {
      i, j := PairFromGroup(keys, k, xs[1..], g - n, h - n);
      i, j := i + 1, j + 1;
    }
  }

  /** In a stable sort the larger key comes first, and elements of equal key come in their input order. */
  lemma StableSortMeans<T(!new)>(keys: map<T, int>, xs: seq<T>, ys: seq<T>, i: nat, j: nat)
    requires IsStableSort(keys, xs, ys) && i < j < |ys| && ys[i] in keys && ys[j] in keys
    ensures keys[ys[i]] >= keys[ys[j]]
    ensures keys[ys[i]] == keys[ys[j]] ==> exists a, b :: 0 <= a < b < |xs| && xs[a] == ys[i] && xs[b] == ys[j]
  {
    if keys[ys[i]] == keys[ys[j]] {
      var k := keys[ys[i]];
      var g, h := PairInGroup(keys, k, ys, i, j);
      assert Group(keys, k, xs) == Group(keys, k, ys);
      var a, b := PairFromGroup(keys, k, xs, g, h);
    }
  }

  /** A list has exactly one stable sort. */
  lemma {:induction false} StableSortUnique<T(!new)>(keys: map<T, int>, ys: seq<T>, zs: seq<T>)
    requires Descending(keys, ys) && Descending(keys, zs)
    requires forall k :: Group(keys, k, ys) == Group(keys, k, zs)
    ensures ys == zs
  {
    if ys == [] {
      if zs != [] { GroupMember(keys, Key(keys, zs[0]), zs, 0); }
    } else {
      var k := Key(keys, ys[0]);
      GroupMember(keys, k, ys, 0);
      GroupHead(keys, k, zs);
      GroupMember(keys, Key(keys, zs[0]), zs, 0);
      GroupHead(keys, Key(keys, zs[0]), ys);
      assert Key(keys, zs[0]) == k;
      assert ys[0] == Group(keys, k, ys)[0] == Group(keys, k, zs)[0] == zs[0];
      forall j ensures Group(keys, j, ys[1..]) == Group(keys, j, zs[1..]) {
        assert Group(keys, j, ys) == Group(keys, j, zs);
        var n := |Pick(keys, j, ys[0])|;
        assert Group(keys, j, ys[1..]) == Group(keys, j, ys)[n..];
        assert Group(keys, j, zs[1..]) == Group(keys, j, zs)[n..];
      }
      StableSortUnique(keys, ys[1..], zs[1..]);
      assert ys == [ys[0]] + ys[1..] && zs == [zs[0]] + zs[1..];
    }
  }
}
