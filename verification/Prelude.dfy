/** Small shared vocabulary: optional values, flattening, and picking elements in order. */
module Prelude {

  datatype Option<+T> = None | Some(value: T)

  ghost predicate Distinct<T>(xs: seq<T>) {
    forall i, j :: 0 <= i < j < |xs| ==> xs[i] != xs[j]
  }

  function Flatten<T>(xss: seq<seq<T>>): seq<T> {
    if xss == [] then [] else xss[0] + Flatten(xss[1..])
  }

  lemma {:induction false} FlattenConcat<T>(xss: seq<seq<T>>, yss: seq<seq<T>>)
    ensures Flatten(xss + yss) == Flatten(xss) + Flatten(yss)
  {
    if xss == [] {
      assert xss + yss == yss;
    } else {
      assert (xss + yss)[1..] == xss[1..] + yss;
      FlattenConcat(xss[1..], yss);
    }
  }

  lemma FlattenSnoc<T>(xss: seq<seq<T>>, ys: seq<T>)
    ensures Flatten(xss + [ys]) == Flatten(xss) + ys
  {
    FlattenConcat(xss, [ys]);
    assert Flatten([ys]) == ys + Flatten([]) == ys;
  }

  /** `picked` are the elements of `all` at the increasing positions `at`. */
  ghost predicate Picks<T>(all: seq<T>, at: seq<nat>, picked: seq<T>) {
    && |at| == |picked| && (forall i :: 0 <= i < |at| ==> at[i] < |all| && all[at[i]] == picked[i])
    && forall i, j :: 0 <= i < j < |at| ==> at[i] < at[j]
  }

  lemma PicksSnoc<T>(all: seq<T>, at: seq<nat>, picked: seq<T>, x: T)
    requires Picks(all, at, picked)
    ensures Picks(all + [x], at, picked) && Picks(all + [x], at + [|all|], picked + [x])
  {
  }
}
