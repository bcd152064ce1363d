/**
 Size-budgeted batching of source files (src/quodeq/analysis/_api_source_gathering.py).

 The greedy split is proved optimal: no order-preserving split that obeys the
 same rule (a batch is within budget, or is a single file) has fewer batches.
 */
module Batching {
  import opened Prelude

  /** A queued file; `stat` is None when the file cannot be stat'd. */
  datatype SourceFile = SourceFile(path: string, stat: Option<nat>)

  function SizeOf(f: SourceFile): nat {
    match f.stat
    case Some(bytes) => bytes
    case None => 0
  }

  function TotalSize(files: seq<SourceFile>): nat {
    if files == [] then 0 else SizeOf(files[0]) + TotalSize(files[1..])
  }

  lemma {:induction false} TotalSizeConcat(a: seq<SourceFile>, b: seq<SourceFile>)
    ensures TotalSize(a + b) == TotalSize(a) + TotalSize(b)
  {
    if a == [] {
      assert a + b == b;
    } else {
      assert (a + b)[1..] == a[1..] + b;
      TotalSizeConcat(a[1..], b);
    }
  }

  /** A file counts its size in bytes, and nothing when it cannot be stat'd. */
  lemma OneFileWeighs(f: SourceFile)
    ensures forall bytes :: f.stat == Some(bytes) ==> TotalSize([f]) == bytes
    ensures f.stat == None ==> TotalSize([f]) == 0
  {
  }

  /** One model call's files: never empty, and over budget only when the file is alone. */
  predicate ValidBatch(batch: seq<SourceFile>, budget: int) {
    batch != [] && (|batch| == 1 || TotalSize(batch) <= budget)
  }

  ghost predicate AllValid(batches: seq<seq<SourceFile>>, budget: int) {
    forall k :: 0 <= k < |batches| ==> ValidBatch(batches[k], budget)
  }

  /** An order-preserving split of `files` into valid batches. */
  ghost predicate IsSplit(batches: seq<seq<SourceFile>>, files: seq<SourceFile>, budget: int) {
    Flatten(batches) == files && AllValid(batches, budget)
  }

  /** `batch` could not also have taken the first file of `next`. */
  ghost predicate Full(batch: seq<SourceFile>, next: seq<SourceFile>, budget: int) {
    next != [] && TotalSize(batch) + SizeOf(next[0]) > budget
  }

  /** Every batch but the last is full. */
  ghost predicate Tight(batches: seq<seq<SourceFile>>, budget: int) {
    forall k :: 0 < k < |batches| ==> Full(batches[k - 1], batches[k], budget)
  }

  /**
   Greedy stays ahead: whenever the tight split still has to cover only a suffix
   of what any other valid split has to cover, it needs no more batches.
   */
  lemma {:induction false} TightStaysAhead(
    tight: seq<seq<SourceFile>>, other: seq<seq<SourceFile>>, ahead: seq<SourceFile>, budget: int)
    requires AllValid(tight, budget) && AllValid(other, budget) && Tight(tight, budget)
    requires Flatten(other) == ahead + Flatten(tight)
    ensures |tight| <= |other|
    decreases |tight|
  {
    if tight != [] {
      var t := tight[0];
      assert ValidBatch(t, budget) && Flatten(tight) == t + Flatten(tight[1..]);
      assert other == [] ==> Flatten(other) == [];
      assert |tight| == 1 ==> Flatten(tight[1..]) == [];
      var o := other[0];
      assert Flatten(other) == o + Flatten(other[1..]);
      if |o| <= |ahead| + |t| {
        var ahead' := (ahead + t)[|o|..];
        assert Flatten(other[1..]) == Flatten(other)[|o|..] == ahead' + Flatten(tight[1..]);
        TightStaysAhead(tight[1..], other[1..], ahead', budget);
      } else {
        // o would have to hold all of t and also the first file after it.
        assert Full(tight[0], tight[1], budget);
        var next := tight[1][0];
        assert Flatten(tight[1..]) == tight[1] + Flatten(tight[2..]);
        assert Flatten(other)[|ahead| + |t|] == next;
        assert o[..|ahead| + |t| + 1] == Flatten(other)[..|ahead| + |t| + 1] == ahead + t + [next];
        assert o == ahead + t + [next] + o[|ahead| + |t| + 1..];
        TotalSizeConcat(ahead + t + [next], o[|ahead| + |t| + 1..]);
        TotalSizeConcat(ahead + t, [next]);
        TotalSizeConcat(ahead, t);
        assert false;
      }
    }
  }

  /** What the loop keeps: `batches` are closed, `current` is open, together they are `seen`. */
  ghost predicate Greedy(
    batches: seq<seq<SourceFile>>, current: seq<SourceFile>, seen: seq<SourceFile>, budget: int)
  {
    && Flatten(batches) + current == seen
    && AllValid(batches, budget) && Tight(batches, budget)
    && (current == [] ==> seen == [] && batches == [])
    && (current != [] ==> ValidBatch(current, budget))
    && (batches != [] ==> Full(batches[|batches| - 1], current, budget))
  }

  /** The file opens a batch of its own after `current` is closed. */
  lemma CloseAndOpen(
    batches: seq<seq<SourceFile>>, current: seq<SourceFile>, seen: seq<SourceFile>, f: SourceFile, budget: int)
    requires Greedy(batches, current, seen, budget) && current != []
    requires TotalSize(current) + SizeOf(f) > budget
    ensures Greedy(batches + [current], [f], seen + [f], budget)
  {
    FlattenSnoc(batches, current);
  }

  /** The file joins `current`. */
  lemma Join(
    batches: seq<seq<SourceFile>>, current: seq<SourceFile>, seen: seq<SourceFile>, f: SourceFile, budget: int)
    requires Greedy(batches, current, seen, budget)
    requires current != [] ==> TotalSize(current) + SizeOf(f) <= budget
    ensures Greedy(batches, current + [f], seen + [f], budget)
  {
    TotalSizeConcat(current, [f]);
    assert Flatten(batches) + (current + [f]) == seen + [f];
  }

  function Closed(batches: seq<seq<SourceFile>>, current: seq<SourceFile>): seq<seq<SourceFile>> {
    if current == [] then batches else batches + [current]
  }

  /** A split that no other valid order-preserving split beats. */
  ghost predicate IsOptimal(batches: seq<seq<SourceFile>>, files: seq<SourceFile>, budget: int) {
    IsSplit(batches, files, budget)
    && forall other :: IsSplit(other, files, budget) ==> |batches| <= |other|
  }

  /** Closing the last batch gives a split no other split beats. */
  lemma GreedyIsOptimal(
    batches: seq<seq<SourceFile>>, current: seq<SourceFile>, files: seq<SourceFile>, budget: int)
    requires Greedy(batches, current, files, budget)
    ensures IsOptimal(Closed(batches, current), files, budget)
  {
    var all := Closed(batches, current);
    FlattenSnoc(batches, current);
    assert IsSplit(all, files, budget) && Tight(all, budget);
    forall other | IsSplit(other, files, budget) ensures |all| <= |other| {
      TightStaysAhead(all, other, [], budget);
    }
  }

  /** The greedy loop, optimal over every competing split. */
  method BatchFilesBySize(files: seq<SourceFile>, budget: int) returns (batches: seq<seq<SourceFile>>)
    ensures IsOptimal(batches, files, budget)
  {
    batches := [];
    var current: seq<SourceFile> := [];
    var currentSize := 0;
    for i := 0 to |files|
      invariant Greedy(batches, current, files[..i], budget)
      invariant currentSize == TotalSize(current)
    {
      var f := files[i];
      var size := SizeOf(f);
      assert files[..i + 1] == files[..i] + [f];
      if current != [] && currentSize + size > budget {
        CloseAndOpen(batches, current, files[..i], f, budget);
        batches := batches + [current];
        current, currentSize := [], 0;
      } else {
        Join(batches, current, files[..i], f, budget);
      }
      TotalSizeConcat(current, [f]);
      current := current + [f];
      currentSize := currentSize + size;
    }
    assert files[..|files|] == files;
    GreedyIsOptimal(batches, current, files, budget);
    if current != [] {
      batches := batches + [current];
    }
  }
}
