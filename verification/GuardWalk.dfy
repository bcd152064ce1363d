/**
 The int-overflow rule of the fault-tolerance gate (tools/_fault_tolerance_calls.py).

 A syntax tree keeps, per node, its named fields in order. The guarded walk that
 threads the innermost try downwards is proved equal to a definition that looks
 at a call's path from the root.
 */
module GuardWalk {
  import opened Prelude

  /** What an except clause names. */
  datatype TypeExpr = TupleExpr(elts: seq<TypeExpr>) | NameExpr(id: string) | AttributeExpr(attr: string) | OtherExpr

  datatype Kind = IntCall | Scope | Try(handlers: seq<Option<TypeExpr>>) | Plain

  datatype Ast = Node(kind: Kind, line: int, fields: seq<Field>)
  datatype Field = Field(name: string, nodes: seq<Ast>)

  const BODY := "body"
  const CATCH_ALL: set<string> := {"Exception", "BaseException"}
  const OVERFLOW_CATCHERS: set<string> := {"OverflowError", "ArithmeticError"} + CATCH_ALL
  const NON_STR_PARSE: set<string> := {"ValueError", "TypeError"}

  function ExprNames(e: TypeExpr): set<string> {
    match e
    case TupleExpr(elts) => set elt <- elts, name <- ExprNames(elt) :: name
    case NameExpr(id) => {id}
    case AttributeExpr(attr) => {attr}
    case OtherExpr => {}
  }

  /** The names a clause catches; a bare except counts as BaseException. */
  function ClauseNames(clause: Option<TypeExpr>): set<string> {
    if clause.None? then {"BaseException"} else ExprNames(clause.value)
  }

  function CaughtNames(handlers: seq<Option<TypeExpr>>): set<string> {
    set h <- handlers, name <- ClauseNames(h) :: name
  }

  /** Taken together the handlers catch ValueError and TypeError, and nothing that covers OverflowError. */
  predicate MissesOverflow(handlers: seq<Option<TypeExpr>>) {
    NON_STR_PARSE <= CaughtNames(handlers) && CaughtNames(handlers) !! OVERFLOW_CATCHERS
  }

  /** The clause spells `name`, plain or dotted, directly or as an element of a tuple. */
  ghost predicate Mentions(e: TypeExpr, name: string) {
    e == NameExpr(name) || e == AttributeExpr(name) || (e.TupleExpr? && exists elt <- e.elts :: Mentions(elt, name))
  }

  lemma {:induction false} NamesAreMentioned(e: TypeExpr, name: string)
    ensures name in ExprNames(e) <==> Mentions(e, name)
  {
    if e.TupleExpr? {
      forall elt | elt in e.elts ensures name in ExprNames(elt) <==> Mentions(elt, name) {
        NamesAreMentioned(elt, name);
      }
    }
  }

  /** Some clause mentions `name`. */
  ghost predicate Catches(handlers: seq<Option<TypeExpr>>, name: string) {
    exists h <- handlers :: h.Some? && Mentions(h.value, name)
  }

  lemma CaughtIff(handlers: seq<Option<TypeExpr>>, name: string)
    ensures name in CaughtNames(handlers) <==>
      Catches(handlers, name) || (None in handlers && name == "BaseException")
  {
    forall h | h in handlers && h.Some? ensures name in ClauseNames(h) <==> Mentions(h.value, name) {
      NamesAreMentioned(h.value, name);
    }
    if None in handlers && name == "BaseException" { assert name in ClauseNames(None); }
  }

  /** The rule, by spelling: both parse errors are named, no clause is bare, and none covers OverflowError. */
  ghost predicate Flagged(handlers: seq<Option<TypeExpr>>) {
    && Catches(handlers, "ValueError") && Catches(handlers, "TypeError") && None !in handlers
    && !Catches(handlers, "OverflowError") && !Catches(handlers, "ArithmeticError")
    && !Catches(handlers, "Exception") && !Catches(handlers, "BaseException")
  }

  lemma MissesOverflowIff(handlers: seq<Option<TypeExpr>>)
    ensures MissesOverflow(handlers) <==> Flagged(handlers)
  {
    CaughtIff(handlers, "ValueError");
    CaughtIff(handlers, "TypeError");
    CaughtIff(handlers, "OverflowError");
    CaughtIff(handlers, "ArithmeticError");
    CaughtIff(handlers, "Exception");
    CaughtIff(handlers, "BaseException");
    assert MissesOverflow(handlers) <==>
      "ValueError" in CaughtNames(handlers) && "TypeError" in CaughtNames(handlers)
      && forall x <- OVERFLOW_CATCHERS :: x !in CaughtNames(handlers);
  }

  lemma BareExceptNeverFlags(handlers: seq<Option<TypeExpr>>)
    requires None in handlers
    ensures !MissesOverflow(handlers)
  {
    MissesOverflowIff(handlers);
  }

  // ---------------------------------------------- the reference: paths

  /** One edge of a path: the node it leaves, the field it goes through, and both positions. */
  datatype Edge = Edge(node: Ast, field: string, fieldAt: nat, at: nat)

  datatype Placed = Placed(node: Ast, path: seq<Edge>)

  predicate IntoTryBody(e: Edge) { e.node.kind.Try? && e.field == BODY }

  /** The position of the innermost try body around `p`, with no scope between it and `p`. */
  ghost predicate GuardedAt(p: Placed, k: int) {
    && 0 <= k < |p.path| && IntoTryBody(p.path[k]) && !p.node.kind.Scope?
    && forall j :: k < j < |p.path| ==> !p.path[j].node.kind.Scope? && !IntoTryBody(p.path[j])
  }

  ghost predicate Violation(p: Placed) {
    p.node.kind.IntCall? && exists k :: GuardedAt(p, k) && MissesOverflow(p.path[k].node.kind.handlers)
  }

  /** Edge `k` leaves a `try` with flagged handlers through its body, and nothing inside guards or starts afresh. */
  ghost predicate FlaggedAt(p: Placed, k: int) {
    && 0 <= k < |p.path| && p.path[k].node.kind.Try? && p.path[k].field == "body"
    && Flagged(p.path[k].node.kind.handlers)
    && forall j :: k < j < |p.path| ==>
        !p.path[j].node.kind.Scope? && !(p.path[j].node.kind.Try? && p.path[j].field == "body")
  }

  /** A violation is an `int` call whose innermost `try` body, with no function in between, has flagged handlers. */
  lemma ViolationIff(p: Placed)
    ensures Violation(p) <==> p.node.kind.IntCall? && exists k :: FlaggedAt(p, k)
  {
    forall k | 0 <= k < |p.path| && p.path[k].node.kind.Try? {
      MissesOverflowIff(p.path[k].node.kind.handlers);
    }
    if Violation(p) {
      var k :| GuardedAt(p, k) && MissesOverflow(p.path[k].node.kind.handlers);
      assert FlaggedAt(p, k);
    }
    if k :| p.node.kind.IntCall? && FlaggedAt(p, k) { assert GuardedAt(p, k); }
  }

  /** Every node below `node`, itself included, in the order the fields are walked. */
  function PreOrder(node: Ast, path: seq<Edge>): seq<Placed>
    decreases node, 2
  {
    [Placed(node, path)] + PreOrderFields(node, 0, path)
  }

  /** The nodes below the fields of `node` from position `f` on. */
  function PreOrderFields(node: Ast, f: nat, path: seq<Edge>): seq<Placed>
    requires f <= |node.fields|
    decreases node, 1, |node.fields| - f
  {
    if f == |node.fields| then [] else PreOrderNodes(node, f, 0, path) + PreOrderFields(node, f + 1, path)
  }

  /** The nodes below field `f` of `node`, from its child at `i` on. */
  function PreOrderNodes(node: Ast, f: nat, i: nat, path: seq<Edge>): seq<Placed>
    requires f < |node.fields| && i <= |node.fields[f].nodes|
    decreases node, 0, |node.fields[f].nodes| - i
  {
    var field := node.fields[f];
    if i == |field.nodes| then []
    else PreOrder(field.nodes[i], path + [Edge(node, field.name, f, i)]) + PreOrderNodes(node, f, i + 1, path)
  }

  /** Following `path` from `root` leads to `node`. */
  ghost predicate Leads(root: Ast, path: seq<Edge>, node: Ast)
    decreases |path|
  {
    if path == [] then node == root
    else
      var e := path[0];
      && e.node == root && e.fieldAt < |root.fields| && e.field == root.fields[e.fieldAt].name
      && e.at < |root.fields[e.fieldAt].nodes| && Leads(root.fields[e.fieldAt].nodes[e.at], path[1..], node)
  }

  /** `p` lies below `root`, which stands at `path`. */
  ghost predicate Reached(root: Ast, path: seq<Edge>, p: Placed) {
    path <= p.path && Leads(root, p.path[|path|..], p.node)
  }

  lemma ReachedStep(node: Ast, path: seq<Edge>, p: Placed, f: nat, i: nat)
    requires f < |node.fields| && i < |node.fields[f].nodes|
    ensures Reached(node.fields[f].nodes[i], path + [Edge(node, node.fields[f].name, f, i)], p)
      <==> Reached(node, path, p) && path < p.path && p.path[|path|].fieldAt == f && p.path[|path|].at == i
  {
    var e := Edge(node, node.fields[f].name, f, i);
    if path < p.path {
      assert p.path[|path|..][0] == p.path[|path|] && p.path[|path|..][1..] == p.path[|path| + 1..];
      assert path + [e] <= p.path <==> p.path[|path|] == e;
    }
  }

  /** The walk visits every node of the tree, with the path that leads to it, and nothing else. */
  lemma {:induction false} VisitedIffReached(node: Ast, path: seq<Edge>, p: Placed)
    ensures p in PreOrder(node, path) <==> Reached(node, path, p)
    decreases node, 2
  {
    FieldsReached(node, 0, path, p);
    assert path <= p.path && |path| == |p.path| ==> p.path == path;
    assert p in PreOrder(node, path) <==> p == Placed(node, path) || p in PreOrderFields(node, 0, path);
  }

  lemma {:induction false} FieldsReached(node: Ast, f: nat, path: seq<Edge>, p: Placed)
    requires f <= |node.fields|
    ensures p in PreOrderFields(node, f, path)
      <==> Reached(node, path, p) && path < p.path && p.path[|path|].fieldAt >= f
    decreases node, 1, |node.fields| - f
  {
    if f < |node.fields| {
      NodesReached(node, f, 0, path, p);
      FieldsReached(node, f + 1, path, p);
    } else if path < p.path {
      assert p.path[|path|..][0] == p.path[|path|];
    }
  }

  lemma {:induction false} NodesReached(node: Ast, f: nat, i: nat, path: seq<Edge>, p: Placed)
    requires f < |node.fields| && i <= |node.fields[f].nodes|
    ensures p in PreOrderNodes(node, f, i, path)
      <==> Reached(node, path, p) && path < p.path && p.path[|path|].fieldAt == f && p.path[|path|].at >= i
    decreases node, 0, |node.fields[f].nodes| - i
  {
    var nodes := node.fields[f].nodes;
    if i < |nodes| {
      VisitedIffReached(nodes[i], path + [Edge(node, node.fields[f].name, f, i)], p);
      ReachedStep(node, path, p, f, i);
      NodesReached(node, f, i + 1, path, p);
    } else if path < p.path {
      assert p.path[|path|..][0] == p.path[|path|];
    }
  }

  /** Document order: an outer node before what it holds, and earlier positions before later ones. */
  ghost predicate Precedes(a: seq<Edge>, b: seq<Edge>) {
    a < b || exists k :: Diverge(a, b, k)
  }

  ghost predicate Diverge(a: seq<Edge>, b: seq<Edge>, k: nat) {
    && k < |a| && k < |b| && a[..k] == b[..k]
    && (a[k].fieldAt < b[k].fieldAt || (a[k].fieldAt == b[k].fieldAt && a[k].at < b[k].at))
  }

  ghost predicate Ordered(ps: seq<Placed>) {
    forall i, j :: 0 <= i < j < |ps| ==> Precedes(ps[i].path, ps[j].path)
  }

  lemma OrderedConcat(ps: seq<Placed>, qs: seq<Placed>)
    requires Ordered(ps) && Ordered(qs)
    requires forall p, q :: p in ps && q in qs ==> Precedes(p.path, q.path)
    ensures Ordered(ps + qs)
  {
    var all := ps + qs;
    forall i, j | 0 <= i < j < |all| ensures Precedes(all[i].path, all[j].path) {
      if i < |ps| <= j { assert all[i] in ps && all[j] in qs; }
    }
  }

  /** The walk goes in document order, so it visits each place once. */
  lemma {:induction false} VisitedInOrder(node: Ast, path: seq<Edge>)
    ensures Ordered(PreOrder(node, path))
    decreases node, 2
  {
    FieldsInOrder(node, 0, path);
    var here, below := [Placed(node, path)], PreOrderFields(node, 0, path);
    forall p, q | p in here && q in below ensures Precedes(p.path, q.path) {
      FieldsReached(node, 0, path, q);
    }
    OrderedConcat(here, below);
  }

  lemma {:induction false} FieldsInOrder(node: Ast, f: nat, path: seq<Edge>)
    requires f <= |node.fields|
    ensures Ordered(PreOrderFields(node, f, path))
    decreases node, 1, |node.fields| - f
  {
    if f < |node.fields| {
      NodesInOrder(node, f, 0, path);
      FieldsInOrder(node, f + 1, path);
      var first, rest := PreOrderNodes(node, f, 0, path), PreOrderFields(node, f + 1, path);
      forall p, q | p in first && q in rest ensures Precedes(p.path, q.path) {
        NodesReached(node, f, 0, path, p);
        FieldsReached(node, f + 1, path, q);
        assert Diverge(p.path, q.path, |path|);
      }
      OrderedConcat(first, rest);
    }
  }

  lemma {:induction false} NodesInOrder(node: Ast, f: nat, i: nat, path: seq<Edge>)
    requires f < |node.fields| && i <= |node.fields[f].nodes|
    ensures Ordered(PreOrderNodes(node, f, i, path))
    decreases node, 0, |node.fields[f].nodes| - i
  {
    var field := node.fields[f];
    if i < |field.nodes| {
      var longer := path + [Edge(node, field.name, f, i)];
      VisitedInOrder(field.nodes[i], longer);
      NodesInOrder(node, f, i + 1, path);
      var first, rest := PreOrder(field.nodes[i], longer), PreOrderNodes(node, f, i + 1, path);
      forall p, q | p in first && q in rest ensures Precedes(p.path, q.path) {
        VisitedIffReached(field.nodes[i], longer, p);
        ReachedStep(node, path, p, f, i);
        NodesReached(node, f, i + 1, path, q);
        assert Diverge(p.path, q.path, |path|);
      }
      OrderedConcat(first, rest);
    }
  }

  /** The lines of the violations, in walk order. */
  ghost function Lines(ps: seq<Placed>): seq<int> {
    if ps == [] then [] else Reported(ps[0]) + Lines(ps[1..])
  }

  ghost function Reported(p: Placed): seq<int> { if Violation(p) then [p.node.line] else [] }

  lemma {:induction false} LinesConcat(ps: seq<Placed>, qs: seq<Placed>)
    ensures Lines(ps + qs) == Lines(ps) + Lines(qs)
  {
    if ps == [] {
      assert ps + qs == qs;
    } else {
      assert (ps + qs)[0] == ps[0] && (ps + qs)[1..] == ps[1..] + qs;
      LinesConcat(ps[1..], qs);
    }
  }

  // ------------------------------------------------------- the guarded walk

  /** The guard the walk threads down is the try the path definition finds. */
  ghost predicate GuardIs(p: Placed, guard: Option<Ast>) {
    match guard
    case None => forall k :: !GuardedAt(p, k)
    case Some(t) => exists k :: GuardedAt(p, k) && p.path[k].node == t
  }

  lemma GuardIsUnique(p: Placed, k: nat, l: nat)
    requires GuardedAt(p, k) && GuardedAt(p, l)
    ensures k == l
  {
  }

  /** The guard of a child, as the walk computes it. */
  function ChildGuard(child: Ast, parent: Ast, field: string, guard: Option<Ast>): Option<Ast> {
    if child.kind.Scope? then None
    else if parent.kind.Try? && field == BODY then Some(parent)
    else guard
  }

  lemma ChildGuardIs(parent: Placed, e: Edge, child: Ast, guard: Option<Ast>)
    requires GuardIs(parent, guard) && e.node == parent.node
    requires parent.node.kind.Scope? ==> guard == None
    ensures GuardIs(Placed(child, parent.path + [e]), ChildGuard(child, parent.node, e.field, guard))
  {
    var p := Placed(child, parent.path + [e]);
    var n := |parent.path|;
    assert p.path[n] == e;
    assert forall j :: 0 <= j < n ==> p.path[j] == parent.path[j];
    if !child.kind.Scope? && IntoTryBody(p.path[n]) {
      assert GuardedAt(p, n);
    } else if !child.kind.Scope? {
      forall k ensures GuardedAt(p, k) <==> GuardedAt(parent, k) {
        if GuardedAt(p, k) { assert k < n && !p.path[n].node.kind.Scope?; }
      }
      if guard.Some? {
        var k :| GuardedAt(parent, k) && parent.path[k].node == guard.value;
        assert GuardedAt(p, k) && p.path[k] == parent.path[k];
      }
    }
  }

  lemma ReportsIffViolation(p: Placed, guard: Option<Ast>)
    requires GuardIs(p, guard)
    requires guard.Some? ==> guard.value.kind.Try?
    ensures p.node.kind.IntCall? && guard.Some? && MissesOverflow(guard.value.kind.handlers) <==> Violation(p)
  {
    if guard.Some? {
      var k :| GuardedAt(p, k) && p.path[k].node == guard.value;
      forall l | GuardedAt(p, l) { GuardIsUnique(p, k, l); }
    }
  }

  lemma LinesOfNode(node: Ast, path: seq<Edge>, before: seq<int>)
    ensures before + Lines(PreOrder(node, path))
      == before + Reported(Placed(node, path)) + Lines(PreOrderFields(node, 0, path))
  {
    LinesConcat([Placed(node, path)], PreOrderFields(node, 0, path));
    assert Lines([Placed(node, path)]) == Reported(Placed(node, path));
  }

  lemma LinesOfFields(node: Ast, f: nat, path: seq<Edge>, before: seq<int>)
    requires f < |node.fields|
    ensures before + Lines(PreOrderFields(node, f, path))
      == before + Lines(PreOrderNodes(node, f, 0, path)) + Lines(PreOrderFields(node, f + 1, path))
  {
    LinesConcat(PreOrderNodes(node, f, 0, path), PreOrderFields(node, f + 1, path));
  }

  /** The shared list of hits. */
  class Hits {
    var lines: seq<int>

    constructor ()
      ensures lines == []
    {
      lines := [];
    }

    /** Walk `node`; `guard` is the innermost try whose body encloses it. */
    method Visit(node: Ast, guard: Option<Ast>, ghost path: seq<Edge>)
      requires GuardIs(Placed(node, path), guard) && (guard.Some? ==> guard.value.kind.Try?)
      requires node.kind.Scope? ==> guard == None
      modifies this
      ensures lines == old(lines) + Lines(PreOrder(node, path))
      decreases node, 1
    {
      LinesOfNode(node, path, lines);
      ghost var whole := lines + Lines(PreOrder(node, path));
      Report(node, guard, path);
      for f := 0 to |node.fields|
        invariant lines + Lines(PreOrderFields(node, f, path)) == whole
      {
        LinesOfFields(node, f, path, lines);
        VisitField(node, f, guard, path);
      }
      assert lines + [] == lines;
    }

    /** The test at the top of the walk. */
    method Report(node: Ast, guard: Option<Ast>, ghost path: seq<Edge>)
      requires GuardIs(Placed(node, path), guard) && (guard.Some? ==> guard.value.kind.Try?)
      modifies this
      ensures lines == old(lines) + Reported(Placed(node, path))
    {
      ReportsIffViolation(Placed(node, path), guard);
      if node.kind.IntCall? && guard.Some? && MissesOverflow(guard.value.kind.handlers) {
        lines := lines + [node.line];
      }
    }

    /** The inner loop: every child of one field. */
    method VisitField(node: Ast, f: nat, guard: Option<Ast>, ghost path: seq<Edge>)
      requires f < |node.fields|
      requires GuardIs(Placed(node, path), guard) && (guard.Some? ==> guard.value.kind.Try?)
      requires node.kind.Scope? ==> guard == None
      modifies this
      ensures lines == old(lines) + Lines(PreOrderNodes(node, f, 0, path))
      decreases node, 0
    {
      var field := node.fields[f];
      ghost var whole := lines + Lines(PreOrderNodes(node, f, 0, path));
      for i := 0 to |field.nodes|
        invariant lines + Lines(PreOrderNodes(node, f, i, path)) == whole
      {
        ghost var longer := path + [Edge(node, field.name, f, i)];
        ChildGuardIs(Placed(node, path), Edge(node, field.name, f, i), field.nodes[i], guard);
        LinesConcat(PreOrder(field.nodes[i], longer), PreOrderNodes(node, f, i + 1, path));
        Visit(field.nodes[i], ChildGuard(field.nodes[i], node, field.name, guard), longer);
      }
    }
  }

  /** `lines` are the lines of exactly the flagged `int` calls of `tree`, each place once, in document order. */
  ghost predicate IsReport(tree: Ast, calls: seq<Placed>, lines: seq<int>) {
    && Ordered(calls) && |calls| == |lines| && (forall i :: 0 <= i < |lines| ==> lines[i] == calls[i].node.line)
    && forall p :: p in calls <==>
        Leads(tree, p.path, p.node) && p.node.kind.IntCall? && exists k :: FlaggedAt(p, k)
  }

  lemma OrderedCons(ps: seq<Placed>, calls: seq<Placed>)
    requires ps != [] && Ordered(ps) && Ordered(calls) && forall q <- calls :: q in ps[1..]
    ensures Ordered([ps[0]] + calls)
  {
    forall p, q | p in [ps[0]] && q in calls ensures Precedes(p.path, q.path) {
      var j :| 0 <= j < |ps[1..]| && ps[1..][j] == q;
      assert ps[j + 1] == q;
    }
    OrderedConcat([ps[0]], calls);
  }

  lemma {:induction false} LinesPickViolations(ps: seq<Placed>) returns (calls: seq<Placed>)
    requires Ordered(ps)
    ensures Ordered(calls) && (forall p :: p in calls <==> p in ps && Violation(p))
    ensures |calls| == |Lines(ps)| && forall i :: 0 <= i < |calls| ==> Lines(ps)[i] == calls[i].node.line
  {
    if ps == [] { return []; }
    assert ps == [ps[0]] + ps[1..];
    calls := LinesPickViolations(ps[1..]);
    if Violation(ps[0]) {
      OrderedCons(ps, calls);
      calls := [ps[0]] + calls;
    }
  }

  lemma WalkIsReport(tree: Ast)
    ensures exists calls :: IsReport(tree, calls, Lines(PreOrder(tree, [])))
  {
    VisitedInOrder(tree, []);
    var calls := LinesPickViolations(PreOrder(tree, []));
    forall p: Placed
      ensures p in calls <==>
        Leads(tree, p.path, p.node) && p.node.kind.IntCall? && exists k :: FlaggedAt(p, k)
    {
      VisitedIffReached(tree, [], p);
      ViolationIff(p);
      assert p.path[0..] == p.path;
    }
    assert IsReport(tree, calls, Lines(PreOrder(tree, [])));
  }

  /** The scan reports the flagged `int` calls of the tree and nothing else. */
  method ScanInts(tree: Ast) returns (lines: seq<int>)
    ensures exists calls :: IsReport(tree, calls, lines)
  {
    var hits := new Hits();
    hits.Visit(tree, None, []);
    lines := hits.lines;
    WalkIsReport(tree);
    assert [] + Lines(PreOrder(tree, [])) == Lines(PreOrder(tree, []));
  }
}
