/**
 The loop-IO gate (tools/check_loop_io.py): which names a loop body derives from
 the loop target, and which IO calls are therefore exempt.

 The flow-insensitive closure is proved to be the least closed set, so it does not
 depend on the order of the bindings. A call's callee, its resource names and its
 first argument's names are what `_callee`, `_subject` and `_names` extract.
 */
module LoopIoGate {
  import opened Prelude

  /** One binding: the names of its target and the names its value mentions. */
  datatype Binding = Binding(target: set<string>, value: set<string>)

  // ------------------------------------------------------- the taint closure

  predicate ClosedUnder(names: set<string>, b: Binding) {
    b.value * names != {} ==> b.target <= names
  }

  ghost predicate Closed(names: set<string>, pairs: seq<Binding>) {
    forall b <- pairs :: ClosedUnder(names, b)
  }

  /** The least set that holds the targets and follows every binding. */
  ghost predicate LeastClosed(names: set<string>, targets: set<string>, pairs: seq<Binding>) {
    targets <= names && Closed(names, pairs)
    && forall other: set<string> :: targets <= other && Closed(other, pairs) ==> names <= other
  }

  function AllTargets(pairs: seq<Binding>): set<string> {
    set b <- pairs, name <- b.target :: name
  }

  /** The loop targets plus every name the bindings derive from them, to a fixpoint. */
  method PerItemNames(targets: set<string>, pairs: seq<Binding>) returns (names: set<string>)
    ensures LeastClosed(names, targets, pairs)
  {
    names := targets;
    var grew := true;
    ghost var universe := targets + AllTargets(pairs);
    while grew
      invariant targets <= names <= universe
      invariant forall other: set<string> :: targets <= other && Closed(other, pairs) ==> names <= other
      invariant !grew ==> Closed(names, pairs)
      decreases universe - names, grew
    {
      grew := false;
      ghost var before := names;
      for i := 0 to |pairs|
        invariant before <= names <= universe
        invariant grew <==> names != before
        invariant !grew ==> Closed(names, pairs[..i])
        invariant forall other: set<string> :: targets <= other && Closed(other, pairs) ==> names <= other
      {
        var added := pairs[i].target - names;
        assert forall n :: n in pairs[i].target && n !in names ==> n in added;
        if added != {} && pairs[i].value * names != {} {
          forall other: set<string> | targets <= other && Closed(other, pairs) ensures added <= other {
            assert ClosedUnder(other, pairs[i]);
          }
          names := names + added;
          grew := true;
        }
        assert pairs[..i + 1] == pairs[..i] + [pairs[i]];
      }
      assert pairs[..|pairs|] == pairs;
    }
  }

  /** Two lists with the same bindings, in whatever order, give the same names. */
  lemma OrderDoesNotMatter(a: set<string>, b: set<string>, targets: set<string>, ps: seq<Binding>, qs: seq<Binding>)
    requires forall x :: x in ps <==> x in qs
    requires LeastClosed(a, targets, ps) && LeastClosed(b, targets, qs)
    ensures a == b
  {
    assert Closed(a, qs) && Closed(b, ps);
  }

  /** A chain of bindings leads from a loop target to `name`. */
  ghost predicate Derives(targets: set<string>, pairs: seq<Binding>, name: string, steps: nat)
    decreases steps
  {
    name in targets
    || (steps > 0 && exists b <- pairs, source <- b.value ::
          name in b.target && Derives(targets, pairs, source, steps - 1))
  }

  /** Nothing is tainted without a chain, and every chain taints. */
  lemma TaintedIffDerived(names: set<string>, targets: set<string>, pairs: seq<Binding>, name: string)
    requires LeastClosed(names, targets, pairs)
    ensures name in names <==> exists steps: nat :: Derives(targets, pairs, name, steps)
  {
    if steps: nat :| Derives(targets, pairs, name, steps) { ChainTaints(names, targets, pairs, name, steps); }
    if name in names { TaintedIsDerived(names, targets, pairs, name); }
  }

  lemma TaintedIsDerived(names: set<string>, targets: set<string>, pairs: seq<Binding>, name: string)
    requires LeastClosed(names, targets, pairs) && name in names
    ensures exists steps: nat :: Derives(targets, pairs, name, steps)
  {
    var reached := set n <- targets + AllTargets(pairs) | exists steps: nat :: Derives(targets, pairs, n, steps);
    forall n | n in targets ensures n in reached { assert Derives(targets, pairs, n, 0); }
    forall b | b in pairs ensures ClosedUnder(reached, b) {
      if source :| source in b.value * reached {
        var steps: nat :| Derives(targets, pairs, source, steps);
        forall n | n in b.target ensures n in reached { assert Derives(targets, pairs, n, steps + 1); }
      }
    }
    assert Closed(reached, pairs);
  }

  lemma {:induction false} ChainTaints(
    names: set<string>, targets: set<string>, pairs: seq<Binding>, name: string, steps: nat)
    requires targets <= names && Closed(names, pairs) && Derives(targets, pairs, name, steps)
    ensures name in names
    decreases steps
  {
    if name !in targets {
      var b, source :| b in pairs && source in b.value && name in b.target
        && Derives(targets, pairs, source, steps - 1);
      ChainTaints(names, targets, pairs, source, steps - 1);
      assert ClosedUnder(names, b) && source in b.value * names;
    }
  }

  // ----------------------------------------------------- calls and exemption

  datatype Kind = Scope | Call(callee: Option<string>, subject: set<string>, firstArg: set<string>) | Plain

  datatype Ast = Node(kind: Kind, line: int, children: seq<Ast>)

  const SHARED: set<string> := {"emit", "get_file_lock", "commit"}

  /** A resource that changes with every iteration; shared resources are never per item. */
  predicate PerItem(call: Kind, perItem: set<string>)
    requires call.Call? && call.callee.Some?
  {
    call.callee.value !in SHARED
    && (call.subject * perItem != {} || (call.callee.value == "open" && call.firstArg * perItem != {}))
  }

  /** The exemption by name: the resource is derived from the target, for `open` also through the first argument. */
  ghost predicate TiedToItem(call: Kind, perItem: set<string>)
    requires call.Call?
  {
    && call.callee != Some("emit") && call.callee != Some("get_file_lock") && call.callee != Some("commit")
    && exists name <- perItem :: name in call.subject || (call.callee == Some("open") && name in call.firstArg)
  }

  lemma PerItemIff(call: Kind, perItem: set<string>)
    requires call.Call? && call.callee.Some?
    ensures PerItem(call, perItem) <==> TiedToItem(call, perItem)
  {
    assert call.subject * perItem != {} <==> exists name <- perItem :: name in call.subject by {
      if name :| name in perItem && name in call.subject { assert name in call.subject * perItem; }
    }
    assert call.firstArg * perItem != {} <==> exists name <- perItem :: name in call.firstArg by {
      if name :| name in perItem && name in call.firstArg { assert name in call.firstArg * perItem; }
    }
  }

  /** The calls a node runs itself: nested functions, lambdas and classes are not entered. */
  function CallsBelow(node: Ast): seq<Ast>
    decreases node, 1
  {
    if node.kind.Scope? then []
    else (if node.kind.Call? then [node] else []) + CallsIn(node, node.children)
  }

  function CallsIn(parent: Ast, nodes: seq<Ast>): seq<Ast>
    requires forall i :: 0 <= i < |nodes| ==> nodes[i] < parent
    decreases parent, 0, |nodes|
  {
    if nodes == [] then [] else CallsBelow(nodes[0]) + CallsIn(parent, nodes[1..])
  }

  function CallsOf(nodes: seq<Ast>): multiset<Ast> {
    if nodes == [] then multiset{} else CallsOf(nodes[..|nodes| - 1]) + multiset(CallsBelow(nodes[|nodes| - 1]))
  }

  /** From `node`, the child positions in `path` lead to `call` without entering a nested scope. */
  ghost predicate RunsVia(node: Ast, path: seq<nat>, call: Ast)
    decreases |path|
  {
    && !node.kind.Scope?
    && if path == [] then call == node
      else path[0] < |node.children| && RunsVia(node.children[path[0]], path[1..], call)
  }

  /** `call` is a call that one of `parts` runs itself. */
  ghost predicate RunsCall(parts: seq<Ast>, call: Ast) {
    call.kind.Call? && exists part <- parts, path: seq<nat> :: RunsVia(part, path, call)
  }

  lemma {:induction false} CallOfChild(parent: Ast, nodes: seq<Ast>, call: Ast) returns (i: nat)
    requires (forall i :: 0 <= i < |nodes| ==> nodes[i] < parent) && call in CallsIn(parent, nodes)
    ensures i < |nodes| && call in CallsBelow(nodes[i])
    decreases |nodes|
  {
    if call in CallsBelow(nodes[0]) { return 0; }
    i := CallOfChild(parent, nodes[1..], call);
    i := i + 1;
  }

  lemma {:induction false} ChildsCall(parent: Ast, nodes: seq<Ast>, i: nat, call: Ast)
    requires (forall i :: 0 <= i < |nodes| ==> nodes[i] < parent) && i < |nodes| && call in CallsBelow(nodes[i])
    ensures call in CallsIn(parent, nodes)
    decreases |nodes|
  {
    if i > 0 { ChildsCall(parent, nodes[1..], i - 1, call); }
  }

  lemma {:induction false} CallHasPath(node: Ast, call: Ast) returns (path: seq<nat>)
    requires call in CallsBelow(node)
    ensures call.kind.Call? && RunsVia(node, path, call)
  {
    if call == node && node.kind.Call? { return []; }
    var i := CallOfChild(node, node.children, call);
    var below := CallHasPath(node.children[i], call);
    path := [i] + below;
    assert path[1..] == below;
  }

  lemma {:induction false} PathHasCall(node: Ast, path: seq<nat>, call: Ast)
    requires call.kind.Call? && RunsVia(node, path, call)
    ensures call in CallsBelow(node)
  {
    if path != [] {
      PathHasCall(node.children[path[0]], path[1..], call);
      ChildsCall(node, node.children, path[0], call);
    }
  }

  lemma {:induction false} CallOfPart(parts: seq<Ast>, call: Ast) returns (part: Ast)
    requires call in CallsOf(parts)
    ensures part in parts && call in CallsBelow(part)
  {
    part := parts[|parts| - 1];
    if call !in CallsBelow(part) { part := CallOfPart(parts[..|parts| - 1], call); }
  }

  lemma {:induction false} PartsCall(parts: seq<Ast>, i: nat, call: Ast)
    requires i < |parts| && call in CallsBelow(parts[i])
    ensures call in CallsOf(parts)
  {
    if i < |parts| - 1 { PartsCall(parts[..|parts| - 1], i, call); }
  }

  /** The calls collected are the ones reached without entering a nested function, lambda or class. */
  lemma CallsOfIff(parts: seq<Ast>, call: Ast)
    ensures call in CallsOf(parts) <==> RunsCall(parts, call)
  {
    if call in CallsOf(parts) {
      var part := CallOfPart(parts, call);
      var path := CallHasPath(part, call);
    }
    if part, path: seq<nat> :| call.kind.Call? && part in parts && RunsVia(part, path, call) {
      PathHasCall(part, path, call);
      var i :| 0 <= i < |parts| && parts[i] == part;
      PartsCall(parts, i, call);
    }
  }

  function Size(node: Ast): nat
    decreases node, 1
  {
    1 + Sizes(node, node.children)
  }

  function Sizes(parent: Ast, nodes: seq<Ast>): nat
    requires forall i :: 0 <= i < |nodes| ==> nodes[i] < parent
    decreases parent, 0, |nodes|
  {
    if nodes == [] then 0 else Size(nodes[0]) + Sizes(parent, nodes[1..])
  }

  function StackSize(nodes: seq<Ast>): nat {
    if nodes == [] then 0 else StackSize(nodes[..|nodes| - 1]) + Size(nodes[|nodes| - 1])
  }

  lemma {:induction false} PushChildren(stack: seq<Ast>, parent: Ast, nodes: seq<Ast>)
    requires forall i :: 0 <= i < |nodes| ==> nodes[i] < parent
    ensures CallsOf(stack + nodes) == CallsOf(stack) + multiset(CallsIn(parent, nodes))
    ensures StackSize(stack + nodes) == StackSize(stack) + Sizes(parent, nodes)
    decreases |nodes|
  {
    if nodes == [] {
      assert stack + nodes == stack;
    } else {
      var next := stack + [nodes[0]];
      assert next[..|next| - 1] == stack;
      assert stack + nodes == next + nodes[1..];
      PushChildren(next, parent, nodes[1..]);
    }
  }

  /** The stack walk finds every call outside nested scopes exactly once. */
  method FindCalls(parts: seq<Ast>) returns (calls: seq<Ast>)
    ensures multiset(calls) == CallsOf(parts)
  {
    calls := [];
    var stack := parts;
    while stack != []
      invariant multiset(calls) + CallsOf(stack) == CallsOf(parts)
      decreases StackSize(stack)
    {
      var node := stack[|stack| - 1];
      ghost var whole := stack;
      stack := stack[..|stack| - 1];
      if node.kind.Scope? {
        continue;
      }
      if node.kind.Call? {
        calls := calls + [node];
      }
      PushChildren(stack, node, node.children);
      stack := stack + node.children;
    }
  }

  /** An IO call of the loop body, on this line, whose resource no chain of bindings ties to the target. */
  ghost predicate IsSite(call: Ast, perItem: set<string>, site: (int, string)) {
    call.kind.Call? && call.kind.callee == Some(site.1) && call.line == site.0 && !TiedToItem(call.kind, perItem)
  }

  /** One loop's sites: the IO calls its body runs whose resource no chain of bindings ties to the target. */
  method LoopSites(parts: seq<Ast>, targets: set<string>, pairs: seq<Binding>, ghost perItem: set<string>)
    returns (sites: set<(int, string)>)
    requires LeastClosed(perItem, targets, pairs)
    ensures forall site :: site in sites <==> exists call :: RunsCall(parts, call) && IsSite(call, perItem, site)
  {
    var names := PerItemNames(targets, pairs);
    OrderDoesNotMatter(names, perItem, targets, pairs, pairs);
    var calls := FindCalls(parts);
    sites := {};
    for i := 0 to |calls|
      invariant forall site :: site in sites <==> exists k :: 0 <= k < i && IsSite(calls[k], names, site)
    {
      var call := calls[i];
      if call.kind.Call? && call.kind.callee.Some? {
        PerItemIff(call.kind, names);
        if !PerItem(call.kind, names) {
          sites := sites + {(call.line, call.kind.callee.value)};
        }
      }
    }
    forall call: Ast ensures call in calls <==> RunsCall(parts, call) {
      CallsOfIff(parts, call);
      assert call in calls <==> call in multiset(calls);
    }
  }
}
