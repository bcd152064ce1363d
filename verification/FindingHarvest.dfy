/**
 Recovering findings from model output (src/quodeq/analysis/_api_schema.py).

 The decoded JSON is a tree; schema validation, the dump of a valid finding and
 the reasons of a rejection are parameters. The recursive harvest is proved equal
 to a definition over nodes and their ancestors, and the text scanner is proved
 against the list of its decode attempts.
 */
module FindingHarvest {

  datatype Json = Obj(fields: seq<Field>) | Arr(items: seq<Json>) | Atom(text: string)
  datatype Field = Field(key: string, value: Json)

  type Finding = string

  /** What the finding model decides: which objects are valid, their dump, why others are not. */
  datatype Schema = Schema(
    fieldNames: set<string>, valid: Json -> bool, dump: Json -> Finding, errors: Json -> seq<string>)

  const DROPPED_FINDING_KEY := "req"
  const MIN_FINDING_FIELD_OVERLAP := 2

  predicate HasKey(node: Json, key: string) {
    node.Obj? && exists f <- node.fields :: f.key == key
  }

  function Keys(node: Json): set<string> {
    if node.Obj? then set f <- node.fields :: f.key else {}
  }

  predicate LooksLikeFinding(schema: Schema, node: Json) {
    |schema.fieldNames * Keys(node)| >= MIN_FINDING_FIELD_OVERLAP
  }

  predicate HasNested(node: Json) {
    node.Obj? && exists f <- node.fields :: f.value.Obj? || f.value.Arr?
  }

  predicate Kept(schema: Schema, node: Json) { node.Obj? && schema.valid(node) }

  /** A finding attempt that is counted as lost. */
  predicate Dropped(schema: Schema, node: Json) {
    node.Obj? && !schema.valid(node)
    && (HasKey(node, DROPPED_FINDING_KEY) || (LooksLikeFinding(schema, node) && !HasNested(node)))
  }

  /** The walk does not look inside a finding, kept or dropped. */
  predicate Stops(schema: Schema, node: Json) { Kept(schema, node) || Dropped(schema, node) }

  /** Every one of `nodes` is a strict part of `parent`. */
  ghost predicate Below(nodes: seq<Json>, parent: Json) {
    forall i :: 0 <= i < |nodes| ==> nodes[i] < parent
  }

  function Children(node: Json): (cs: seq<Json>)
    ensures Below(cs, node)
  {
    match node
    case Obj(fields) => seq(|fields|, i requires 0 <= i < |fields| => fields[i].value)
    case Arr(items) => items
    case Atom(_) => []
  }

  // ------------------------------------------------ the reference definition

  /** A node together with its proper ancestors, outermost first. */
  datatype Placed = Placed(node: Json, ancestors: seq<Json>)

  /** Every node of the tree in pre-order. */
  function PreOrder(node: Json, ancestors: seq<Json>): seq<Placed>
    decreases node, 1
  {
    [Placed(node, ancestors)] + PreOrderAll(node, Children(node), ancestors + [node])
  }

  function PreOrderAll(parent: Json, nodes: seq<Json>, ancestors: seq<Json>): seq<Placed>
    requires Below(nodes, parent)
    decreases parent, 0, |nodes|
  {
    if nodes == [] then []
    else PreOrder(nodes[0], ancestors) + PreOrderAll(parent, nodes[1..], ancestors)
  }

  predicate Hidden(schema: Schema, p: Placed) { exists a <- p.ancestors :: Stops(schema, a) }

  /** The kept (or dropped) nodes that lie outside every other finding, in order. */
  function Select(schema: Schema, ps: seq<Placed>, kept: bool): seq<Json> {
    if ps == [] then []
    else
      (if !Hidden(schema, ps[0]) && (if kept then Kept(schema, ps[0].node) else Dropped(schema, ps[0].node))
       then [ps[0].node] else [])
      + Select(schema, ps[1..], kept)
  }

  lemma {:induction false} SelectConcat(schema: Schema, ps: seq<Placed>, qs: seq<Placed>, kept: bool)
    ensures Select(schema, ps + qs, kept) == Select(schema, ps, kept) + Select(schema, qs, kept)
  {
    if ps == [] {
      assert ps + qs == qs;
    } else {
      assert (ps + qs)[1..] == ps[1..] + qs;
      SelectConcat(schema, ps[1..], qs, kept);
    }
  }

  lemma {:induction false} SelectHidden(schema: Schema, ps: seq<Placed>, kept: bool)
    requires forall p <- ps :: Hidden(schema, p)
    ensures Select(schema, ps, kept) == []
  {
    if ps != [] { SelectHidden(schema, ps[1..], kept); }
  }

  // --------------------------------------------------- the recursive harvest

  /** The nodes the walk keeps (or drops), in walk order. */
  function Harvest(schema: Schema, node: Json, kept: bool): seq<Json>
    decreases node, 1
  {
    if Kept(schema, node) then (if kept then [node] else [])
    else if Dropped(schema, node) then (if kept then [] else [node])
    else HarvestAll(schema, node, Children(node), kept)
  }

  function HarvestAll(schema: Schema, parent: Json, nodes: seq<Json>, kept: bool): seq<Json>
    requires Below(nodes, parent)
    decreases parent, 0, |nodes|
  {
    if nodes == [] then []
    else Harvest(schema, nodes[0], kept) + HarvestAll(schema, parent, nodes[1..], kept)
  }

  lemma {:induction false} AncestorsStay(node: Json, ancestors: seq<Json>, a: Json)
    requires a in ancestors
    ensures forall p <- PreOrder(node, ancestors) :: a in p.ancestors
    decreases node, 1
  {
    AncestorsStayAll(node, Children(node), ancestors + [node], a);
  }

  lemma {:induction false} AncestorsStayAll(parent: Json, nodes: seq<Json>, ancestors: seq<Json>, a: Json)
    requires a in ancestors && Below(nodes, parent)
    ensures forall p <- PreOrderAll(parent, nodes, ancestors) :: a in p.ancestors
    decreases parent, 0, |nodes|
  {
    if nodes != [] {
      AncestorsStay(nodes[0], ancestors, a);
      AncestorsStayAll(parent, nodes[1..], ancestors, a);
    }
  }

  /**
   The harvest is exact: it is the pre-order list of the kept (or dropped) nodes
   that have no kept or dropped proper ancestor.
   */
  lemma {:induction false} HarvestIsExact(schema: Schema, node: Json, ancestors: seq<Json>, kept: bool)
    requires forall a <- ancestors :: !Stops(schema, a)
    ensures Harvest(schema, node, kept) == Select(schema, PreOrder(node, ancestors), kept)
    decreases node, 1
  {
    var rest := PreOrderAll(node, Children(node), ancestors + [node]);
    assert ([Placed(node, ancestors)] + rest)[1..] == rest;
    if Stops(schema, node) {
      AncestorsStayAll(node, Children(node), ancestors + [node], node);
      forall p | p in rest ensures Hidden(schema, p) { assert node in p.ancestors; }
      SelectHidden(schema, rest, kept);
    } else {
      HarvestAllIsExact(schema, node, Children(node), ancestors + [node], kept);
    }
  }

  lemma {:induction false} HarvestAllIsExact(
    schema: Schema, parent: Json, nodes: seq<Json>, ancestors: seq<Json>, kept: bool)
    requires (forall a <- ancestors :: !Stops(schema, a)) && Below(nodes, parent)
    ensures HarvestAll(schema, parent, nodes, kept) == Select(schema, PreOrderAll(parent, nodes, ancestors), kept)
    decreases parent, 0, |nodes|
  {
    if nodes != [] {
      HarvestIsExact(schema, nodes[0], ancestors, kept);
      HarvestAllIsExact(schema, parent, nodes[1..], ancestors, kept);
      SelectConcat(schema, PreOrder(nodes[0], ancestors), PreOrderAll(parent, nodes[1..], ancestors), kept);
    }
  }

  lemma {:induction false} SelectMember(schema: Schema, ps: seq<Placed>, x: Json, kept: bool)
    ensures x in Select(schema, ps, kept) <==>
      exists p <- ps :: p.node == x && !Hidden(schema, p) && if kept then Kept(schema, x) else Dropped(schema, x)
  {
    if ps != [] {
      SelectMember(schema, ps[1..], x, kept);
      assert ps == [ps[0]] + ps[1..];
    }
  }

  // -------------------------------------------------- parts of a JSON value

  /** `child` is the value of a field, or an item, of `parent`. */
  ghost predicate DirectPart(child: Json, parent: Json) {
    match parent
    case Obj(fields) => exists i :: 0 <= i < |fields| && fields[i].value == child
    case Arr(items) => exists i :: 0 <= i < |items| && items[i] == child
    case Atom(_) => false
  }

  /** `x` is a part of `root`, reached through `ancestors`, outermost first. */
  ghost predicate PartOf(x: Json, ancestors: seq<Json>, root: Json) {
    if ancestors == [] then x == root
    else
      && ancestors[0] == root && DirectPart(x, ancestors[|ancestors| - 1])
      && forall i :: 0 < i < |ancestors| ==> DirectPart(ancestors[i], ancestors[i - 1])
  }

  lemma ChildrenAreDirectParts(child: Json, parent: Json)
    ensures DirectPart(child, parent) <==> child in Children(parent)
  {
    var cs := Children(parent);
    match parent {
      case Obj(fields) =>
        assert forall i :: 0 <= i < |fields| ==> cs[i] == fields[i].value;
      case Arr(items) =>
      case Atom(_) =>
    }
  }

  lemma {:induction false} SiblingIsPlaced(parent: Json, nodes: seq<Json>, ancestors: seq<Json>, i: nat, p: Placed)
    requires Below(nodes, parent) && i < |nodes| && p in PreOrder(nodes[i], ancestors)
    ensures p in PreOrderAll(parent, nodes, ancestors)
    decreases |nodes|
  {
    if i > 0 { SiblingIsPlaced(parent, nodes[1..], ancestors, i - 1, p); }
  }

  lemma {:induction false} PlacedAmongSiblings(parent: Json, nodes: seq<Json>, ancestors: seq<Json>, p: Placed)
    returns (i: nat)
    requires Below(nodes, parent) && p in PreOrderAll(parent, nodes, ancestors)
    ensures i < |nodes| && p in PreOrder(nodes[i], ancestors)
    decreases |nodes|
  {
    if p in PreOrder(nodes[0], ancestors) {
      i := 0;
    } else {
      i := PlacedAmongSiblings(parent, nodes[1..], ancestors, p);
      i := i + 1;
    }
  }

  lemma PlacedUnder(p: Placed, child: Json, node: Json, above: seq<Json>)
    requires DirectPart(child, node) && p in PreOrder(child, above + [node])
    ensures p in PreOrder(node, above)
  {
    ChildrenAreDirectParts(child, node);
    var i :| 0 <= i < |Children(node)| && Children(node)[i] == child;
    SiblingIsPlaced(node, Children(node), above + [node], i, p);
  }

  lemma {:induction false} PartIsPlaced(x: Json, chain: seq<Json>, node: Json, above: seq<Json>)
    requires PartOf(x, chain, node)
    ensures Placed(x, above + chain) in PreOrder(node, above)
    decreases |chain|
  {
    if chain == [] {
      assert above + chain == above;
    } else {
      var next := if |chain| == 1 then x else chain[1];
      PartIsPlaced(x, chain[1..], next, above + [node]);
      assert above + [node] + chain[1..] == above + chain;
      PlacedUnder(Placed(x, above + chain), next, node, above);
    }
  }

  lemma PartExtends(x: Json, chain: seq<Json>, child: Json, node: Json)
    requires PartOf(x, chain, child) && DirectPart(child, node)
    ensures PartOf(x, [node] + chain, node)
  {
    var longer := [node] + chain;
    forall i | 0 < i < |longer| ensures DirectPart(longer[i], longer[i - 1]) {
      assert longer[i] == chain[i - 1];
      assert i > 1 ==> longer[i - 1] == chain[i - 2];
    }
  }

  lemma PlacedBelow(p: Placed, node: Json, above: seq<Json>) returns (child: Json)
    requires p in PreOrder(node, above) && p != Placed(node, above)
    ensures DirectPart(child, node) && child < node && p in PreOrder(child, above + [node])
  {
    var i := PlacedAmongSiblings(node, Children(node), above + [node], p);
    child := Children(node)[i];
    ChildrenAreDirectParts(child, node);
  }

  lemma {:induction false} PlacedIsPart(p: Placed, node: Json, above: seq<Json>) returns (chain: seq<Json>)
    requires p in PreOrder(node, above)
    ensures p.ancestors == above + chain && PartOf(p.node, chain, node)
    decreases node
  {
    if p == Placed(node, above) {
      chain := [];
    } else {
      var child := PlacedBelow(p, node, above);
      var rest := PlacedIsPart(p, child, above + [node]);
      PartExtends(p.node, rest, child, node);
      chain := [node] + rest;
      Assoc(above, [node], rest);
    }
  }

  /** The pre-order list places exactly the parts of the value, each under its own ancestors. */
  lemma PreOrderIsExact(p: Placed, root: Json)
    ensures p in PreOrder(root, []) <==> PartOf(p.node, p.ancestors, root)
  {
    if PartOf(p.node, p.ancestors, root) {
      PartIsPlaced(p.node, p.ancestors, root, []);
      assert [] + p.ancestors == p.ancestors;
    }
    if p in PreOrder(root, []) {
      var chain := PlacedIsPart(p, root, []);
      assert [] + chain == chain;
    }
  }

  /** The part lies outside every finding, kept or dropped. */
  ghost predicate Outside(schema: Schema, ancestors: seq<Json>) {
    forall a <- ancestors :: !Stops(schema, a)
  }

  /** What is harvested: exactly the valid (or lost) parts, at any depth, that lie outside every other finding. */
  lemma HarvestedIffPart(schema: Schema, root: Json, x: Json, kept: bool)
    ensures x in Harvest(schema, root, kept) <==>
      (if kept then Kept(schema, x) else Dropped(schema, x))
      && exists ancestors :: PartOf(x, ancestors, root) && Outside(schema, ancestors)
  {
    var ps := PreOrder(root, []);
    HarvestIsExact(schema, root, [], kept);
    SelectMember(schema, ps, x, kept);
    if p :| p in ps && p.node == x && !Hidden(schema, p) {
      PreOrderIsExact(p, root);
      assert PartOf(x, p.ancestors, root) && Outside(schema, p.ancestors);
    }
    if ancestors :| PartOf(x, ancestors, root) && Outside(schema, ancestors) {
      PreOrderIsExact(Placed(x, ancestors), root);
      assert !Hidden(schema, Placed(x, ancestors));
    }
  }

  /** No finding attempt is lost silently: any part carrying "req" is kept, dropped, or inside one that was. */
  lemma EveryAttemptIsAccountedFor(schema: Schema, root: Json, x: Json, ancestors: seq<Json>)
    requires PartOf(x, ancestors, root) && HasKey(x, "req")
    ensures !Outside(schema, ancestors)
      || x in Harvest(schema, root, true)
      || x in Harvest(schema, root, false)
  {
    HarvestedIffPart(schema, root, x, true);
    HarvestedIffPart(schema, root, x, false);
  }

  /** A leaf that shares two fields with the schema is an attempt even without "req"; a wrapper is not one. */
  lemma LooksLikeAnAttempt(schema: Schema, node: Json, a: string, b: string)
    requires node.Obj? && !schema.valid(node) && !HasKey(node, "req")
    requires a != b && HasKey(node, a) && HasKey(node, b) && a in schema.fieldNames && b in schema.fieldNames
    ensures var wraps := exists i :: 0 <= i < |node.fields| && (node.fields[i].value.Obj? || node.fields[i].value.Arr?);
      Dropped(schema, node) <==> !wraps
  {
    var shared := schema.fieldNames * Keys(node);
    assert {a, b} <= shared;
    assert shared == {a, b} + (shared - {a, b});
    if i :| 0 <= i < |node.fields| && (node.fields[i].value.Obj? || node.fields[i].value.Arr?) {
      assert node.fields[i] in node.fields;
    }
  }

  /** One shared field, or none, makes no attempt. */
  lemma OneSharedFieldIsNoAttempt(schema: Schema, node: Json, a: string)
    requires node.Obj? && !HasKey(node, "req")
    requires forall f <- node.fields :: f.key in schema.fieldNames ==> f.key == a
    ensures !Dropped(schema, node)
  {
    var shared := schema.fieldNames * Keys(node);
    assert shared <= {a};
    assert shared == {a} || shared == {};
  }

  /** A list is harvested item by item, in order, and an object that is no finding like the list of its values. */
  lemma {:induction false} HarvestInOrder(schema: Schema, xs: seq<Json>, ys: seq<Json>, x: Json, kept: bool)
    ensures Harvest(schema, Arr(xs + ys), kept) == Harvest(schema, Arr(xs), kept) + Harvest(schema, Arr(ys), kept)
    ensures Harvest(schema, Arr([x]), kept) == Harvest(schema, x, kept)
  {
    assert forall i :: 0 <= i < |xs| ==> xs[i] == (xs + ys)[i];
    assert forall i :: 0 <= i < |ys| ==> ys[i] == (xs + ys)[|xs| + i];
    SplitHarvest(schema, Arr(xs + ys), xs, ys, kept);
    SameHarvest(schema, Arr(xs + ys), Arr(xs), xs, kept);
    SameHarvest(schema, Arr(xs + ys), Arr(ys), ys, kept);
    assert HarvestAll(schema, Arr([x]), [x][1..], kept) == [];
  }

  lemma HarvestOfAWrapper(schema: Schema, fields: seq<Field>, kept: bool)
    requires !Stops(schema, Obj(fields))
    ensures var values := seq(|fields|, i requires 0 <= i < |fields| => fields[i].value);
      Harvest(schema, Obj(fields), kept) == Harvest(schema, Arr(values), kept)
  {
    var values := seq(|fields|, i requires 0 <= i < |fields| => fields[i].value);
    assert Children(Obj(fields)) == values;
    SameHarvest(schema, Obj(fields), Arr(values), values, kept);
  }

  lemma {:induction false} SplitHarvest(schema: Schema, parent: Json, xs: seq<Json>, ys: seq<Json>, kept: bool)
    requires Below(xs + ys, parent) && Below(xs, parent) && Below(ys, parent)
    ensures HarvestAll(schema, parent, xs + ys, kept)
      == HarvestAll(schema, parent, xs, kept) + HarvestAll(schema, parent, ys, kept)
    decreases |xs|
  {
    if xs == [] {
      assert xs + ys == ys;
    } else {
      assert (xs + ys)[1..] == xs[1..] + ys;
      SplitHarvest(schema, parent, xs[1..], ys, kept);
    }
  }

  lemma {:induction false} SameHarvest(schema: Schema, p: Json, q: Json, nodes: seq<Json>, kept: bool)
    requires Below(nodes, p) && Below(nodes, q)
    ensures HarvestAll(schema, p, nodes, kept) == HarvestAll(schema, q, nodes, kept)
    decreases |nodes|
  {
    if nodes != [] { SameHarvest(schema, p, q, nodes[1..], kept); }
  }

  // --------------------------------------------------------- the walk itself

  /** How many call frames the walk needs for a node: it does not go below a finding. */
  function Need(schema: Schema, node: Json): nat
    decreases node, 1
  {
    if Stops(schema, node) then 1 else 1 + NeedAll(schema, node, Children(node))
  }

  function NeedAll(schema: Schema, parent: Json, nodes: seq<Json>): nat
    requires Below(nodes, parent)
    decreases parent, 0, |nodes|
  {
    if nodes == [] then 0
    else
      var h, t := Need(schema, nodes[0]), NeedAll(schema, parent, nodes[1..]);
      if h >= t then h else t
  }

  lemma {:induction false} ChildNeeds(schema: Schema, parent: Json, nodes: seq<Json>, i: nat)
    requires Below(nodes, parent) && i < |nodes|
    ensures Need(schema, nodes[i]) <= NeedAll(schema, parent, nodes)
    decreases |nodes|
  {
    if i > 0 { ChildNeeds(schema, parent, nodes[1..], i - 1); }
  }

  lemma {:induction false} NeediestChild(schema: Schema, parent: Json, nodes: seq<Json>) returns (i: nat)
    requires Below(nodes, parent) && NeedAll(schema, parent, nodes) > 0
    ensures i < |nodes| && Need(schema, nodes[i]) == NeedAll(schema, parent, nodes)
    decreases |nodes|
  {
    if Need(schema, nodes[0]) == NeedAll(schema, parent, nodes) { return 0; }
    i := NeediestChild(schema, parent, nodes[1..]);
    i := i + 1;
  }

  lemma {:induction false} NeedCovers(schema: Schema, x: Json, chain: seq<Json>, node: Json)
    requires PartOf(x, chain, node) && Outside(schema, chain)
    ensures |chain| < Need(schema, node)
    decreases |chain|
  {
    if chain != [] {
      var next := if |chain| == 1 then x else chain[1];
      NeedCovers(schema, x, chain[1..], next);
      ChildrenAreDirectParts(next, node);
      var i :| 0 <= i < |Children(node)| && Children(node)[i] == next;
      ChildNeeds(schema, node, Children(node), i);
    }
  }

  lemma {:induction false} DeepestPart(schema: Schema, node: Json) returns (x: Json, chain: seq<Json>)
    ensures PartOf(x, chain, node) && Outside(schema, chain) && |chain| + 1 == Need(schema, node)
    decreases node
  {
    if Stops(schema, node) || NeedAll(schema, node, Children(node)) == 0 { return node, []; }
    var i := NeediestChild(schema, node, Children(node));
    var child := Children(node)[i];
    x, chain := DeepestPart(schema, child);
    ChildrenAreDirectParts(child, node);
    PartExtends(x, chain, child, node);
    chain := [node] + chain;
  }

  /** A walk overflows exactly when some part outside every finding lies as many levels down as there are frames. */
  lemma OverflowsIff(schema: Schema, root: Json, frames: nat)
    ensures frames < Need(schema, root) <==>
      exists x, ancestors :: PartOf(x, ancestors, root) && Outside(schema, ancestors) && |ancestors| >= frames
  {
    var y, chain := DeepestPart(schema, root);
    assert frames < Need(schema, root) ==> |chain| >= frames;
    if x, ancestors :| PartOf(x, ancestors, root) && Outside(schema, ancestors) && |ancestors| >= frames {
      NeedCovers(schema, x, ancestors, root);
    }
  }

  /** The nodes a walk with `frames` call frames keeps (or drops) before it overflows, if it does. */
  function Reached(schema: Schema, node: Json, frames: nat, kept: bool): seq<Json>
    decreases node, 1
  {
    if frames == 0 then []
    else if Kept(schema, node) then (if kept then [node] else [])
    else if Dropped(schema, node) then (if kept then [] else [node])
    else ReachedAll(schema, node, Children(node), frames - 1, kept)
  }

  function ReachedAll(schema: Schema, parent: Json, nodes: seq<Json>, frames: nat, kept: bool): seq<Json>
    requires Below(nodes, parent)
    decreases parent, 0, |nodes|
  {
    if nodes == [] then []
    else if frames < Need(schema, nodes[0]) then Reached(schema, nodes[0], frames, kept)
    else Reached(schema, nodes[0], frames, kept) + ReachedAll(schema, parent, nodes[1..], frames, kept)
  }

  /** An overflow loses the end of the harvest and nothing else; enough frames lose nothing. */
  lemma {:induction false} ReachedIsPrefix(schema: Schema, node: Json, frames: nat, kept: bool)
    ensures Reached(schema, node, frames, kept) <= Harvest(schema, node, kept)
    ensures frames >= Need(schema, node) ==> Reached(schema, node, frames, kept) == Harvest(schema, node, kept)
    decreases node, 1
  {
    if frames > 0 && !Stops(schema, node) {
      ReachedAllIsPrefix(schema, node, Children(node), frames - 1, kept);
    }
  }

  lemma {:induction false} ReachedAllIsPrefix(
    schema: Schema, parent: Json, nodes: seq<Json>, frames: nat, kept: bool)
    requires Below(nodes, parent)
    ensures ReachedAll(schema, parent, nodes, frames, kept) <= HarvestAll(schema, parent, nodes, kept)
    ensures frames >= NeedAll(schema, parent, nodes) ==>
      ReachedAll(schema, parent, nodes, frames, kept) == HarvestAll(schema, parent, nodes, kept)
    decreases parent, 0, |nodes|
  {
    if nodes != [] {
      ReachedIsPrefix(schema, nodes[0], frames, kept);
      ReachedAllIsPrefix(schema, parent, nodes[1..], frames, kept);
    }
  }

  function Dumps(schema: Schema, nodes: seq<Json>): (ds: seq<Finding>)
    ensures |ds| == |nodes| && forall i :: 0 <= i < |nodes| ==> ds[i] == schema.dump(nodes[i])
  {
    seq(|nodes|, i requires 0 <= i < |nodes| => schema.dump(nodes[i]))
  }

  lemma DumpsConcat(schema: Schema, a: seq<Json>, b: seq<Json>)
    ensures Dumps(schema, a + b) == Dumps(schema, a) + Dumps(schema, b)
  {
  }

  function ErrorKeys(schema: Schema, nodes: seq<Json>): seq<string> {
    if nodes == [] then [] else schema.errors(nodes[0]) + ErrorKeys(schema, nodes[1..])
  }

  lemma {:induction false} ErrorKeysConcat(schema: Schema, a: seq<Json>, b: seq<Json>)
    ensures ErrorKeys(schema, a + b) == ErrorKeys(schema, a) + ErrorKeys(schema, b)
  {
    if a == [] {
      assert a + b == b;
    } else {
      assert (a + b)[1..] == a[1..] + b;
      ErrorKeysConcat(schema, a[1..], b);
    }
  }

  /** The reasons of one lost node are all and only its own errors. */
  lemma ErrorsOfOne(schema: Schema, node: Json)
    ensures ErrorKeys(schema, [node]) == schema.errors(node)
  {
    assert ErrorKeys(schema, [node]) == schema.errors(node) + ErrorKeys(schema, []);
  }

  datatype Collected = Collected(findings: seq<Finding>, dropped: seq<Json>, reasons: multiset<string>)

  /** From `before` to `after` exactly the kept and lost nodes were collected. */
  ghost predicate Grew(schema: Schema, before: Collected, after: Collected, kept: seq<Json>, lost: seq<Json>) {
    && after.findings == before.findings + Dumps(schema, kept)
    && after.dropped == before.dropped + lost
    && after.reasons == before.reasons + multiset(ErrorKeys(schema, lost))
  }

  lemma GrewTwice(
    schema: Schema, a: Collected, b: Collected, c: Collected,
    kept1: seq<Json>, lost1: seq<Json>, kept2: seq<Json>, lost2: seq<Json>)
    requires Grew(schema, a, b, kept1, lost1) && Grew(schema, b, c, kept2, lost2)
    ensures Grew(schema, a, c, kept1 + kept2, lost1 + lost2)
  {
    DumpsConcat(schema, kept1, kept2);
    ErrorKeysConcat(schema, lost1, lost2);
    Assoc(a.findings, Dumps(schema, kept1), Dumps(schema, kept2));
    Assoc(a.dropped, lost1, lost2);
  }

  lemma Assoc<T>(a: seq<T>, b: seq<T>, c: seq<T>)
    ensures (a + b) + c == a + (b + c)
  {
  }

  lemma OneKept(schema: Schema, c: Collected, node: Json)
    ensures Grew(schema, c, c.(findings := c.findings + [schema.dump(node)]), [node], [])
  {
    assert Dumps(schema, [node]) == [schema.dump(node)];
  }

  lemma OneLost(schema: Schema, c: Collected, node: Json)
    ensures Grew(schema, c,
      c.(dropped := c.dropped + [node], reasons := c.reasons + multiset(schema.errors(node))), [], [node])
  {
    ErrorsOfOne(schema, node);
  }

  /** Where the walk collects: kept findings, dropped nodes and the reason histogram. */
  class Collector {
    var findings: seq<Finding>
    var dropped: seq<Json>
    var reasons: multiset<string>

    constructor ()
      ensures findings == [] && dropped == [] && reasons == multiset{}
    {
      findings, dropped, reasons := [], [], multiset{};
    }

    ghost function View(): Collected
      reads this
    {
      Collected(findings, dropped, reasons)
    }

    /**
     The recursive walk with `frames` call frames left: it overflows exactly when the
     tree needs more, and it has collected exactly what it reached by then.
     */
    method Extract(schema: Schema, node: Json, frames: nat) returns (overflow: bool)
      modifies this
      ensures overflow <==> frames < Need(schema, node)
      ensures Grew(schema, old(View()), View(),
        Reached(schema, node, frames, true), Reached(schema, node, frames, false))
      decreases node, 1
    {
      if frames == 0 {
        return true;
      }
      if Kept(schema, node) {
        OneKept(schema, View(), node);
        findings := findings + [schema.dump(node)];
        return false;
      }
      if Dropped(schema, node) {
        OneLost(schema, View(), node);
        dropped := dropped + [node];
        reasons := reasons + multiset(schema.errors(node));
        return false;
      }
      overflow := ExtractAll(schema, node, Children(node), frames - 1);
    }

    method ExtractAll(schema: Schema, parent: Json, nodes: seq<Json>, frames: nat) returns (overflow: bool)
      requires Below(nodes, parent)
      modifies this
      ensures overflow <==> frames < NeedAll(schema, parent, nodes)
      ensures Grew(schema, old(View()), View(),
        ReachedAll(schema, parent, nodes, frames, true), ReachedAll(schema, parent, nodes, frames, false))
      decreases parent, 0, |nodes|
    {
      if nodes == [] {
        return false;
      }
      ghost var before := View();
      overflow := Extract(schema, nodes[0], frames);
      if overflow {
        return;
      }
      ghost var mid := View();
      overflow := ExtractAll(schema, parent, nodes[1..], frames);
      GrewTwice(
        schema, before, mid, View(),
        Reached(schema, nodes[0], frames, true), Reached(schema, nodes[0], frames, false),
        ReachedAll(schema, parent, nodes[1..], frames, true), ReachedAll(schema, parent, nodes[1..], frames, false));
    }
  }

  // --------------------------------------------------------- the text scanner

  /** The JSON decoder at one opener: a value and where it ends, a syntax error, or too deep to decode. */
  datatype Decode = Value(node: Json, end: nat) | SyntaxError | TooDeep

  /** One response, with its decoder, its schema and the call frames each walk has. */
  datatype Scan = Scan(text: string, decode: nat -> Decode, schema: Schema, frames: nat)

  /** A decoded value ends after its opener and inside the text. */
  ghost predicate Sound(scan: Scan) {
    forall start: nat :: start < |scan.text| && scan.decode(start).Value? ==>
      start < scan.decode(start).end <= |scan.text|
  }

  predicate IsOpener(scan: Scan, i: nat)
    requires i < |scan.text|
  {
    scan.text[i] == '[' || scan.text[i] == '{'
  }

  /** The first opener at or after `i`, or the end of the text. */
  function NextOpener(scan: Scan, i: nat): (p: nat)
    requires i <= |scan.text|
    ensures i <= p <= |scan.text|
    ensures p < |scan.text| ==> IsOpener(scan, p)
    ensures forall k :: i <= k < p ==> !IsOpener(scan, k)
    decreases |scan.text| - i
  {
    if i == |scan.text| || IsOpener(scan, i) then i else NextOpener(scan, i + 1)
  }

  /** A recursion stop: the value at `start` is too deep to decode or, once decoded, to walk. */
  predicate Halts(scan: Scan, start: nat) {
    match scan.decode(start)
    case Value(node, _) => scan.frames < Need(scan.schema, node)
    case SyntaxError => false
    case TooDeep => true
  }

  /** Where the scan continues after trying the opener at `start`; the text's end after a recursion stop. */
  function Resume(scan: Scan, start: nat): nat {
    if Halts(scan, start) then |scan.text|
    else if scan.decode(start).Value? then scan.decode(start).end
    else start + 1
  }

  /** The openers the scan tries from `i` on, in order. */
  ghost function Tried(scan: Scan, i: nat): seq<nat>
    requires Sound(scan) && i <= |scan.text|
    decreases |scan.text| - i
  {
    var start := NextOpener(scan, i);
    if start == |scan.text| then [] else [start] + Tried(scan, Resume(scan, start))
  }

  /** Attempts move right, a later one starts after the value of an earlier one, and only the last can halt. */
  lemma {:induction false} SpansAreDisjoint(scan: Scan, i: nat, a: nat, b: nat)
    requires Sound(scan) && i <= |scan.text| && a < b < |Tried(scan, i)|
    ensures var ts := Tried(scan, i);
      && i <= ts[a] < ts[b] && !Halts(scan, ts[a])
      && (scan.decode(ts[a]).Value? ==> scan.decode(ts[a]).end <= ts[b])
    decreases a
  {
    var ts := Tried(scan, i);
    var start := NextOpener(scan, i);
    var next := Resume(scan, start);
    TriedInRange(scan, next);
    if a > 0 {
      SpansAreDisjoint(scan, next, a - 1, b - 1);
    } else {
      assert ts[b] == Tried(scan, next)[b - 1];
      assert ts[b] in Tried(scan, next);
    }
  }

  lemma {:induction false} TriedInRange(scan: Scan, i: nat)
    requires Sound(scan) && i <= |scan.text|
    ensures forall t <- Tried(scan, i) :: i <= t < |scan.text| && IsOpener(scan, t)
    decreases |scan.text| - i
  {
    var start := NextOpener(scan, i);
    if start < |scan.text| { TriedInRange(scan, Resume(scan, start)); }
  }

  /** A tried position hides a later one: inside its value, or behind its value being too deep to decode or walk. */
  ghost predicate Hides(scan: Scan, t: nat, p: nat) {
    t < p && match scan.decode(t)
             case Value(node, end) => p < end || scan.frames < Need(scan.schema, node)
             case SyntaxError => false
             case TooDeep => true
  }

  /** Only brackets and braces are tried, and each exactly once unless an earlier attempt hides it. */
  lemma {:induction false} EveryOpenerTriedOnce(scan: Scan, i: nat, p: nat)
    requires Sound(scan) && i <= p < |scan.text|
    ensures var ts := Tried(scan, i);
      && (p in ts ==> (scan.text[p] == '[' || scan.text[p] == '{') && multiset(ts)[p] == 1)
      && (scan.text[p] == '[' || scan.text[p] == '{' ==> (p in ts <==> !exists t <- ts :: Hides(scan, t, p)))
    decreases |scan.text| - i
  {
    var start := NextOpener(scan, i);
    assert IsOpener(scan, p) <==> (scan.text[p] == '[' || scan.text[p] == '{');
    if start < |scan.text| {
      var next := Resume(scan, start);
      var rest, ts := Tried(scan, next), Tried(scan, i);
      assert ts == [start] + rest;
      assert multiset(ts) == multiset{start} + multiset(rest);
      TriedInRange(scan, next);
      assert forall t :: t in ts <==> t == start || t in rest;
      if p < next {
        assert p !in rest && forall t <- rest :: !Hides(scan, t, p);
        assert start in ts && (start < p ==> Hides(scan, start, p));
      } else {
        EveryOpenerTriedOnce(scan, next, p);
        assert !Hides(scan, start, p);
      }
    }
  }

  /** What the attempts at `ts` collect: the harvests of their values, the last one as far as its walk got. */
  function Gathered(scan: Scan, ts: seq<nat>, kept: bool): seq<Json> {
    if ts == [] then []
    else
      var attempt := scan.decode(ts[|ts| - 1]);
      Gathered(scan, ts[..|ts| - 1], kept)
      + if attempt.Value? then Reached(scan.schema, attempt.node, scan.frames, kept) else []
  }

  /** The complete harvests of the values decoded at `ts`, one after the other. */
  function HarvestsAt(scan: Scan, ts: seq<nat>, kept: bool): seq<Json> {
    if ts == [] then []
    else
      var attempt := scan.decode(ts[|ts| - 1]);
      HarvestsAt(scan, ts[..|ts| - 1], kept)
      + if attempt.Value? then Harvest(scan.schema, attempt.node, kept) else []
  }

  /** Without a recursion stop nothing is missing. */
  lemma {:induction false} NothingMissing(scan: Scan, ts: seq<nat>, kept: bool)
    requires forall t <- ts :: !Halts(scan, t)
    ensures Gathered(scan, ts, kept) == HarvestsAt(scan, ts, kept)
  {
    if ts != [] {
      var init, last := ts[..|ts| - 1], ts[|ts| - 1];
      assert last in ts && forall t :: t in init ==> t in ts;
      NothingMissing(scan, init, kept);
      if scan.decode(last).Value? { ReachedIsPrefix(scan.schema, scan.decode(last).node, scan.frames, kept); }
    }
  }

  /**
   A whole scan collects a prefix of all the harvests of its attempts: it is complete
   unless the last attempt halted, and then only the end of that value's harvest is missing.
   */
  lemma OnlyTheLastHarvestIsCut(scan: Scan, kept: bool)
    requires Sound(scan)
    ensures var ts := Tried(scan, 0);
      && Gathered(scan, ts, kept) <= HarvestsAt(scan, ts, kept)
      && (ts == [] || !Halts(scan, ts[|ts| - 1]) ==> Gathered(scan, ts, kept) == HarvestsAt(scan, ts, kept))
      && (ts != [] ==> HarvestsAt(scan, ts[..|ts| - 1], kept) <= Gathered(scan, ts, kept))
  {
    var ts := Tried(scan, 0);
    if ts != [] {
      var init, last := ts[..|ts| - 1], ts[|ts| - 1];
      forall t | t in init ensures !Halts(scan, t) {
        var a :| 0 <= a < |init| && init[a] == t;
        SpansAreDisjoint(scan, 0, a, |ts| - 1);
      }
      NothingMissing(scan, init, kept);
      if scan.decode(last).Value? { ReachedIsPrefix(scan.schema, scan.decode(last).node, scan.frames, kept); }
    }
  }

  const NOTHING := Collected([], [], multiset{})

  /** The attempts so far are `tried`, the rest of the scan starts at `i`, and `c` is what they collect. */
  ghost predicate ScanAt(scan: Scan, tried: seq<nat>, i: nat, c: Collected)
    requires Sound(scan)
  {
    && i <= |scan.text| && Tried(scan, 0) == tried + Tried(scan, i)
    && Collects(scan, tried, c)
  }

  lemma TriedMore(scan: Scan, tried: seq<nat>, i: nat)
    requires Sound(scan) && i <= |scan.text| && NextOpener(scan, i) < |scan.text|
    requires Tried(scan, 0) == tried + Tried(scan, i)
    ensures var start := NextOpener(scan, i);
      Tried(scan, 0) == (tried + [start]) + Tried(scan, Resume(scan, start))
  {
  }

  lemma GatheredMore(scan: Scan, tried: seq<nat>, start: nat, kept: bool)
    ensures var attempt, more := scan.decode(start), Gathered(scan, tried + [start], kept);
      if attempt.Value?
      then more == Gathered(scan, tried, kept) + Reached(scan.schema, attempt.node, scan.frames, kept)
      else more == Gathered(scan, tried, kept)
  {
    assert (tried + [start])[..|tried|] == tried;
  }

  /** `c` is what the attempts at `tried` collect. */
  ghost predicate Collects(scan: Scan, tried: seq<nat>, c: Collected) {
    Grew(scan.schema, NOTHING, c, Gathered(scan, tried, true), Gathered(scan, tried, false))
  }

  lemma CollectsMore(scan: Scan, tried: seq<nat>, start: nat, before: Collected, after: Collected)
    requires Collects(scan, tried, before) && scan.decode(start).Value?
    requires var node := scan.decode(start).node;
      Grew(scan.schema, before, after,
        Reached(scan.schema, node, scan.frames, true), Reached(scan.schema, node, scan.frames, false))
    ensures Collects(scan, tried + [start], after)
  {
    var node := scan.decode(start).node;
    GatheredMore(scan, tried, start, true);
    GatheredMore(scan, tried, start, false);
    GrewTwice(
      scan.schema, NOTHING, before, after, Gathered(scan, tried, true), Gathered(scan, tried, false),
      Reached(scan.schema, node, scan.frames, true), Reached(scan.schema, node, scan.frames, false));
  }

  lemma CollectsNoMore(scan: Scan, tried: seq<nat>, start: nat, c: Collected)
    requires Collects(scan, tried, c) && !scan.decode(start).Value?
    ensures Collects(scan, tried + [start], c)
  {
    GatheredMore(scan, tried, start, true);
    GatheredMore(scan, tried, start, false);
  }

  lemma ScanTries(scan: Scan, tried: seq<nat>, i: nat, c: Collected)
    requires Sound(scan) && i <= |scan.text| && NextOpener(scan, i) < |scan.text|
    requires Tried(scan, 0) == tried + Tried(scan, i)
    requires Collects(scan, tried + [NextOpener(scan, i)], c)
    ensures ScanAt(scan, tried + [NextOpener(scan, i)], Resume(scan, NextOpener(scan, i)), c)
  {
    TriedMore(scan, tried, i);
  }

  /** Nothing is left to try once the text is used up. */
  lemma ScanIsOver(scan: Scan, tried: seq<nat>, i: nat, c: Collected)
    requires Sound(scan) && ScanAt(scan, tried, i, c) && NextOpener(scan, i) == |scan.text|
    ensures tried == Tried(scan, 0)
  {
    assert Tried(scan, i) == [];
  }

  /** One attempt at the opener `start`: decode, walk, and say where the scan goes on, or that it stops. */
  method TryOpener(scan: Scan, sink: Collector, ghost tried: seq<nat>, ghost i: nat, start: nat)
    returns (stopped: bool, next: nat)
    requires Sound(scan) && ScanAt(scan, tried, i, sink.View()) && start == NextOpener(scan, i) < |scan.text|
    modifies sink
    ensures stopped <==> Halts(scan, start)
    ensures next == Resume(scan, start) && start < next <= |scan.text|
    ensures ScanAt(scan, tried + [start], next, sink.View())
  {
    ghost var before := sink.View();
    var attempt := scan.decode(start);
    stopped := attempt.TooDeep?;
    if attempt.Value? {
      stopped := sink.Extract(scan.schema, attempt.node, scan.frames);
      CollectsMore(scan, tried, start, before, sink.View());
    } else {
      CollectsNoMore(scan, tried, start, before);
    }
    next := if stopped then |scan.text| else if attempt.Value? then attempt.end else start + 1;
    ScanTries(scan, tried, i, sink.View());
  }

  /**
   The scan over a whole response. `tried` are the openers it tried, and it collects
   exactly what their values' walks reached.
   */
  method ParseFindings(scan: Scan) returns (sink: Collector, ghost tried: seq<nat>)
    requires Sound(scan)
    ensures fresh(sink)
    ensures tried == Tried(scan, 0)
    ensures Collects(scan, Tried(scan, 0), sink.View())
  {
    sink := new Collector();
    tried := [];
    var i := 0;
    var start := NextOpener(scan, i);
    while start < |scan.text|
      invariant ScanAt(scan, tried, i, sink.View()) && start == NextOpener(scan, i)
      decreases |scan.text| - i
    {
      var stopped, next := TryOpener(scan, sink, tried, i, start);
      tried, i := tried + [start], next;
      start := NextOpener(scan, i);
      if stopped {
        break;
      }
    }
    ScanIsOver(scan, tried, i, sink.View());
  }
}
