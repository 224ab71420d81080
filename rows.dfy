/** The row-building loop of main.py:114-131, which turns the depth-sorted
    items into `nodelist`: how one dict is read, and the loop itself. */
module Rows {
  import opened JsonValues
  import opened TreeWalk
  import opened Nodes

  /** The exceptions the loop raises on malformed input. */
  datatype Error =
    | MissingId       // KeyError on `["@id"]` (main.py:119, main.py:129)
    | UnsupportedId   // "@id" holds something other than a string
    | ChildNotObject  // AttributeError: `child.get` on a non-dict (main.py:126)
    | NotIterable     // TypeError: "children" is a number, a boolean or null (main.py:125)

  /** The value a dict carries once main.py:116-117 (or 126-127) has run:
      its "value", or 0 when that is missing or null. */
  function ValueOf(fs: Fields): Json {
    match Get(fs, "value")
    case Some(x) => if x == JNull then JNum(0) else x
    case None => JNum(0)
  }

  /** The dict itself after the in-place write `d["value"] = 0`. Writing it
      back changes nothing the rest of the script reads, so the model reads
      `ValueOf` instead of mutating the tree. */
  function Defaulted(fs: Fields): (r: Fields)
    ensures Get(r, "value") == Some(ValueOf(fs))
    ensures ValueOf(r) == ValueOf(fs)
    ensures forall key :: key != "value" ==> Get(r, key) == Get(fs, key)
  {
    match Get(fs, "value")
    case Some(x) => if x == JNull then Put(fs, "value", JNum(0)) else fs
    case None => Put(fs, "value", JNum(0))
  }

  /** `d["@id"]`. */
  function IdOf(fs: Fields): Result<string, Error> {
    match Get(fs, "@id")
    case None => Err(MissingId)
    case Some(JStr(s)) => Ok(s)
    case Some(_) => Err(UnsupportedId)
  }

  /** The edge node one child contributes (main.py:126-131). */
  function EdgeOf(child: Json, parentId: string, generation: nat): Result<Node, Error> {
    match child
    case JObj(fs) =>
      (match IdOf(fs)
       case Ok(id) => Ok(Node(id, generation, Some(parentId), ValueOf(fs)))
       case Err(e) => Err(e))
    case _ => Err(ChildNotObject)
  }

  /** The inner loop over a "children" list: the edges of its elements, in
      order, or the exception of the first element that raises. */
  function EdgeRows(xs: seq<Json>, parentId: string, generation: nat): Result<seq<Node>, Error> {
    if xs == [] then Ok([])
    else
      match EdgeRows(xs[..|xs| - 1], parentId, generation)
      case Err(e) => Err(e)
      case Ok(es) =>
        match EdgeOf(xs[|xs| - 1], parentId, generation)
        case Err(e) => Err(e)
        case Ok(n) => Ok(es + [n])
  }

  /** Edge rule: the list goes through exactly when every element is a dict
      with a string "@id"; then there is one edge per element, in list
      order, each with the given parent and generation and the element's
      id and (defaulted) value; otherwise the exception is the first bad
      element's. */
  lemma {:induction false} EdgeRule(xs: seq<Json>, parentId: string, generation: nat)
    ensures var r := EdgeRows(xs, parentId, generation);
      && (r.Ok? <==> forall k :: 0 <= k < |xs| ==> xs[k].JObj? && IdOf(xs[k].fields).Ok?)
      && (r.Ok? ==>
            |r.value| == |xs| &&
            forall k :: 0 <= k < |xs| ==>
              r.value[k] == Node(IdOf(xs[k].fields).value, generation, Some(parentId), ValueOf(xs[k].fields)))
      && (r.Err? ==>
            exists k :: 0 <= k < |xs| && EdgeOf(xs[k], parentId, generation) == Err(r.error) &&
              forall m :: 0 <= m < k ==> EdgeOf(xs[m], parentId, generation).Ok?)
  {
    if xs != [] {
      var init, last := xs[..|xs| - 1], xs[|xs| - 1];
      assert forall k :: 0 <= k < |init| ==> init[k] == xs[k];
      EdgeRule(init, parentId, generation);
    }
  }

  /** `for child in parent.get("children")`: a list yields its elements; a
      dict or a string yields keys or characters, which have no `.get`, so
      only an empty one goes through; anything else is not iterable. */
  function ChildEdges(c: Json, parentId: string, generation: nat): Result<seq<Node>, Error> {
    match c
    case JArr(xs) => EdgeRows(xs, parentId, generation)
    case JObj(fs) => if fs == [] then Ok([]) else Err(ChildNotObject)
    case JStr(s) => if s == [] then Ok([]) else Err(ChildNotObject)
    case _ => Err(NotIterable)
  }

  /** What processing one dict contributes (main.py:116-131): its container
      node and the edges of its children, or the exception it raises. */
  function Contribute(it: Item): Result<Contribution, Error> {
    match IdOf(it.fields)
    case Err(e) => Err(e)
    case Ok(id) =>
      var container := Node(id, it.depth, None, ValueOf(it.fields));
      match Get(it.fields, Children)
      case None => Ok(Contribution(container, []))
      case Some(c) =>
        match ChildEdges(c, id, it.depth)
        case Err(e) => Err(e)
        case Ok(es) => Ok(Contribution(container, es))
  }

  /** A dict that goes through has a string "@id"; its container carries that
      id, the dict's depth, no parent and the defaulted value; its edges are
      those of its "children" (none without that key), and together they are
      `Coherent`. */
  lemma ContributeShape(it: Item)
    requires Contribute(it).Ok?
    ensures var c := Contribute(it).value;
      && IdOf(it.fields).Ok?
      && c.container == Node(IdOf(it.fields).value, it.depth, None, ValueOf(it.fields))
      && (Get(it.fields, Children).None? ==> c.edges == [])
      && (Get(it.fields, Children).Some? ==>
            ChildEdges(Get(it.fields, Children).value, IdOf(it.fields).value, it.depth) == Ok(c.edges))
      && Coherent(c)
  {
    var c := Get(it.fields, Children);
    if c.Some? && c.value.JArr? {
      EdgeRule(c.value.items, IdOf(it.fields).value, it.depth);
    }
  }

  /** What each item contributes, in order. */
  function Contributions(items: seq<Item>): (rs: seq<Result<Contribution, Error>>)
    ensures |rs| == |items|
    ensures forall m :: 0 <= m < |items| ==> rs[m] == Contribute(items[m])
  {
    seq(|items|, m requires 0 <= m < |items| => Contribute(items[m]))
  }

  /** `nodelist` after the outer loop has run over `items`, or the exception
      that stopped it. */
  function NodeRows(items: seq<Item>): Result<seq<Node>, Error> {
    Run(Contributions(items))
  }

  /** The flattening loop of main.py:114-131, appending to `nodelist` as the
      script does. */
  method BuildNodes(items: seq<Item>) returns (r: Result<seq<Node>, Error>)
    ensures r == NodeRows(items)
  {
    ghost var rs := Contributions(items);
    var nodes: seq<Node> := [];
    assert rs[..0] == [];
    for i := 0 to |items|
      invariant Run(rs[..i]) == Ok(nodes)
    {
      assert rs[..i + 1][..i] == rs[..i];
      var next := ProcessItem(nodes, items[i]);
      if next.Err? {
        RunErrorPersists(rs, i + 1);
        return next;
      }
      nodes := next.value;
    }
    assert rs[..|items|] == rs;
    r := Ok(nodes);
  }

  /** The body of the outer loop (main.py:116-131) for one dict. */
  method ProcessItem(nodes: seq<Node>, item: Item) returns (r: Result<seq<Node>, Error>)
    ensures r == Step(nodes, Contribute(item))
  {
    var id := IdOf(item.fields);
    if id.Err? {
      return Err(id.error);
    }
    var grown := nodes;
    var parentNode := Node(id.value, item.depth, None, ValueOf(item.fields));
    if !Contains(grown, parentNode) {
      grown := grown + [parentNode];
    }
    var children := Get(item.fields, Children);
    if children.None? {
      assert grown + [] == grown;
      return Ok(grown);
    }
    r := AppendChildren(grown, children.value, id.value, item.depth);
  }

  /** Line 125 applied to the value under "children": appends its edges to
      `nodes`, or reports the exception iterating it raises. */
  method AppendChildren(nodes: seq<Node>, c: Json, parentId: string, generation: nat)
    returns (r: Result<seq<Node>, Error>)
    ensures r == match ChildEdges(c, parentId, generation)
                 case Ok(es) => Ok(nodes + es)
                 case Err(e) => Err(e)
  {
    match c {
      case JArr(xs) =>
        r := AppendEdgeRows(nodes, xs, parentId, generation);
      case JObj(fs) =>
        if fs != [] { return Err(ChildNotObject); }
        assert nodes + [] == nodes;
        return Ok(nodes);
      case JStr(s) =>
        if s != [] { return Err(ChildNotObject); }
        assert nodes + [] == nodes;
        return Ok(nodes);
      case JNull =>
        return Err(NotIterable);
      case JBool(_) =>
        return Err(NotIterable);
      case JNum(_) =>
        return Err(NotIterable);
    }
  }

  /** The inner loop of main.py:125-131 over a "children" list. */
  method AppendEdgeRows(nodes: seq<Node>, xs: seq<Json>, parentId: string, generation: nat)
    returns (r: Result<seq<Node>, Error>)
    ensures r == match EdgeRows(xs, parentId, generation)
                 case Ok(es) => Ok(nodes + es)
                 case Err(e) => Err(e)
  {
    var acc := nodes;
    var k := 0;
    assert xs[..0] == [] && acc[|nodes|..] == [];
    while k < |xs|
      invariant 0 <= k <= |xs|
      invariant |nodes| <= |acc| && acc[..|nodes|] == nodes
      invariant EdgeRows(xs[..k], parentId, generation) == Ok(acc[|nodes|..])
    {
      assert xs[..k + 1][..k] == xs[..k];
      var child := EdgeOf(xs[k], parentId, generation);
      if child.Err? {
        EdgeErrorPersists(xs, k + 1, parentId, generation);
        return Err(child.error);
      }
      ghost var before := acc;
      acc := acc + [child.value];
      assert acc[|nodes|..] == before[|nodes|..] + [child.value];
      k := k + 1;
    }
    assert xs[..|xs|] == xs;
    assert acc == nodes + acc[|nodes|..];
    return Ok(acc);
  }

  /** Once the inner loop has raised, the result is that exception. */
  lemma {:induction false} EdgeErrorPersists(xs: seq<Json>, n: nat, parentId: string, generation: nat)
    requires n <= |xs|
    requires EdgeRows(xs[..n], parentId, generation).Err?
    ensures EdgeRows(xs, parentId, generation) == EdgeRows(xs[..n], parentId, generation)
    decreases |xs| - n
  {
    if n < |xs| {
      assert xs[..n + 1][..n] == xs[..n];
      EdgeErrorPersists(xs, n + 1, parentId, generation);
    } else {
      assert xs[..n] == xs;
    }
  }

  /** The loop raises exactly when some dict raises, and then the exception
      is the first such dict's; when it goes through, `nodelist` is what the
      contributions of the dicts, in order, build. */
  lemma NodeRowsOutcome(items: seq<Item>)
    ensures NodeRows(items).Ok? <==> forall m :: 0 <= m < |items| ==> Contribute(items[m]).Ok?
    ensures NodeRows(items).Err? ==>
      exists m :: 0 <= m < |items| && Contribute(items[m]) == Err(NodeRows(items).error) &&
        forall l :: 0 <= l < m ==> Contribute(items[l]).Ok?
    ensures NodeRows(items).Ok? ==> NodeRows(items).value == Collect(Values(Contributions(items)))
  {
    RunOutcome(Contributions(items));
  }

  /** The contributions of items that all go through are all `Coherent`. */
  lemma AllContributionsCoherent(items: seq<Item>)
    requires AllOk(Contributions(items))
    ensures AllCoherent(Values(Contributions(items)))
  {
    var cs := Values(Contributions(items));
    forall m | 0 <= m < |cs| ensures Coherent(cs[m]) {
      ContributeShape(items[m]);
    }
  }

  /** Container rule: a container row is registered only when no earlier row,
      container or edge, has its id (`Node.__eq__` compares ids alone), and
      it is the container of one of the processed dicts; every processed
      dict's id ends up among the rows. */
  lemma ContainerRule(items: seq<Item>)
    requires NodeRows(items).Ok?
    ensures var ns := NodeRows(items).value;
      && FirstOfTheirId(ns)
      && (forall i :: 0 <= i < |ns| && ns[i].parent.None? ==>
            exists m :: 0 <= m < |items| && Contribute(items[m]).Ok? &&
              ns[i] == Contribute(items[m]).value.container)
      && (forall m :: 0 <= m < |items| ==>
            IdOf(items[m].fields).Ok? &&
            exists j :: 0 <= j < |ns| && ns[j].id == IdOf(items[m].fields).value)
  {
    var rs := Contributions(items);
    RunOutcome(rs);
    var cs := Values(rs);
    AllContributionsCoherent(items);
    CollectContainers(cs);
    CollectRegisters(cs);
    forall m | 0 <= m < |items|
      ensures IdOf(items[m].fields).Ok? &&
        exists j :: 0 <= j < |NodeRows(items).value| && NodeRows(items).value[j].id == IdOf(items[m].fields).value
    {
      ContributeShape(items[m]);
      assert Contains(Collect(cs), cs[m].container);
    }
  }

  /** Some dict before the `m`-th has the same "@id". */
  predicate EarlierId(items: seq<Item>, m: nat)
    requires m < |items|
  {
    exists l :: 0 <= l < m && IdOf(items[l].fields) == IdOf(items[m].fields)
  }

  /** Container rule, the other direction: when the `m`-th dict's turn
      comes, its container is appended exactly when no earlier dict has its
      id and no edge row so far has it either; its edges follow in either
      case. */
  lemma ContainerAppended(items: seq<Item>, m: nat)
    requires NodeRows(items).Ok? && m < |items|
    ensures
      && NodeRows(items[..m]).Ok? && Contribute(items[m]).Ok?
      && var before := NodeRows(items[..m]).value;
         var c := Contribute(items[m]).value;
         var unseen := !EarlierId(items, m) && !Contains(EdgeNodes(before), c.container);
         NodeRows(items[..m + 1]) == Ok(before + (if unseen then [c.container] else []) + c.edges)
  {
    var rs := Contributions(items);
    RunOutcome(rs);
    var cs := Values(rs);
    PrefixRows(items, m);
    PrefixRows(items, m + 1);
    var head := cs[..m];
    assert cs[..m + 1][..m] == head;
    RegisterRule(cs, m);
    PrefixEdges(items, m);
    IdsMatch(items, m);
  }

  /** The edge rows built over a prefix are the prefix's edges. */
  lemma PrefixEdges(items: seq<Item>, m: nat)
    requires AllOk(Contributions(items)) && m <= |items|
    ensures EdgeNodes(Collect(Values(Contributions(items))[..m])) == Edges(Values(Contributions(items))[..m])
  {
    var cs := Values(Contributions(items));
    AllContributionsCoherent(items);
    assert forall l :: 0 <= l < m ==> cs[..m][l] == cs[l];
    CollectEdges(cs[..m]);
  }

  /** An earlier container carries the `m`-th dict's id exactly when an
      earlier dict has its "@id". */
  lemma IdsMatch(items: seq<Item>, m: nat)
    requires AllOk(Contributions(items)) && m < |items|
    ensures ContainerIdIn(Values(Contributions(items))[..m], Contribute(items[m]).value.container.id) <==>
      EarlierId(items, m)
  {
    var cs := Values(Contributions(items));
    ContributeShape(items[m]);
    var id := cs[m].container.id;
    if ContainerIdIn(cs[..m], id) {
      var l :| 0 <= l < m && cs[..m][l].container.id == id;
      ContributeShape(items[l]);
      assert IdOf(items[l].fields) == IdOf(items[m].fields);
    }
    if EarlierId(items, m) {
      var l :| 0 <= l < m && IdOf(items[l].fields) == IdOf(items[m].fields);
      ContributeShape(items[l]);
      assert cs[..m][l].container.id == id;
    }
  }

  /** The loop run over a prefix of the dicts builds the fold of the prefix of
      their contributions. */
  lemma PrefixRows(items: seq<Item>, n: nat)
    requires AllOk(Contributions(items)) && n <= |items|
    ensures Contributions(items[..n]) == Contributions(items)[..n]
    ensures AllOk(Contributions(items[..n]))
    ensures Values(Contributions(items[..n])) == Values(Contributions(items))[..n]
    ensures NodeRows(items[..n]) == Ok(Collect(Values(Contributions(items))[..n]))
  {
    var rs := Contributions(items);
    assert Contributions(items[..n]) == rs[..n];
    var vs := Values(rs[..n]);
    assert forall k :: 0 <= k < n ==> rs[..n][k] == Ok(vs[k]);
    assert vs == Values(rs)[..n];
    RunValue(rs[..n]);
  }

  /** No forward parent references: every edge's parent is the id of some
      earlier row. */
  lemma ParentsRule(items: seq<Item>)
    requires NodeRows(items).Ok?
    ensures ParentsPrecede(NodeRows(items).value)
  {
    RunOutcome(Contributions(items));
    AllContributionsCoherent(items);
    CollectParentsPrecede(Values(Contributions(items)));
  }

  /** Edge rule over the whole loop: the edge rows, in order, are exactly
      the edges of the processed dicts, one dict after another. */
  lemma EdgeSplit(items: seq<Item>)
    requires NodeRows(items).Ok?
    ensures AllOk(Contributions(items))
    ensures EdgeNodes(NodeRows(items).value) == Edges(Values(Contributions(items)))
  {
    RunOutcome(Contributions(items));
    AllContributionsCoherent(items);
    CollectEdges(Values(Contributions(items)));
  }
}
