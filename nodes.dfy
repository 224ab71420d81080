/** The `Node` record (main.py:6-14) and the way the flattening loop grows
    `nodelist` (main.py:120-131), independently of how a dict is read. */
module Nodes {
  import opened JsonValues

  /** `Node(id, generation, parent, value)`; `parent` is `None` for a container. */
  datatype Node = Node(id: string, generation: nat, parent: Option<string>, value: Json)

  /** `Node.__eq__`: two nodes are equal when their ids are, whatever their
      generation, parent and value. */
  predicate SameNode(a: Node, b: Node) {
    a.id == b.id
  }

  /** `probe in nodes` under `Node.__eq__`. */
  predicate Contains(nodes: seq<Node>, probe: Node)
    ensures Contains(nodes, probe) <==> exists k :: 0 <= k < |nodes| && SameNode(nodes[k], probe)
  {
    if nodes == [] then false
    else
      var init := nodes[..|nodes| - 1];
      assert forall k :: 0 <= k < |init| ==> init[k] == nodes[k];
      SameNode(nodes[|nodes| - 1], probe) || Contains(init, probe)
  }

  /** `if node not in nodes: nodes.append(node)` (main.py:120-122). */
  function Register(nodes: seq<Node>, node: Node): seq<Node> {
    if Contains(nodes, node) then nodes else nodes + [node]
  }

  /** What one processed dict adds: the container it may register and the
      edges of its children. */
  datatype Contribution = Contribution(container: Node, edges: seq<Node>)

  /** The container has no parent; every edge names the container's id as
      parent and carries its generation. */
  predicate Coherent(c: Contribution) {
    && c.container.parent.None?
    && forall k :: 0 <= k < |c.edges| ==>
         c.edges[k].parent == Some(c.container.id) && c.edges[k].generation == c.container.generation
  }

  predicate AllCoherent(cs: seq<Contribution>) {
    forall m :: 0 <= m < |cs| ==> Coherent(cs[m])
  }

  /** `nodelist` after the dicts with contributions `cs` have gone through. */
  function Collect(cs: seq<Contribution>): seq<Node> {
    if cs == [] then []
    else Register(Collect(cs[..|cs| - 1]), cs[|cs| - 1].container) + cs[|cs| - 1].edges
  }

  /** One pass of the loop body given what the dict contributes: the
      container is registered unless an equal node is already there, then
      the edges are appended; a dict that raises stops the loop. */
  function Step<E>(nodes: seq<Node>, r: Result<Contribution, E>): Result<seq<Node>, E> {
    match r
    case Err(e) => Err(e)
    case Ok(c) => Ok(Register(nodes, c.container) + c.edges)
  }

  /** The loop over dicts whose contributions, or exceptions, are `rs`. */
  function Run<E>(rs: seq<Result<Contribution, E>>): Result<seq<Node>, E> {
    if rs == [] then Ok([])
    else
      match Run(rs[..|rs| - 1])
      case Err(e) => Err(e)
      case Ok(nodes) => Step(nodes, rs[|rs| - 1])
  }

  predicate AllOk<E>(rs: seq<Result<Contribution, E>>) {
    forall m :: 0 <= m < |rs| ==> rs[m].Ok?
  }

  /** The contributions of dicts that all go through. */
  function Values<E>(rs: seq<Result<Contribution, E>>): (cs: seq<Contribution>)
    requires AllOk(rs)
    ensures |cs| == |rs|
    ensures forall m :: 0 <= m < |rs| ==> rs[m] == Ok(cs[m])
  {
    if rs == [] then []
    else
      var init := rs[..|rs| - 1];
      assert forall k :: 0 <= k < |init| ==> init[k] == rs[k];
      Values(init) + [rs[|rs| - 1].value]
  }

  /** The loop raises exactly when some dict raises, and then the exception
      is the first such dict's; when it goes through, the rows are what the
      contributions build. */
  lemma RunOutcome<E>(rs: seq<Result<Contribution, E>>)
    ensures Run(rs).Ok? <==> AllOk(rs)
    ensures Run(rs).Err? ==>
      exists m :: 0 <= m < |rs| && rs[m] == Err(Run(rs).error) &&
        forall l :: 0 <= l < m ==> rs[l].Ok?
    ensures Run(rs).Ok? ==> Run(rs).value == Collect(Values(rs))
  {
    RunFails(rs);
    if Run(rs).Ok? {
      RunValue(rs);
    }
  }

  lemma {:induction false} RunFails<E>(rs: seq<Result<Contribution, E>>)
    ensures Run(rs).Ok? <==> AllOk(rs)
    ensures Run(rs).Err? ==>
      exists m :: 0 <= m < |rs| && rs[m] == Err(Run(rs).error) &&
        forall l :: 0 <= l < m ==> rs[l].Ok?
  {
    if rs != [] {
      var init := rs[..|rs| - 1];
      RunFails(init);
      RunFailsStep(rs);
    }
  }

  lemma RunFailsStep<E>(rs: seq<Result<Contribution, E>>)
    requires rs != []
    requires var init := rs[..|rs| - 1];
      && (Run(init).Ok? <==> AllOk(init))
      && (Run(init).Err? ==>
            exists m :: 0 <= m < |init| && init[m] == Err(Run(init).error) &&
              forall l :: 0 <= l < m ==> init[l].Ok?)
    ensures Run(rs).Ok? <==> AllOk(rs)
    ensures Run(rs).Err? ==>
      exists m :: 0 <= m < |rs| && rs[m] == Err(Run(rs).error) &&
        forall l :: 0 <= l < m ==> rs[l].Ok?
  {
    var init, last := rs[..|rs| - 1], rs[|rs| - 1];
    assert forall k :: 0 <= k < |init| ==> init[k] == rs[k];
    if Run(init).Err? {
      var m :| 0 <= m < |init| && init[m] == Err(Run(init).error) &&
        forall l :: 0 <= l < m ==> init[l].Ok?;
      assert Run(rs) == Run(init);
      assert rs[m] == Err(Run(rs).error);
    } else if last.Err? {
      assert Run(rs) == Err(last.error);
    } else {
      assert Run(rs).Ok?;
    }
  }

  lemma {:induction false} RunValue<E>(rs: seq<Result<Contribution, E>>)
    requires AllOk(rs)
    ensures Run(rs) == Ok(Collect(Values(rs)))
  {
    if rs != [] {
      var init := rs[..|rs| - 1];
      assert forall k :: 0 <= k < |init| ==> init[k] == rs[k];
      RunValue(init);
      var cs := Values(rs);
      assert cs[..|cs| - 1] == Values(init);
    }
  }

  /** Once the loop has raised, the result is that exception. */
  lemma {:induction false} RunErrorPersists<E>(rs: seq<Result<Contribution, E>>, n: nat)
    requires n <= |rs|
    requires Run(rs[..n]).Err?
    ensures Run(rs) == Run(rs[..n])
    decreases |rs| - n
  {
    if n < |rs| {
      assert rs[..n + 1][..n] == rs[..n];
      RunErrorPersists(rs, n + 1);
    } else {
      assert rs[..n] == rs;
    }
  }

  /** All edges, one contribution after another. */
  function Edges(cs: seq<Contribution>): seq<Node> {
    if cs == [] then [] else Edges(cs[..|cs| - 1]) + cs[|cs| - 1].edges
  }

  /** The edge rows of `nodes` (those with a parent), in order. */
  function EdgeNodes(nodes: seq<Node>): seq<Node> {
    if nodes == [] then []
    else EdgeNodes(nodes[..|nodes| - 1]) + (if nodes[|nodes| - 1].parent.Some? then [nodes[|nodes| - 1]] else [])
  }

  lemma {:induction false} EdgeNodesAppend(a: seq<Node>, b: seq<Node>)
    ensures EdgeNodes(a + b) == EdgeNodes(a) + EdgeNodes(b)
    decreases |b|
  {
    if b == [] {
      assert a + b == a;
    } else {
      assert (a + b)[..|a + b| - 1] == a + b[..|b| - 1];
      EdgeNodesAppend(a, b[..|b| - 1]);
    }
  }

  lemma {:induction false} EdgeNodesOfEdges(es: seq<Node>)
    requires forall k :: 0 <= k < |es| ==> es[k].parent.Some?
    ensures EdgeNodes(es) == es
  {
    if es != [] {
      var init := es[..|es| - 1];
      assert forall k :: 0 <= k < |init| ==> init[k] == es[k];
      EdgeNodesOfEdges(init);
      assert init + [es[|es| - 1]] == es;
    }
  }

  /** The list only grows: the rows after a prefix of the contributions are a
      prefix of the final rows. */
  lemma {:induction false} CollectGrows(cs: seq<Contribution>, n: nat)
    requires n <= |cs|
    ensures |Collect(cs[..n])| <= |Collect(cs)|
    ensures Collect(cs[..n]) == Collect(cs)[..|Collect(cs[..n])|]
    decreases |cs| - n
  {
    if n == |cs| {
      assert cs[..n] == cs;
    } else {
      var init := cs[..|cs| - 1];
      assert init[..n] == cs[..n];
      CollectGrows(init, n);
    }
  }

  /** The first dict to go through always registers its container, as the
      first row. */
  lemma CollectFirst(cs: seq<Contribution>)
    requires cs != []
    ensures |Collect(cs)| > 0 && Collect(cs)[0] == cs[0].container
  {
    CollectGrows(cs, 1);
    var first := cs[..1];
    assert first[..0] == [];
    assert Collect(first) == [cs[0].container] + cs[0].edges;
  }

  /** No container row repeats the id of an earlier row. */
  predicate FirstOfTheirId(ns: seq<Node>) {
    forall i, j :: 0 <= j < i < |ns| && ns[i].parent.None? ==> ns[j].id != ns[i].id
  }

  /** Every edge row names as parent the id of some earlier row. */
  predicate ParentsPrecede(ns: seq<Node>) {
    forall i :: 0 <= i < |ns| && ns[i].parent.Some? ==>
      exists j :: 0 <= j < i && ns[j].id == ns[i].parent.value
  }

  lemma ContainsAppend(a: seq<Node>, b: seq<Node>, probe: Node)
    requires Contains(a, probe)
    ensures Contains(a + b, probe)
  {
    var k :| 0 <= k < |a| && SameNode(a[k], probe);
    assert (a + b)[k] == a[k];
  }

  /** One pass of the loop body keeps `FirstOfTheirId`, registers the
      container's id, and appends no container other than the contributed one. */
  lemma ContainerStep(before: seq<Node>, c: Contribution)
    requires Coherent(c) && FirstOfTheirId(before)
    ensures var ns := Register(before, c.container) + c.edges;
      && FirstOfTheirId(ns)
      && Contains(ns, c.container)
      && |before| <= |ns| && ns[..|before|] == before
      && forall i :: |before| <= i < |ns| && ns[i].parent.None? ==> ns[i] == c.container
  {
    var grown := Register(before, c.container);
    var ns := grown + c.edges;
    assert ns[..|before|] == before;
    forall i | |grown| <= i < |ns| ensures ns[i].parent.Some? {
      assert ns[i] == c.edges[i - |grown|];
    }
    if !Contains(before, c.container) {
      assert ns[|before|] == c.container;
      forall j | 0 <= j < |before| ensures ns[j].id != c.container.id {
        assert ns[j] == before[j];
        assert !SameNode(before[j], c.container);
      }
    } else {
      ContainsAppend(before, c.edges, c.container);
    }
  }

  /** Container rule: a container row is appended only when no earlier row,
      container or edge, has its id, and it is one of the contributed
      containers. */
  lemma {:induction false} CollectContainers(cs: seq<Contribution>)
    requires AllCoherent(cs)
    ensures var ns := Collect(cs);
      && FirstOfTheirId(ns)
      && (forall i :: 0 <= i < |ns| && ns[i].parent.None? ==>
            exists m :: 0 <= m < |cs| && ns[i] == cs[m].container)
  {
    if cs != [] {
      var init := cs[..|cs| - 1];
      assert forall k :: 0 <= k < |init| ==> init[k] == cs[k];
      CollectContainers(init);
      var before := Collect(init);
      ContainerStep(before, cs[|cs| - 1]);
      var ns := Collect(cs);
      forall i | 0 <= i < |ns| && ns[i].parent.None?
        ensures exists m :: 0 <= m < |cs| && ns[i] == cs[m].container
      {
        if i < |before| {
          assert ns[i] == before[i];
          var m :| 0 <= m < |init| && before[i] == init[m].container;
          assert ns[i] == cs[m].container;
        } else {
          assert ns[i] == cs[|cs| - 1].container;
        }
      }
    }
  }

  /** Every contributed container's id ends up among the rows. */
  lemma {:induction false} CollectRegisters(cs: seq<Contribution>)
    ensures forall m :: 0 <= m < |cs| ==> Contains(Collect(cs), cs[m].container)
  {
    if cs != [] {
      var init, last := cs[..|cs| - 1], cs[|cs| - 1];
      CollectRegisters(init);
      var before := Collect(init);
      var ns := Collect(cs);
      RegisterKeeps(before, last.container, last.edges);
      forall m | 0 <= m < |init| ensures Contains(ns, cs[m].container) {
        assert Contains(before, init[m].container);
        ContainsAppend(before, ns[|before|..], cs[m].container);
      }
    }
  }

  lemma ContainsConcat(a: seq<Node>, b: seq<Node>, probe: Node)
    ensures Contains(a + b, probe) <==> Contains(a, probe) || Contains(b, probe)
  {
    if Contains(a + b, probe) {
      var k :| 0 <= k < |a + b| && SameNode((a + b)[k], probe);
      if k >= |a| {
        assert (a + b)[k] == b[k - |a|];
      }
    }
    if Contains(b, probe) {
      var k :| 0 <= k < |b| && SameNode(b[k], probe);
      assert (a + b)[|a| + k] == b[k];
    }
    if Contains(a, probe) {
      ContainsAppend(a, b, probe);
    }
  }

  /** Some contribution's container carries the id `id`. */
  predicate ContainerIdIn(cs: seq<Contribution>, id: string) {
    exists l :: 0 <= l < |cs| && cs[l].container.id == id
  }

  /** The rows hold a node's id exactly when some processed dict's container
      or some contributed edge carries it. */
  lemma {:induction false} CollectIds(cs: seq<Contribution>, probe: Node)
    ensures Contains(Collect(cs), probe) <==> ContainerIdIn(cs, probe.id) || Contains(Edges(cs), probe)
  {
    if cs != [] {
      var init, last := cs[..|cs| - 1], cs[|cs| - 1];
      CollectIds(init, probe);
      var before := Collect(init);
      var grown := Register(before, last.container);
      ContainsConcat(grown, last.edges, probe);
      ContainsConcat(Edges(init), last.edges, probe);
      if Contains(before, last.container) {
        if last.container.id == probe.id {
          var k :| 0 <= k < |before| && SameNode(before[k], last.container);
          assert SameNode(before[k], probe);
        }
      } else {
        ContainsConcat(before, [last.container], probe);
        assert Contains([last.container], probe) <==> last.container.id == probe.id by {
          assert [last.container][0] == last.container;
        }
      }
      ContainerIdSnoc(cs, probe.id);
    }
  }

  lemma ContainerIdSnoc(cs: seq<Contribution>, id: string)
    requires cs != []
    ensures ContainerIdIn(cs, id) <==> ContainerIdIn(cs[..|cs| - 1], id) || cs[|cs| - 1].container.id == id
  {
    var init := cs[..|cs| - 1];
    if ContainerIdIn(cs, id) {
      var l :| 0 <= l < |cs| && cs[l].container.id == id;
      if l < |init| {
        assert init[l] == cs[l];
      }
    }
    if ContainerIdIn(init, id) {
      var l :| 0 <= l < |init| && init[l].container.id == id;
      assert cs[l] == init[l];
    }
  }

  /** Container rule, both directions: the `m`-th dict's container is
      appended, right after the rows built so far, exactly when no earlier
      dict's container and no earlier edge carries its id; its edges follow
      in either case. */
  lemma RegisterRule(cs: seq<Contribution>, m: nat)
    requires m < |cs|
    ensures var c := cs[m].container;
      Collect(cs[..m + 1]) ==
        Collect(cs[..m]) +
        (if !ContainerIdIn(cs[..m], c.id) && !Contains(Edges(cs[..m]), c) then [c] else []) +
        cs[m].edges
  {
    var upto := cs[..m + 1];
    assert upto[..m] == cs[..m] && upto[m] == cs[m];
    CollectIds(cs[..m], cs[m].container);
  }

  /** Registering `x` and appending `es` keeps `before` as a prefix and
      leaves `x`'s id present. */
  lemma RegisterKeeps(before: seq<Node>, x: Node, es: seq<Node>)
    ensures var ns := Register(before, x) + es;
      && |before| <= |ns| && before + ns[|before|..] == ns
      && Contains(ns, x)
  {
    var grown := Register(before, x);
    var ns := grown + es;
    if Contains(before, x) {
      ContainsAppend(before, es, x);
    } else {
      assert ns[|before|] == x;
    }
    assert before + ns[|before|..] == ns;
  }

  /** One pass of the loop body keeps `ParentsPrecede`. */
  lemma ParentsStep(before: seq<Node>, c: Contribution)
    requires Coherent(c) && ParentsPrecede(before)
    ensures ParentsPrecede(Register(before, c.container) + c.edges)
  {
    var grown := Register(before, c.container);
    var ns := grown + c.edges;
    // some row of `grown` carries the container's id
    var w :| 0 <= w < |grown| && grown[w].id == c.container.id by {
      if Contains(before, c.container) {
        var j :| 0 <= j < |before| && SameNode(before[j], c.container);
        assert grown[j].id == c.container.id;
      } else {
        assert grown[|before|] == c.container;
      }
    }
    forall i | 0 <= i < |ns| && ns[i].parent.Some?
      ensures exists j :: 0 <= j < i && ns[j].id == ns[i].parent.value
    {
      if i < |before| {
        assert ns[i] == before[i];
        var j :| 0 <= j < i && before[j].id == before[i].parent.value;
        assert ns[j] == before[j];
      } else {
        assert i >= |grown| && ns[i] == c.edges[i - |grown|];
        assert ns[w] == grown[w];
      }
    }
  }

  /** No forward parent references: every edge's parent is the id of some
      earlier row. */
  lemma {:induction false} CollectParentsPrecede(cs: seq<Contribution>)
    requires AllCoherent(cs)
    ensures ParentsPrecede(Collect(cs))
  {
    if cs != [] {
      var init := cs[..|cs| - 1];
      assert forall k :: 0 <= k < |init| ==> init[k] == cs[k];
      CollectParentsPrecede(init);
      ParentsStep(Collect(init), cs[|cs| - 1]);
    }
  }

  /** One pass of the loop body adds exactly the contributed edges to the
      edge rows. */
  lemma EdgesStep(before: seq<Node>, c: Contribution)
    requires Coherent(c)
    ensures EdgeNodes(Register(before, c.container) + c.edges) == EdgeNodes(before) + c.edges
  {
    var added := if Contains(before, c.container) then [] else [c.container];
    assert Register(before, c.container) == before + added;
    EdgeNodesAppend(before, added);
    assert EdgeNodes(added) == [] by {
      if added != [] {
        assert added[..0] == [];
      }
    }
    EdgeNodesAppend(before + added, c.edges);
    EdgeNodesOfEdges(c.edges);
    assert before + added == before || added == [c.container];
  }

  /** Edge rule over the whole loop: the edge rows, in order, are the
      contributed edges, one contribution after another. */
  lemma {:induction false} CollectEdges(cs: seq<Contribution>)
    requires AllCoherent(cs)
    ensures EdgeNodes(Collect(cs)) == Edges(cs)
  {
    if cs != [] {
      var init := cs[..|cs| - 1];
      assert forall k :: 0 <= k < |init| ==> init[k] == cs[k];
      CollectEdges(init);
      EdgesStep(Collect(init), cs[|cs| - 1]);
    }
  }

  /** When every contribution after the first carries the id of an edge
      contributed before it, only the first container is ever registered:
      the rows are that container followed by all the edges. */
  lemma {:induction false} OnlyFirstContainer(cs: seq<Contribution>)
    requires cs != []
    requires forall m :: 0 < m < |cs| ==> Contains(Edges(cs[..m]), cs[m].container)
    ensures Collect(cs) == [cs[0].container] + Edges(cs)
  {
    if |cs| == 1 {
      assert cs[..0] == [];
      assert Edges(cs) == Edges(cs[..0]) + cs[0].edges;
    } else {
      var init := cs[..|cs| - 1];
      forall m | 0 < m < |init| ensures Contains(Edges(init[..m]), init[m].container) {
        assert init[..m] == cs[..m];
      }
      OnlyFirstContainer(init);
      assert init[0] == cs[0];
      SkipRegistered([cs[0].container], Edges(init), cs[|cs| - 1]);
    }
  }

  /** A container whose id is among the edges already present adds only its
      edges. */
  lemma SkipRegistered(head: seq<Node>, es: seq<Node>, c: Contribution)
    requires Contains(es, c.container)
    ensures Register(head + es, c.container) + c.edges == head + (es + c.edges)
  {
    var k :| 0 <= k < |es| && SameNode(es[k], c.container);
    assert (head + es)[|head| + k] == es[k];
  }

  lemma {:induction false} EdgesGrow(cs: seq<Contribution>, n: nat)
    requires n <= |cs|
    ensures |Edges(cs[..n])| <= |Edges(cs)|
    ensures Edges(cs[..n]) == Edges(cs)[..|Edges(cs[..n])|]
    decreases |cs| - n
  {
    if n == |cs| {
      assert cs[..n] == cs;
    } else {
      var init := cs[..|cs| - 1];
      assert init[..n] == cs[..n];
      EdgesGrow(init, n);
    }
  }

  /** An edge contributed by an earlier dict is among the edges so far. */
  lemma EarlierEdge(cs: seq<Contribution>, l: nat, m: nat, k: nat)
    requires l < m <= |cs| && k < |cs[l].edges|
    ensures Contains(Edges(cs[..m]), cs[l].edges[k])
  {
    var pre := cs[..m];
    EdgesGrow(pre, l + 1);
    var upto := cs[..l + 1];
    assert pre[..l + 1] == upto;
    assert upto[..l] == cs[..l] && upto[l] == cs[l];
    var i := |Edges(cs[..l])| + k;
    assert Edges(upto)[i] == cs[l].edges[k];
    assert Edges(pre)[i] == cs[l].edges[k];
  }
}
