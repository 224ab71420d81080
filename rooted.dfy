/** A tree whose root is a dict and whose every dict goes through: only the
    root becomes a container row, and there is one row per dict the walk
    yields. */
module RootedTree {
  import opened JsonValues
  import opened TreeWalk
  import opened DepthSort
  import opened Nodes
  import opened Rows
  import opened Pipeline

  /** How many edge rows one dict contributes. */
  function Fanout(it: Item): nat {
    match Contribute(it)
    case Ok(c) => |c.edges|
    case Err(_) => 0
  }

  /** How many edge rows the dicts of `s` contribute together. */
  function EdgeCount(s: seq<Item>): nat {
    if s == [] then 0 else EdgeCount(s[..|s| - 1]) + Fanout(s[|s| - 1])
  }

  lemma {:induction false} EdgeCountAppend(a: seq<Item>, b: seq<Item>)
    ensures EdgeCount(a + b) == EdgeCount(a) + EdgeCount(b)
    decreases |b|
  {
    if b == [] {
      assert a + b == a;
    } else {
      assert (a + b)[..|a + b| - 1] == a + b[..|b| - 1];
      EdgeCountAppend(a, b[..|b| - 1]);
    }
  }

  lemma {:induction false} EdgeCountInsert(x: Item, s: seq<Item>)
    ensures EdgeCount(Insert(x, s)) == EdgeCount(s) + Fanout(x)
  {
    if s == [] || s[|s| - 1].depth <= x.depth {
      assert (s + [x])[..|s|] == s;
    } else {
      var init, last := s[..|s| - 1], s[|s| - 1];
      EdgeCountInsert(x, init);
      var r := Insert(x, init);
      assert (r + [last])[..|r|] == r;
    }
  }

  /** Sorting by depth does not change how many edges the dicts contribute. */
  lemma {:induction false} EdgeCountSort(s: seq<Item>)
    ensures EdgeCount(SortByDepth(s)) == EdgeCount(s)
  {
    if s != [] {
      var init := s[..|s| - 1];
      EdgeCountSort(init);
      EdgeCountInsert(s[|s| - 1], SortByDepth(init));
    }
  }

  /** The edges of dicts that all go through number `EdgeCount`. */
  lemma {:induction false} EdgesLength(items: seq<Item>)
    requires AllOk(Contributions(items))
    ensures |Edges(Values(Contributions(items)))| == EdgeCount(items)
  {
    if items != [] {
      var n := |items| - 1;
      var init := items[..n];
      PrefixRows(items, n);
      EdgesLength(init);
      var cs := Values(Contributions(items));
      assert Contributions(items)[n] == Ok(cs[n]);
    }
  }

  /** Every dict of `w` goes through and has distinct keys. */
  predicate Proper(w: seq<Item>) {
    forall it :: it in w ==> Contribute(it).Ok? && DistinctKeys(it.fields)
  }

  /** With distinct keys, the pair loop walks only the value under the one
      "children" key, if there is one. */
  lemma {:induction false} WalkFieldsFrom(fs: Fields, i: nat, d: nat)
    requires DistinctKeys(fs) && i <= |fs|
    ensures WalkFields(fs, i, d) == match Get(fs[i..], Children)
                                    case None => []
                                    case Some(v) => Walk(v, d + 1)
    decreases |fs| - i
  {
    if i == |fs| {
      assert fs[i..] == [];
    } else {
      assert fs[i..][1..] == fs[i + 1..];
      WalkFieldsFrom(fs, i + 1, d);
      if fs[i].0 == Children {
        var rest := fs[i + 1..];
        forall k | 0 <= k < |rest| ensures rest[k].0 != Children {
          assert rest[k] == fs[i + 1 + k];
        }
        GetSpec(rest, Children);
        assert WalkFields(fs, i + 1, d) == [];
      }
    }
  }

  /** The walk of an empty dict yields it, and it has no "@id". */
  lemma EmptyDict(d: nat)
    ensures Walk(JObj([]), d) == [Item(d, [])]
    ensures Contribute(Item(d, [])) == Err(MissingId)
  {
  }

  /** Each dict but the root is its parent's edge: the edges of a proper
      dict's walk number one fewer than its items. */
  lemma {:induction false} DictEdgeCount(fs: Fields, d: nat)
    requires Proper(Walk(JObj(fs), d))
    ensures EdgeCount(Walk(JObj(fs), d)) + 1 == |Walk(JObj(fs), d)|
    decreases JObj(fs)
  {
    var it := Item(d, fs);
    var below := WalkFields(fs, 0, d);
    assert it in below + [it];
    WalkFieldsFrom(fs, 0, d);
    assert fs[0..] == fs;
    ContributeShape(it);
    EdgeCountAppend(below, [it]);
    assert [it][..0] == [];
    var g := Get(fs, Children);
    if g.Some? {
      GetSpec(fs, Children);
      var k :| 0 <= k < |fs| && fs[k] == (Children, g.value);
      assert forall x :: x in below ==> x in below + [it];
      ChildrenCount(fs[k].1, IdOf(fs).value, d, Contribute(it).value.edges);
    }
  }

  /** The value under "children" of a proper dict at depth `d`: its walk
      yields one dict per edge it contributes, plus what lies beneath them. */
  lemma {:induction false} ChildrenCount(v: Json, id: string, d: nat, edges: seq<Node>)
    requires ChildEdges(v, id, d) == Ok(edges)
    requires Proper(Walk(v, d + 1))
    ensures EdgeCount(Walk(v, d + 1)) + |edges| == |Walk(v, d + 1)|
    decreases v, 1
  {
    if v.JArr? {
      EdgeRule(v.items, id, d);
      ListEdgeCount(v.items, 0, d + 1);
    } else if v.JObj? {
      EmptyDict(d + 1);
      assert false;
    }
  }

  lemma {:induction false} ListEdgeCount(xs: seq<Json>, i: nat, d: nat)
    requires i <= |xs| && forall k :: i <= k < |xs| ==> xs[k].JObj?
    requires Proper(WalkList(xs, i, d))
    ensures EdgeCount(WalkList(xs, i, d)) + (|xs| - i) == |WalkList(xs, i, d)|
    decreases JArr(xs), 0, |xs| - i
  {
    if i < |xs| {
      var head, tail := Walk(xs[i], d), WalkList(xs, i + 1, d);
      assert forall x :: x in head ==> x in head + tail;
      assert forall x :: x in tail ==> x in head + tail;
      assert xs[i] == JObj(xs[i].fields);
      DictEdgeCount(xs[i].fields, d);
      ListEdgeCount(xs, i + 1, d);
      EdgeCountAppend(head, tail);
    }
  }

  /** The root is the first item and the only one at depth 0. */
  lemma RootAlone(fs: Fields)
    ensures var items := ItemList(JObj(fs));
      && |items| > 0 && items[0] == Item(0, fs)
      && forall m :: 0 < m < |items| ==> items[m].depth >= 1
  {
    var w := Walk(JObj(fs), 0);
    WalkDepthZero(fs);
    SortByDepthCorrect(w);
    SortedSingleZero(ItemList(JObj(fs)), Item(0, fs));
  }

  /** The walk of a dict has the dict as its only item at depth 0. */
  lemma WalkDepthZero(fs: Fields)
    ensures AtDepth(Walk(JObj(fs), 0), 0) == [Item(0, fs)]
  {
    var w := Walk(JObj(fs), 0);
    DictYieldedLast(fs, 0);
    var init := w[..|w| - 1];
    assert w == init + [Item(0, fs)];
    assert forall m :: 0 <= m < |init| ==> init[m] == w[m];
    AtDepthNone(init, 0);
    AtDepthSnoc(init, Item(0, fs), 0);
  }

  /** A list sorted by depth with a single item `x` at depth 0 starts with `x`,
      and everything after it is deeper. */
  lemma SortedSingleZero(s: seq<Item>, x: Item)
    requires SortedByDepth(s) && AtDepth(s, 0) == [x]
    ensures |s| > 0 && s[0] == x && forall m :: 0 < m < |s| ==> s[m].depth >= 1
  {
    AtDepthElements(s, 0, x);
    var p :| 0 <= p < |s| && s[p] == x;
    assert s[0].depth <= s[p].depth;
    AtDepthElements(s, 0, s[0]);
    AtDepthOnce(s, 0, 0);
  }

  /** The dict reached at `o` from a "children" value that went through is
      one of the value's edges. */
  lemma ChildAmongEdges(v: Json, o: Fields, id: string, g: nat, edges: seq<Node>) returns (k: nat)
    requires ChildEdges(v, id, g) == Ok(edges) && Reaches(v, o, 0) && IdOf(o).Ok?
    ensures k < |edges| && edges[k].id == IdOf(o).value
  {
    if v.JArr? {
      var xs := v.items;
      var i :| 0 <= i < |xs| && Reaches(xs[i], o, 0);
      EdgeRule(xs, id, g);
      k := i;
    }
  }

  /** The dict of item `m > 0` hangs under the "children" pair `k` of the
      dict of an earlier item `l`, one level up. */
  lemma ParentItem(fs: Fields, m: nat) returns (l: nat, k: nat)
    requires 0 < m < |ItemList(JObj(fs))|
    ensures var items := ItemList(JObj(fs));
      && l < m && items[l].depth + 1 == items[m].depth
      && k < |items[l].fields| && items[l].fields[k].0 == Children
      && Reaches(items[l].fields[k].1, items[m].fields, 0)
  {
    var root := JObj(fs);
    var items := ItemList(root);
    RootAlone(fs);
    ItemListItems(root);
    SortByDepthCorrect(Walk(root, 0));
    var it := items[m];
    var c := it.depth;
    WalkMembership(root, 0, it);
    var p, j := ReachParent(root, it.fields, c);
    var up := Item(c - 1, p);
    WalkMembership(root, 0, up);
    l :| 0 <= l < |items| && items[l] == up;
    assert items[l].depth < items[m].depth;
    k := j;
  }

  /** Every dict after the root is announced by an earlier dict: its id is
      the id of an edge contributed before its turn. */
  lemma AnnouncedEarlier(fs: Fields, m: nat)
    requires Proper(ItemList(JObj(fs)))
    requires AllOk(Contributions(ItemList(JObj(fs))))
    requires 0 < m < |ItemList(JObj(fs))|
    ensures var cs := Values(Contributions(ItemList(JObj(fs))));
      Contains(Edges(cs[..m]), cs[m].container)
  {
    var items := ItemList(JObj(fs));
    var cs := Values(Contributions(items));
    var l, k := ParentItem(fs, m);
    var up, it := items[l], items[m];
    assert up in items && it in items;
    ChildOfParent(up.fields, k);
    ContributeShape(up);
    ContributeShape(it);
    assert Contributions(items)[l] == Ok(cs[l]) && Contributions(items)[m] == Ok(cs[m]);
    var e := ChildAmongEdges(up.fields[k].1, it.fields, IdOf(up.fields).value, up.depth, cs[l].edges);
    EarlierEdge(cs, l, m, e);
  }

  /** With distinct keys, the one "children" pair is the one `Get` reads. */
  lemma ChildOfParent(p: Fields, k: nat)
    requires DistinctKeys(p) && k < |p| && p[k].0 == Children
    ensures Get(p, Children) == Some(p[k].1)
  {
    GetSpec(p, Children);
  }

  /** The items of a tree that goes through are proper when its dicts have
      distinct keys. */
  lemma ProperItems(fs: Fields)
    requires SunburstOf(JObj(fs)).Ok?
    requires forall it :: it in Walk(JObj(fs), 0) ==> DistinctKeys(it.fields)
    ensures Proper(Walk(JObj(fs), 0)) && Proper(ItemList(JObj(fs)))
    ensures NodeRows(ItemList(JObj(fs))).Ok? && AllOk(Contributions(ItemList(JObj(fs))))
  {
    SunburstOutcome(JObj(fs));
    ItemListItems(JObj(fs));
    RunOutcome(Contributions(ItemList(JObj(fs))));
  }

  /** Single-root trees: when the root is a dict, every dict goes through
      and no dict has a repeated key, the root is the only container row and
      the other rows are all the edges, in order. */
  lemma OnlyRootContainer(fs: Fields)
    requires SunburstOf(JObj(fs)).Ok?
    requires forall it :: it in Walk(JObj(fs), 0) ==> DistinctKeys(it.fields)
    ensures var items := ItemList(JObj(fs));
      && NodeRows(items).Ok? && IdOf(fs).Ok? && AllOk(Contributions(items))
      && NodeRows(items).value ==
           [Node(IdOf(fs).value, 0, None, ValueOf(fs))] + Edges(Values(Contributions(items)))
  {
    var items := ItemList(JObj(fs));
    var rs := Contributions(items);
    ProperItems(fs);
    assert NodeRows(items) == Ok(Collect(Values(rs))) by {
      RunOutcome(rs);
    }
    var cs := Values(rs);
    AllAnnounced(fs);
    OnlyFirstContainer(cs);
    assert cs[0].container == Node(IdOf(fs).value, 0, None, ValueOf(fs)) by {
      RootAlone(fs);
      ContributeShape(items[0]);
      assert rs[0] == Ok(cs[0]);
    }
  }

  lemma AllAnnounced(fs: Fields)
    requires Proper(ItemList(JObj(fs)))
    requires AllOk(Contributions(ItemList(JObj(fs))))
    ensures var cs := Values(Contributions(ItemList(JObj(fs))));
      forall m :: 0 < m < |cs| ==> Contains(Edges(cs[..m]), cs[m].container)
  {
    var cs := Values(Contributions(ItemList(JObj(fs))));
    forall m | 0 < m < |cs| ensures Contains(Edges(cs[..m]), cs[m].container) {
      AnnouncedEarlier(fs, m);
    }
  }

  /** Single-root trees have one row per dict the walk yields. */
  lemma OneRowPerDict(fs: Fields)
    requires SunburstOf(JObj(fs)).Ok?
    requires forall it :: it in Walk(JObj(fs), 0) ==> DistinctKeys(it.fields)
    ensures NodeRows(ItemList(JObj(fs))).Ok?
    ensures |NodeRows(ItemList(JObj(fs))).value| == |ItemList(JObj(fs))| == |Walk(JObj(fs), 0)|
  {
    var root := JObj(fs);
    var items := ItemList(root);
    OnlyRootContainer(fs);
    ProperItems(fs);
    EdgesLength(items);
    EdgeCountSort(Walk(root, 0));
    DictEdgeCount(fs, 0);
    SortByDepthCorrect(Walk(root, 0));
    assert |items| == |multiset(items)| == |multiset(Walk(root, 0))| == |Walk(root, 0)|;
  }
}
