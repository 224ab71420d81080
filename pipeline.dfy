/** The script end to end (main.py:110-140): walk the parsed tree, sort the
    items by depth, build `nodelist`, then the sunburst lists. */
module Pipeline {
  import opened JsonValues
  import opened TreeWalk
  import opened DepthSort
  import opened Nodes
  import opened Rows
  import opened Chart

  /** `itemlist` (main.py:112). */
  function ItemList(root: Json): seq<Item> {
    SortByDepth(Walk(root, 0))
  }

  /** `data_plotly_sunburst` once main.py:110-140 has run on the parsed tree
      `root`, or the exception that stopped it. */
  function SunburstOf(root: Json): Result<Sunburst, Error> {
    match NodeRows(ItemList(root))
    case Err(e) => Err(e)
    case Ok(ns) => Ok(ChartOf(ns))
  }

  /** main.py:112-140 with its two loops. */
  method BuildSunburst(root: Json) returns (r: Result<Sunburst, Error>)
    ensures r == SunburstOf(root)
  {
    var items := ItemList(root);
    var nodes := BuildNodes(items);
    if nodes.Err? {
      return Err(nodes.error);
    }
    var chart := Assemble(nodes.value);
    return Ok(chart);
  }

  /** The sort keeps exactly the walk's items. */
  lemma ItemListItems(root: Json)
    ensures forall it :: it in ItemList(root) <==> it in Walk(root, 0)
  {
    SortByDepthCorrect(Walk(root, 0));
    forall it ensures it in ItemList(root) <==> it in Walk(root, 0) {
      assert it in ItemList(root) <==> it in multiset(ItemList(root));
      assert it in Walk(root, 0) <==> it in multiset(Walk(root, 0));
    }
  }

  /** The script goes through exactly when every dict the walk reaches goes
      through; otherwise it raises the exception of one of them. */
  lemma SunburstOutcome(root: Json)
    ensures SunburstOf(root).Ok? <==> forall it :: it in Walk(root, 0) ==> Contribute(it).Ok?
    ensures SunburstOf(root).Err? ==>
      exists it :: it in Walk(root, 0) && Contribute(it) == Err(SunburstOf(root).error)
  {
    var items := ItemList(root);
    NodeRowsOutcome(items);
    ItemListItems(root);
    if SunburstOf(root).Ok? {
      forall it | it in Walk(root, 0) ensures Contribute(it).Ok? {
        var m :| 0 <= m < |items| && items[m] == it;
      }
    } else {
      var m :| 0 <= m < |items| && Contribute(items[m]) == Err(NodeRows(items).error) &&
        forall l :: 0 <= l < m ==> Contribute(items[l]).Ok?;
      assert items[m] in Walk(root, 0);
    }
  }

  /** No forward parent references in the chart: every parent a row names
      is the name of an earlier row; and every dict the walk reaches has its
      id among the names. */
  lemma SunburstParents(root: Json)
    requires SunburstOf(root).Ok?
    ensures var c := SunburstOf(root).value;
      && (forall i :: 0 <= i < |c.parents| && c.parents[i].Some? ==>
            exists j :: 0 <= j < i && c.names[j] == c.parents[i].value)
      && (forall it :: it in Walk(root, 0) ==>
            IdOf(it.fields).Ok? && exists j :: 0 <= j < |c.names| && c.names[j] == IdOf(it.fields).value)
  {
    var items := ItemList(root);
    var ns := NodeRows(items).value;
    var c := ChartOf(ns);
    ParentsRule(items);
    ContainerRule(items);
    ChartShape(ns);
    ItemListItems(root);
    forall i | 0 <= i < |c.parents| && c.parents[i].Some?
      ensures exists j :: 0 <= j < i && c.names[j] == c.parents[i].value
    {
      var j :| 0 <= j < i && ns[j].id == ns[i].parent.value;
      assert c.names[j] == ns[j].id;
    }
    forall it | it in Walk(root, 0)
      ensures IdOf(it.fields).Ok? && exists j :: 0 <= j < |c.names| && c.names[j] == IdOf(it.fields).value
    {
      var m :| 0 <= m < |items| && items[m] == it;
      var j :| 0 <= j < |ns| && ns[j].id == IdOf(items[m].fields).value;
      assert c.names[j] == ns[j].id;
    }
  }

  /** A tree whose root is a dict puts the root first: its item is the only
      one at depth 0, so it is the first one processed, and its container is
      the chart's first entry, with its own id, no parent and its value. */
  lemma RootFirst(fs: Fields)
    requires SunburstOf(JObj(fs)).Ok?
    ensures var c := SunburstOf(JObj(fs)).value;
      && IdOf(fs).Ok?
      && |c.ids| > 0
      && c.ids[0] == IdOf(fs).value && c.names[0] == IdOf(fs).value
      && c.parents[0] == None && c.values[0] == ValueOf(fs)
  {
    var w := Walk(JObj(fs), 0);
    DictYieldedLast(fs, 0);
    var items := ItemList(JObj(fs));
    SortByDepthCorrect(w);
    ItemListItems(JObj(fs));
    assert Item(0, fs) in items;
    var p :| 0 <= p < |items| && items[p] == Item(0, fs);
    assert items[0].depth == 0;
    WalkMembership(JObj(fs), 0, items[0]);
    assert items[0] == Item(0, fs);
    var rs := Contributions(items);
    NodeRowsOutcome(items);
    var cs := Values(rs);
    CollectFirst(cs);
    ContributeShape(items[0]);
    var ns := NodeRows(items).value;
    ChartShape(ns);
    assert IdFollowsRule(ChartOf(ns).ids, ns, 0);
  }
}
