/** The sunburst data of main.py:107 and main.py:133-140: the four parallel
    lists `ids`, `names`, `parents` and `values`, one entry per row of
    `nodelist`, with ids disambiguated when they repeat. */
module Chart {
  import opened JsonValues
  import opened Nodes

  /** `data_plotly_sunburst`: four lists of equal length. */
  datatype Sunburst = Sunburst(ids: seq<string>, names: seq<string>, parents: seq<Option<string>>, values: seq<Json>)

  const Digits := "0123456789"

  /** `str(n)` for a non-negative integer: decimal, no leading zeros. */
  function NatToString(n: nat): (s: string)
    ensures |s| >= 1
    ensures forall k :: 0 <= k < |s| ==> s[k] in Digits
    ensures s[0] == '0' ==> n == 0 && s == "0"
  {
    if n < 10 then [Digits[n]] else NatToString(n / 10) + [Digits[n % 10]]
  }

  /** The value of a string of decimal digits. */
  function DigitsValue(s: string): nat {
    if s == [] then 0 else 10 * DigitsValue(s[..|s| - 1]) + DigitValue(s[|s| - 1])
  }

  function DigitValue(c: char): nat {
    if '0' <= c <= '9' then (c as int - '0' as int) as nat else 0
  }

  /** `str` loses nothing: reading the digits back gives the number. */
  lemma {:induction false} NatToStringRoundTrip(n: nat)
    ensures DigitsValue(NatToString(n)) == n
  {
    if n >= 10 {
      NatToStringRoundTrip(n / 10);
      var s := NatToString(n);
      assert s[..|s| - 1] == NatToString(n / 10);
    }
  }

  /** `str` is one-to-one on the generations printed into ids. */
  lemma NatToStringInjective(a: nat, b: nat)
    requires NatToString(a) == NatToString(b)
    ensures a == b
  {
    NatToStringRoundTrip(a);
    NatToStringRoundTrip(b);
  }

  /** How an f-string prints `node._parent`: the parent id, or "None". */
  function ParentText(p: Option<string>): string {
    match p
    case None => "None"
    case Some(s) => s
  }

  /** `f"{node._id} {node._parent} {node._generation}"` (main.py:136). */
  function DisplayId(n: Node): string {
    n.id + " " + ParentText(n.parent) + " " + NatToString(n.generation)
  }

  /** The sunburst built from `nodes` (main.py:133-140): each row appends its
      id (replaced by `DisplayId` when it is already among the ids so far),
      its id as name, its parent and its value. */
  function ChartOf(nodes: seq<Node>): (c: Sunburst)
    ensures |c.ids| == |c.names| == |c.parents| == |c.values| == |nodes|
  {
    if nodes == [] then Sunburst([], [], [], [])
    else
      var c := ChartOf(nodes[..|nodes| - 1]);
      var n := nodes[|nodes| - 1];
      var id := if n.id in c.ids then DisplayId(n) else n.id;
      Sunburst(c.ids + [id], c.names + [n.id], c.parents + [n.parent], c.values + [n.value])
  }

  /** The loop of main.py:133-140, appending to the four lists. */
  method Assemble(nodes: seq<Node>) returns (c: Sunburst)
    ensures c == ChartOf(nodes)
  {
    var ids: seq<string> := [];
    var names: seq<string> := [];
    var parents: seq<Option<string>> := [];
    var values: seq<Json> := [];
    for i := 0 to |nodes|
      invariant ChartOf(nodes[..i]) == Sunburst(ids, names, parents, values)
    {
      assert nodes[..i + 1][..i] == nodes[..i];
      var node := nodes[i];
      var id := node.id;
      if id in ids {
        id := DisplayId(node);
      }
      ids := ids + [id];
      names := names + [node.id];
      values := values + [node.value];
      parents := parents + [node.parent];
    }
    assert nodes[..|nodes|] == nodes;
    c := Sunburst(ids, names, parents, values);
  }

  /** The id of row `i` follows main.py:134-137: it is the row's own id
      unless that already occurs among the earlier ids, and then it is the
      row's `DisplayId`. */
  predicate IdFollowsRule(ids: seq<string>, nodes: seq<Node>, i: nat)
    requires i < |ids| && i < |nodes|
  {
    ids[i] == if nodes[i].id in ids[..i] then DisplayId(nodes[i]) else nodes[i].id
  }

  /** The four lists have one entry per row; names, parents and values copy
      the rows; an id is the row's own id unless that already occurs among
      the earlier ids, in which case it is the row's `DisplayId`. */
  lemma {:induction false} ChartShape(nodes: seq<Node>)
    ensures var c := ChartOf(nodes);
      && |c.ids| == |nodes| && |c.names| == |nodes| && |c.parents| == |nodes| && |c.values| == |nodes|
      && forall i :: 0 <= i < |nodes| ==>
           && c.names[i] == nodes[i].id
           && c.parents[i] == nodes[i].parent
           && c.values[i] == nodes[i].value
           && IdFollowsRule(c.ids, nodes, i)
  {
    if nodes != [] {
      var init := nodes[..|nodes| - 1];
      ChartShape(init);
      ChartSnoc(ChartOf(init), ChartOf(nodes), init, nodes);
    }
  }

  lemma ChartSnoc(before: Sunburst, c: Sunburst, init: seq<Node>, nodes: seq<Node>)
    requires nodes != [] && init == nodes[..|nodes| - 1]
    requires
      && |before.ids| == |init| && |before.names| == |init| && |before.parents| == |init| && |before.values| == |init|
      && forall i :: 0 <= i < |init| ==>
           && before.names[i] == init[i].id
           && before.parents[i] == init[i].parent
           && before.values[i] == init[i].value
           && IdFollowsRule(before.ids, init, i)
    requires var n := nodes[|nodes| - 1];
      c == Sunburst(before.ids + [if n.id in before.ids then DisplayId(n) else n.id],
                    before.names + [n.id], before.parents + [n.parent], before.values + [n.value])
    ensures
      && |c.ids| == |nodes| && |c.names| == |nodes| && |c.parents| == |nodes| && |c.values| == |nodes|
      && forall i :: 0 <= i < |nodes| ==>
           && c.names[i] == nodes[i].id
           && c.parents[i] == nodes[i].parent
           && c.values[i] == nodes[i].value
           && IdFollowsRule(c.ids, nodes, i)
  {
    forall i | 0 <= i < |nodes|
      ensures
        && c.names[i] == nodes[i].id
        && c.parents[i] == nodes[i].parent
        && c.values[i] == nodes[i].value
        && IdFollowsRule(c.ids, nodes, i)
    {
      if i < |init| {
        assert c.ids[..i] == before.ids[..i];
        assert nodes[i] == init[i];
      } else {
        assert c.ids[..i] == before.ids;
      }
    }
  }

  /** Only renamed ids can collide: when two ids are equal, the later row's
      own id already occurs among the ids before it, and its id is its
      `DisplayId`. */
  lemma RepeatsAreRenamed(nodes: seq<Node>)
    ensures var ids := ChartOf(nodes).ids;
      forall j, i :: 0 <= j < i < |nodes| && ids[j] == ids[i] ==>
        nodes[i].id in ids[..i] && ids[i] == DisplayId(nodes[i])
  {
    ChartShape(nodes);
    RenamedWhenRepeated(ChartOf(nodes).ids, nodes);
  }

  /** The renaming rule alone, for any list of ids that follows it. */
  lemma RenamedWhenRepeated(ids: seq<string>, nodes: seq<Node>)
    requires |ids| == |nodes|
    requires forall i :: 0 <= i < |nodes| ==> IdFollowsRule(ids, nodes, i)
    ensures forall j, i :: 0 <= j < i < |nodes| && ids[j] == ids[i] ==>
      nodes[i].id in ids[..i] && ids[i] == DisplayId(nodes[i])
  {
    forall j, i | 0 <= j < i < |nodes| && ids[j] == ids[i]
      ensures nodes[i].id in ids[..i] && ids[i] == DisplayId(nodes[i])
    {
      assert IdFollowsRule(ids, nodes, i);
      assert ids[..i][j] == ids[j];
    }
  }

  /** When the rows' ids are all different no id is renamed: `ids` equals
      `names`. */
  lemma {:induction false} DistinctIdsKept(nodes: seq<Node>)
    requires forall j, i :: 0 <= j < i < |nodes| ==> nodes[j].id != nodes[i].id
    ensures ChartOf(nodes).ids == ChartOf(nodes).names
  {
    if nodes != [] {
      var init, last := nodes[..|nodes| - 1], nodes[|nodes| - 1];
      assert forall k :: 0 <= k < |init| ==> init[k] == nodes[k];
      DistinctIdsKept(init);
      var c := ChartOf(init);
      NamesAreIds(init);
      forall k | 0 <= k < |c.ids| ensures c.ids[k] != last.id {
        assert c.ids[k] == c.names[k] == nodes[k].id;
      }
    }
  }

  /** `names` lists the rows' ids. */
  lemma {:induction false} NamesAreIds(nodes: seq<Node>)
    ensures forall k :: 0 <= k < |nodes| ==> ChartOf(nodes).names[k] == nodes[k].id
  {
    if nodes != [] {
      var init := nodes[..|nodes| - 1];
      NamesAreIds(init);
      assert forall k :: 0 <= k < |init| ==> ChartOf(nodes).names[k] == ChartOf(init).names[k];
    }
  }
}
