/** Worked examples: a dict "A" whose "children" are two, then three, dicts
    with the same id "B". */
module Worked {
  import opened JsonValues
  import opened TreeWalk
  import opened DepthSort
  import opened Nodes
  import opened Rows
  import opened Chart
  import opened Pipeline

  const LeafB: Fields := [("@id", JStr("B"))]
  const Twins: seq<Json> := [JObj(LeafB), JObj(LeafB)]
  const RootA: Fields := [("@id", JStr("A")), ("children", JArr(Twins))]

  lemma LeafWalk()
    ensures Walk(JObj(LeafB), 1) == [Item(1, LeafB)]
  {
    assert WalkFields(LeafB, 1, 1) == [];
  }

  lemma TwinsWalk()
    ensures WalkList(Twins, 0, 1) == [Item(1, LeafB), Item(1, LeafB)]
  {
    LeafWalk();
    assert WalkList(Twins, 2, 1) == [];
    assert WalkList(Twins, 1, 1) == [Item(1, LeafB)];
  }

  lemma RootWalk()
    ensures Walk(JObj(RootA), 0) == [Item(1, LeafB), Item(1, LeafB), Item(0, RootA)]
  {
    TwinsWalk();
    assert WalkFields(RootA, 2, 0) == [];
    assert WalkFields(RootA, 1, 0) == [Item(1, LeafB), Item(1, LeafB)];
  }

  lemma TwinSort()
    ensures ItemList(JObj(RootA)) == [Item(0, RootA), Item(1, LeafB), Item(1, LeafB)]
  {
    var a, b := Item(0, RootA), Item(1, LeafB);
    RootWalk();
    assert [b, b, a][..2] == [b, b];
    assert [b, b][..1] == [b];
    assert SortByDepth([b]) == [b];
    assert SortByDepth([b, b]) == [b, b];
    assert Insert(a, [b]) == [a, b];
    assert Insert(a, [b, b]) == [a, b, b];
  }

  lemma RootFields()
    ensures IdOf(RootA) == Ok("A") && ValueOf(RootA) == JNum(0) && Get(RootA, Children) == Some(JArr(Twins))
    ensures IdOf(LeafB) == Ok("B") && Get(LeafB, Children) == None
  {
    var tail := [("children", JArr(Twins))];
    assert RootA[1..] == tail && tail[1..] == [];
    assert LeafB[1..] == [];
    assert "@id" != "value" && "children" != "value" && "@id" != Children;
    assert Get(tail, "value") == None;
    assert Get(RootA, "value") == None;
  }

  lemma TwinRows()
    ensures NodeRows([Item(0, RootA), Item(1, LeafB), Item(1, LeafB)]) ==
      Ok([Node("A", 0, None, JNum(0)), Node("B", 0, Some("A"), JNum(0)), Node("B", 0, Some("A"), JNum(0))])
  {
    var a, b := Item(0, RootA), Item(1, LeafB);
    var na, nb := Node("A", 0, None, JNum(0)), Node("B", 0, Some("A"), JNum(0));
    RootFields();
    assert ValueOf(LeafB) == JNum(0);
    assert EdgeOf(JObj(LeafB), "A", 0) == Ok(nb);
    assert EdgeRows([], "A", 0) == Ok([]);
    var one := [JObj(LeafB)];
    assert one[..|one| - 1] == [] && one[|one| - 1] == JObj(LeafB);
    assert [] + [nb] == [nb] && [nb] + [nb] == [nb, nb];
    assert EdgeRows(one, "A", 0) == Ok([nb]);
    assert Twins[..|Twins| - 1] == one && Twins[|Twins| - 1] == JObj(LeafB);
    assert EdgeRows(Twins, "A", 0) == Ok([nb, nb]);
    var ca := Contribution(na, [nb, nb]);
    var cb := Contribution(Node("B", 1, None, JNum(0)), []);
    assert Contribute(a) == Ok(ca);
    assert Contribute(b) == Ok(cb);
    var rs := Contributions([a, b, b]);
    assert rs == [Ok(ca), Ok(cb), Ok(cb)];
    assert rs[..1] == [Ok(ca)] && rs[..2] == [Ok(ca), Ok(cb)];
    var r1, r2 := [Ok(ca)], [Ok(ca), Ok(cb)];
    assert r1[..|r1| - 1] == [] && r2[..|r2| - 1] == r1 && rs[..|rs| - 1] == r2;
    assert r1[|r1| - 1] == Ok(ca) && r2[|r2| - 1] == Ok(cb) && rs[|rs| - 1] == Ok(cb);
    assert Register([], na) == [na];
    assert [na] + [nb, nb] == [na, nb, nb] && [na, nb, nb] + [] == [na, nb, nb];
    assert Step<Error>([], Ok(ca)) == Ok([na, nb, nb]);
    assert Run(r1) == Ok([na, nb, nb]);
    assert SameNode([na, nb, nb][1], cb.container);
    assert Register([na, nb, nb], cb.container) == [na, nb, nb];
    assert Step<Error>([na, nb, nb], Ok(cb)) == Ok([na, nb, nb]);
    assert Run(r2) == Ok([na, nb, nb]);
  }

  lemma TwinChart()
    ensures ChartOf([Node("A", 0, None, JNum(0)), Node("B", 0, Some("A"), JNum(0)), Node("B", 0, Some("A"), JNum(0))]) ==
      Sunburst(["A", "B", "B A 0"], ["A", "B", "B"], [None, Some("A"), Some("A")], [JNum(0), JNum(0), JNum(0)])
  {
    var na, nb := Node("A", 0, None, JNum(0)), Node("B", 0, Some("A"), JNum(0));
    assert [na, nb, nb][..2] == [na, nb] && [na, nb][..1] == [na];
    assert ChartOf([na]).ids == ["A"];
    assert ChartOf([na, nb]).ids == ["A", "B"];
    assert NatToString(0) == "0";
    assert DisplayId(nb) == "B A 0";
  }

  /** Two children with the same id both become rows, and the second gets the
      id "B A 0": ids are disambiguated once, not made unique, and the first
      "B" container is dropped because an equal node is already listed. */
  lemma TwinChildren()
    ensures SunburstOf(JObj(RootA)) == Ok(Sunburst(
      ["A", "B", "B A 0"], ["A", "B", "B"], [None, Some("A"), Some("A")], [JNum(0), JNum(0), JNum(0)]))
  {
    TwinSort();
    TwinRows();
    TwinChart();
  }

  const Triplets: seq<Json> := [JObj(LeafB), JObj(LeafB), JObj(LeafB)]
  const RootTriple: Fields := [("@id", JStr("A")), ("children", JArr(Triplets))]

  lemma TripleWalk()
    ensures Walk(JObj(RootTriple), 0) == [Item(1, LeafB), Item(1, LeafB), Item(1, LeafB), Item(0, RootTriple)]
  {
    var b := Item(1, LeafB);
    LeafWalk();
    assert WalkList(Triplets, 3, 1) == [];
    assert WalkList(Triplets, 2, 1) == [b];
    assert WalkList(Triplets, 1, 1) == [b, b];
    assert WalkList(Triplets, 0, 1) == [b, b, b];
    assert WalkFields(RootTriple, 2, 0) == [];
    assert WalkFields(RootTriple, 1, 0) == [b, b, b];
  }

  lemma TripleSort()
    ensures ItemList(JObj(RootTriple)) == [Item(0, RootTriple), Item(1, LeafB), Item(1, LeafB), Item(1, LeafB)]
  {
    var a, b := Item(0, RootTriple), Item(1, LeafB);
    TripleWalk();
    assert [b, b, b, a][..3] == [b, b, b];
    assert [b, b, b][..2] == [b, b];
    assert [b, b][..1] == [b];
    assert SortByDepth([b]) == [b];
    assert SortByDepth([b, b]) == [b, b];
    assert SortByDepth([b, b, b]) == [b, b, b];
    assert Insert(a, [b]) == [a, b];
    assert Insert(a, [b, b]) == [a, b, b];
    assert Insert(a, [b, b, b]) == [a, b, b, b];
  }

  lemma TripleFields()
    ensures IdOf(RootTriple) == Ok("A") && ValueOf(RootTriple) == JNum(0)
    ensures Get(RootTriple, Children) == Some(JArr(Triplets))
  {
    var tail := [("children", JArr(Triplets))];
    assert RootTriple[1..] == tail && tail[1..] == [];
    assert "@id" != "value" && "children" != "value" && "@id" != Children;
    assert Get(tail, "value") == None;
    assert Get(RootTriple, "value") == None;
  }

  lemma TripleRows()
    ensures NodeRows([Item(0, RootTriple), Item(1, LeafB), Item(1, LeafB), Item(1, LeafB)]) ==
      Ok([Node("A", 0, None, JNum(0)), Node("B", 0, Some("A"), JNum(0)),
          Node("B", 0, Some("A"), JNum(0)), Node("B", 0, Some("A"), JNum(0))])
  {
    var a, b := Item(0, RootTriple), Item(1, LeafB);
    var na, nb := Node("A", 0, None, JNum(0)), Node("B", 0, Some("A"), JNum(0));
    var rows := [na, nb, nb, nb];
    RootFields();
    TripleFields();
    assert EdgeOf(JObj(LeafB), "A", 0) == Ok(nb);
    var one, two := [JObj(LeafB)], [JObj(LeafB), JObj(LeafB)];
    assert one[..|one| - 1] == [] && two[..|two| - 1] == one && Triplets[..|Triplets| - 1] == two;
    assert one[|one| - 1] == JObj(LeafB) && two[|two| - 1] == JObj(LeafB) && Triplets[|Triplets| - 1] == JObj(LeafB);
    assert EdgeRows([], "A", 0) == Ok([]);
    assert [] + [nb] == [nb] && [nb] + [nb] == [nb, nb] && [nb, nb] + [nb] == [nb, nb, nb];
    assert EdgeRows(one, "A", 0) == Ok([nb]);
    assert EdgeRows(two, "A", 0) == Ok([nb, nb]);
    assert EdgeRows(Triplets, "A", 0) == Ok([nb, nb, nb]);
    var ca := Contribution(na, [nb, nb, nb]);
    var cb := Contribution(Node("B", 1, None, JNum(0)), []);
    assert Contribute(a) == Ok(ca);
    assert Contribute(b) == Ok(cb);
    var rs := Contributions([a, b, b, b]);
    assert rs == [Ok(ca), Ok(cb), Ok(cb), Ok(cb)];
    var r1, r2, r3 := [Ok(ca)], [Ok(ca), Ok(cb)], [Ok(ca), Ok(cb), Ok(cb)];
    assert r1[..|r1| - 1] == [] && r2[..|r2| - 1] == r1 && r3[..|r3| - 1] == r2 && rs[..|rs| - 1] == r3;
    assert r1[|r1| - 1] == Ok(ca) && r2[|r2| - 1] == Ok(cb) && r3[|r3| - 1] == Ok(cb) && rs[|rs| - 1] == Ok(cb);
    assert Register([], na) == [na];
    assert [na] + [nb, nb, nb] == rows && rows + [] == rows;
    assert Step<Error>([], Ok(ca)) == Ok(rows);
    assert Run(r1) == Ok(rows);
    assert SameNode(rows[1], cb.container);
    assert Register(rows, cb.container) == rows;
    assert Step<Error>(rows, Ok(cb)) == Ok(rows);
    assert Run(r2) == Ok(rows);
    assert Run(r3) == Ok(rows);
  }

  lemma TripleChart()
    ensures ChartOf([Node("A", 0, None, JNum(0)), Node("B", 0, Some("A"), JNum(0)),
                     Node("B", 0, Some("A"), JNum(0)), Node("B", 0, Some("A"), JNum(0))]).ids ==
      ["A", "B", "B A 0", "B A 0"]
  {
    var na, nb := Node("A", 0, None, JNum(0)), Node("B", 0, Some("A"), JNum(0));
    TwinChart();
    assert [na, nb, nb, nb][..3] == [na, nb, nb];
    assert "B" in ["A", "B", "B A 0"];
    assert DisplayId(nb) == "B A 0";
  }

  /** Renaming once does not make ids unique: with three children of id B,
      the second and third both get "B A 0". */
  lemma TripletsCollide()
    ensures SunburstOf(JObj(RootTriple)).Ok?
    ensures SunburstOf(JObj(RootTriple)).value.ids == ["A", "B", "B A 0", "B A 0"]
  {
    TripleSort();
    TripleRows();
    TripleChart();
  }
}
