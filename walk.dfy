/** The recursive generator `item_generator` (main.py:20-30), as a function
    that returns everything it yields, in order. */
module TreeWalk {
  import opened JsonValues

  /** The key the script descends through. */
  const Children := "children"

  /** One `(depth, dict)` pair yielded by the generator. */
  datatype Item = Item(depth: nat, fields: Fields)

  /** What `item_generator(j, "children", depth)` yields: a dict yields the
      walks of the values under its "children" keys (one level deeper), then
      itself; a list yields the walks of its elements at the same depth;
      any other value yields nothing. */
  function Walk(j: Json, depth: nat): seq<Item>
    decreases j
  {
    match j
    case JObj(fs) => WalkFields(fs, 0, depth) + [Item(depth, fs)]
    case JArr(xs) => WalkList(xs, 0, depth)
    case _ => []
  }

  /** The `for k, v in json_input.items()` loop, from pair `i` on. */
  function WalkFields(fs: Fields, i: nat, depth: nat): seq<Item>
    requires i <= |fs|
    decreases JObj(fs), |fs| - i
  {
    if i == |fs| then []
    else (if fs[i].0 == Children then Walk(fs[i].1, depth + 1) else []) + WalkFields(fs, i + 1, depth)
  }

  /** The `for item in json_input` loop, from element `i` on. */
  function WalkList(xs: seq<Json>, i: nat, depth: nat): seq<Item>
    requires i <= |xs|
    decreases JArr(xs), |xs| - i
  {
    if i == |xs| then [] else Walk(xs[i], depth) + WalkList(xs, i + 1, depth)
  }

  /** Reference definition of the walk's reach: the dict `o` is reached from
      `j` after descending through exactly `c` "children" keys, and through
      any number of list elements. */
  ghost predicate Reaches(j: Json, o: Fields, c: nat)
    decreases j
  {
    match j
    case JObj(fs) =>
      (c == 0 && o == fs) ||
      (c > 0 && exists k :: 0 <= k < |fs| && fs[k].0 == Children && Reaches(fs[k].1, o, c - 1))
    case JArr(xs) => exists k :: 0 <= k < |xs| && Reaches(xs[k], o, c)
    case _ => false
  }

  /** Walk coverage: an item is yielded exactly when its dict is reachable and
      its depth is the starting depth plus the number of "children" keys
      descended on the way. */
  lemma {:induction false} WalkMembership(j: Json, depth: nat, it: Item)
    decreases j
    ensures it in Walk(j, depth) <==> it.depth >= depth && Reaches(j, it.fields, it.depth - depth)
  {
    match j
    case JObj(fs) =>
      WalkFieldsMembership(fs, 0, depth, it);
    case JArr(xs) =>
      WalkListMembership(xs, 0, depth, it);
    case _ =>
  }

  lemma {:induction false} WalkFieldsMembership(fs: Fields, i: nat, depth: nat, it: Item)
    requires i <= |fs|
    decreases JObj(fs), |fs| - i
    ensures it in WalkFields(fs, i, depth) <==>
      it.depth > depth &&
      exists k :: i <= k < |fs| && fs[k].0 == Children && Reaches(fs[k].1, it.fields, it.depth - depth - 1)
  {
    if i < |fs| {
      if fs[i].0 == Children {
        WalkMembership(fs[i].1, depth + 1, it);
      }
      WalkFieldsMembership(fs, i + 1, depth, it);
    }
  }

  lemma {:induction false} WalkListMembership(xs: seq<Json>, i: nat, depth: nat, it: Item)
    requires i <= |xs|
    decreases JArr(xs), |xs| - i
    ensures it in WalkList(xs, i, depth) <==>
      it.depth >= depth && exists k :: i <= k < |xs| && Reaches(xs[k], it.fields, it.depth - depth)
  {
    if i < |xs| {
      WalkMembership(xs[i], depth, it);
      WalkListMembership(xs, i + 1, depth, it);
    }
  }

  /** Reference count of the routes from `j` to the dict `o` that descend
      through exactly `c` "children" keys: one for `j` itself when `c` is 0,
      plus the routes through each "children" pair or list element. */
  function Paths(j: Json, o: Fields, c: nat): nat
    decreases j
  {
    match j
    case JObj(fs) => (if c == 0 && o == fs then 1 else 0) + (if c > 0 then PathsFields(fs, 0, o, c - 1) else 0)
    case JArr(xs) => PathsList(xs, 0, o, c)
    case _ => 0
  }

  function PathsFields(fs: Fields, i: nat, o: Fields, c: nat): nat
    requires i <= |fs|
    decreases JObj(fs), |fs| - i
  {
    if i == |fs| then 0
    else (if fs[i].0 == Children then Paths(fs[i].1, o, c) else 0) + PathsFields(fs, i + 1, o, c)
  }

  function PathsList(xs: seq<Json>, i: nat, o: Fields, c: nat): nat
    requires i <= |xs|
    decreases JArr(xs), |xs| - i
  {
    if i == |xs| then 0 else Paths(xs[i], o, c) + PathsList(xs, i + 1, o, c)
  }

  /** The count is positive exactly on the dicts the walk can reach. */
  lemma {:induction false} PathsReach(j: Json, o: Fields, c: nat)
    decreases j
    ensures Paths(j, o, c) > 0 <==> Reaches(j, o, c)
  {
    match j
    case JObj(fs) =>
      if c > 0 {
        PathsFieldsReach(fs, 0, o, c - 1);
      }
    case JArr(xs) =>
      PathsListReach(xs, 0, o, c);
    case _ =>
  }

  lemma {:induction false} PathsFieldsReach(fs: Fields, i: nat, o: Fields, c: nat)
    requires i <= |fs|
    decreases JObj(fs), |fs| - i
    ensures PathsFields(fs, i, o, c) > 0 <==>
      exists k :: i <= k < |fs| && fs[k].0 == Children && Reaches(fs[k].1, o, c)
  {
    if i < |fs| {
      if fs[i].0 == Children {
        PathsReach(fs[i].1, o, c);
      }
      PathsFieldsReach(fs, i + 1, o, c);
    }
  }

  lemma {:induction false} PathsListReach(xs: seq<Json>, i: nat, o: Fields, c: nat)
    requires i <= |xs|
    decreases JArr(xs), |xs| - i
    ensures PathsList(xs, i, o, c) > 0 <==> exists k :: i <= k < |xs| && Reaches(xs[k], o, c)
  {
    if i < |xs| {
      PathsReach(xs[i], o, c);
      PathsListReach(xs, i + 1, o, c);
    }
  }

  /** Walk multiplicity: the generator yields a dict at a depth once per route
      to it, so a dict reached along one route only is yielded exactly once. */
  lemma {:induction false} WalkCount(j: Json, depth: nat, it: Item)
    decreases j
    ensures multiset(Walk(j, depth))[it] == if it.depth >= depth then Paths(j, it.fields, it.depth - depth) else 0
  {
    match j
    case JObj(fs) =>
      WalkFieldsCount(fs, 0, depth, it);
    case JArr(xs) =>
      WalkListCount(xs, 0, depth, it);
    case _ =>
  }

  lemma {:induction false} WalkFieldsCount(fs: Fields, i: nat, depth: nat, it: Item)
    requires i <= |fs|
    decreases JObj(fs), |fs| - i
    ensures multiset(WalkFields(fs, i, depth))[it] ==
      if it.depth > depth then PathsFields(fs, i, it.fields, it.depth - depth - 1) else 0
  {
    if i < |fs| {
      if fs[i].0 == Children {
        WalkCount(fs[i].1, depth + 1, it);
      }
      WalkFieldsCount(fs, i + 1, depth, it);
    }
  }

  lemma {:induction false} WalkListCount(xs: seq<Json>, i: nat, depth: nat, it: Item)
    requires i <= |xs|
    decreases JArr(xs), |xs| - i
    ensures multiset(WalkList(xs, i, depth))[it] ==
      if it.depth >= depth then PathsList(xs, i, it.fields, it.depth - depth) else 0
  {
    if i < |xs| {
      WalkCount(xs[i], depth, it);
      WalkListCount(xs, i + 1, depth, it);
    }
  }

  /** Post-order: a dict is yielded last, after everything beneath it, all of
      which lies strictly deeper. */
  lemma {:induction false} DictYieldedLast(fs: Fields, depth: nat)
    ensures var w := Walk(JObj(fs), depth);
      w[|w| - 1] == Item(depth, fs) &&
      forall k :: 0 <= k < |w| - 1 ==> w[k].depth > depth
  {
    var w := Walk(JObj(fs), depth);
    forall k | 0 <= k < |w| - 1 ensures w[k].depth > depth {
      assert w[k] in WalkFields(fs, 0, depth);
      WalkFieldsMembership(fs, 0, depth, w[k]);
    }
  }

  /** A dict reached through `c >= 1` "children" keys sits under the
      "children" pair of a dict reached through `c - 1`. */
  lemma {:induction false} ReachParent(j: Json, o: Fields, c: nat) returns (p: Fields, k: nat)
    requires c >= 1 && Reaches(j, o, c)
    decreases j
    ensures Reaches(j, p, c - 1) && k < |p| && p[k].0 == Children && Reaches(p[k].1, o, 0)
  {
    match j
    case JObj(fs) =>
      var i :| 0 <= i < |fs| && fs[i].0 == Children && Reaches(fs[i].1, o, c - 1);
      if c == 1 {
        p, k := fs, i;
      } else {
        p, k := ReachParent(fs[i].1, o, c - 1);
      }
    case JArr(xs) =>
      var i :| 0 <= i < |xs| && Reaches(xs[i], o, c);
      p, k := ReachParent(xs[i], o, c);
  }
}
