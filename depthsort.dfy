/** `sorted(..., key=lambda x: x[0])` at main.py:112: a stable sort of the
    walk's items by depth. */
module DepthSort {
  import opened TreeWalk

  predicate SortedByDepth(s: seq<Item>) {
    forall i, j :: 0 <= i < j < |s| ==> s[i].depth <= s[j].depth
  }

  /** The items of `s` at depth `k`, in their order in `s`. */
  function AtDepth(s: seq<Item>, k: nat): seq<Item> {
    if s == [] then []
    else AtDepth(s[..|s| - 1], k) + (if s[|s| - 1].depth == k then [s[|s| - 1]] else [])
  }

  /** Places `x` after every item of `s` whose depth is at most its own. */
  function Insert(x: Item, s: seq<Item>): seq<Item> {
    if s == [] || s[|s| - 1].depth <= x.depth then s + [x]
    else Insert(x, s[..|s| - 1]) + [s[|s| - 1]]
  }

  /** Insertion sort: each item is inserted, in input order, behind the
      items already placed at its depth or shallower. */
  function SortByDepth(s: seq<Item>): seq<Item> {
    if s == [] then [] else Insert(s[|s| - 1], SortByDepth(s[..|s| - 1]))
  }

  lemma {:induction false} AtDepthSnoc(s: seq<Item>, x: Item, k: nat)
    ensures AtDepth(s + [x], k) == AtDepth(s, k) + (if x.depth == k then [x] else [])
  {
    assert (s + [x])[..|s|] == s;
  }

  lemma {:induction false} InsertPermutes(x: Item, s: seq<Item>)
    ensures multiset(Insert(x, s)) == multiset(s) + multiset{x}
  {
    if !(s == [] || s[|s| - 1].depth <= x.depth) {
      assert s == s[..|s| - 1] + [s[|s| - 1]];
      InsertPermutes(x, s[..|s| - 1]);
    }
  }

  lemma {:induction false} InsertSorted(x: Item, s: seq<Item>)
    requires SortedByDepth(s)
    ensures SortedByDepth(Insert(x, s))
  {
    if !(s == [] || s[|s| - 1].depth <= x.depth) {
      var init, last := s[..|s| - 1], s[|s| - 1];
      InsertSorted(x, init);
      InsertPermutes(x, init);
      var t := Insert(x, init);
      forall i | 0 <= i < |t| ensures t[i].depth <= last.depth {
        assert t[i] in multiset(t);
        if t[i] != x {
          assert t[i] in multiset(init);
          var m :| 0 <= m < |init| && init[m] == t[i];
          assert s[m] == t[i];
        }
      }
    }
  }

  lemma {:induction false} InsertStable(x: Item, s: seq<Item>, k: nat)
    requires SortedByDepth(s)
    ensures AtDepth(Insert(x, s), k) == AtDepth(s, k) + (if x.depth == k then [x] else [])
  {
    if s == [] || s[|s| - 1].depth <= x.depth {
      AtDepthSnoc(s, x, k);
    } else {
      var init, last := s[..|s| - 1], s[|s| - 1];
      assert s == init + [last];
      InsertStable(x, init, k);
      AtDepthSnoc(Insert(x, init), last, k);
      AtDepthSnoc(init, last, k);
    }
  }

  /** The sort is a permutation, non-decreasing in depth, and stable: at
      every depth it keeps the items in input order. */
  lemma {:induction false} SortByDepthCorrect(s: seq<Item>)
    ensures SortedByDepth(SortByDepth(s))
    ensures multiset(SortByDepth(s)) == multiset(s)
    ensures forall k: nat :: AtDepth(SortByDepth(s), k) == AtDepth(s, k)
  {
    if s != [] {
      var init, last := s[..|s| - 1], s[|s| - 1];
      assert s == init + [last];
      SortByDepthCorrect(init);
      InsertPermutes(last, SortByDepth(init));
      InsertSorted(last, SortByDepth(init));
      forall k: nat ensures AtDepth(SortByDepth(s), k) == AtDepth(s, k) {
        InsertStable(last, SortByDepth(init), k);
        AtDepthSnoc(init, last, k);
      }
    }
  }

  /** The two properties pin the result down: any sorted sequence that agrees
      with `s` at every depth is the sort of `s`. */
  lemma {:induction false} SortedUnique(r: seq<Item>, s: seq<Item>)
    requires SortedByDepth(r) && SortedByDepth(s)
    requires forall k: nat :: AtDepth(r, k) == AtDepth(s, k)
    ensures r == s
    decreases |r| + |s|
  {
    if r != [] || s != [] {
      LastAgree(r, s);
      var ri, si := r[..|r| - 1], s[..|s| - 1];
      forall k: nat ensures AtDepth(ri, k) == AtDepth(si, k) {
        InitsAgree(r, s, k);
      }
      SortedUnique(ri, si);
      assert r == ri + [r[|r| - 1]];
      assert s == si + [s[|s| - 1]];
    }
  }

  lemma {:induction false} LastAgree(r: seq<Item>, s: seq<Item>)
    requires SortedByDepth(r) && SortedByDepth(s)
    requires forall k: nat :: AtDepth(r, k) == AtDepth(s, k)
    requires r != [] || s != []
    ensures r != [] && s != [] && r[|r| - 1] == s[|s| - 1]
  {
    // y is the deeper of the two last items
    var y := if r != [] && (s == [] || r[|r| - 1].depth >= s[|s| - 1].depth) then r[|r| - 1] else s[|s| - 1];
    var d := y.depth;
    AtDepthElements(r, d, y);
    AtDepthElements(s, d, y);
    var i :| 0 <= i < |r| && r[i] == y;
    var j :| 0 <= j < |s| && s[j] == y;
    assert r[|r| - 1].depth == d && s[|s| - 1].depth == d;
    var a, b := AtDepth(r, d), AtDepth(s, d);
    assert a == AtDepth(r[..|r| - 1], d) + [r[|r| - 1]];
    assert b == AtDepth(s[..|s| - 1], d) + [s[|s| - 1]];
    assert a[|a| - 1] == b[|b| - 1];
  }

  lemma {:induction false} InitsAgree(r: seq<Item>, s: seq<Item>, k: nat)
    requires r != [] && s != [] && r[|r| - 1] == s[|s| - 1]
    requires AtDepth(r, k) == AtDepth(s, k)
    ensures AtDepth(r[..|r| - 1], k) == AtDepth(s[..|s| - 1], k)
  {
    var a, b := AtDepth(r[..|r| - 1], k), AtDepth(s[..|s| - 1], k);
    assert AtDepth(r, k) == a + (if r[|r| - 1].depth == k then [r[|r| - 1]] else []);
    assert AtDepth(s, k) == b + (if s[|s| - 1].depth == k then [s[|s| - 1]] else []);
    if r[|r| - 1].depth == k {
      assert a == (a + [r[|r| - 1]])[..|a|];
      assert b == (b + [s[|s| - 1]])[..|b|];
    } else {
      assert a + [] == a && b + [] == b;
    }
  }

  lemma {:induction false} AtDepthElements(s: seq<Item>, k: nat, y: Item)
    ensures y in AtDepth(s, k) <==> y in s && y.depth == k
  {
    if s != [] {
      AtDepthElements(s[..|s| - 1], k, y);
      assert s == s[..|s| - 1] + [s[|s| - 1]];
    }
  }

  /** When at most one item has depth `k`, no item after one of depth `k`
      has depth `k`. */
  lemma {:induction false} AtDepthOnce(s: seq<Item>, k: nat, i: nat)
    requires i < |s| && s[i].depth == k && |AtDepth(s, k)| <= 1
    ensures forall j :: i < j < |s| ==> s[j].depth != k
  {
    var init := s[..|s| - 1];
    if i < |s| - 1 {
      assert init[i] == s[i];
      AtDepthElements(init, k, s[i]);
      AtDepthOnce(init, k, i);
      assert forall j :: i < j < |init| ==> init[j] == s[j];
    }
  }

  /** A prefix with no item of depth `k` contributes nothing at depth `k`. */
  lemma AtDepthNone(s: seq<Item>, k: nat)
    requires forall m :: 0 <= m < |s| ==> s[m].depth != k
    ensures AtDepth(s, k) == []
  {
    if AtDepth(s, k) != [] {
      var y := AtDepth(s, k)[0];
      AtDepthElements(s, k, y);
    }
  }
}
