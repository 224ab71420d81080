/** The dropdown of the 20 most frequent classes (main.py:33-54, main.py:215-219)
    and the callback's path computation (main.py:239-243):
    `"assets/plots/" + value.split("schema:")[1] + "_plot.svg"`. */
module Resolver {
  import opened JsonValues

  const Schema := "schema:"
  const Folder := "assets/plots/"
  const Suffix := "_plot.svg"

  /** The class names of `top_20_target_classes`, in dropdown order. */
  const ClassNames: seq<string> := [
    "ListItem",
    "ImageObject",
    "BreadcrumbList",
    "Organization",
    "WebPage",
    "SearchAction",
    "Offer",
    "Person",
    "ReadAction",
    "Product",
    "EntryPoint",
    "PostalAddress",
    "Article",
    "WebSite",
    "CollectionPage",
    "NewsArticle",
    "SiteNavigationElement",
    "ContactPoint",
    "Rating",
    "Place"
  ]

  /** `top_20_target_classes`: each class name with the "schema:" prefix. */
  const TopClasses: seq<string> := seq(|ClassNames|, m requires 0 <= m < |ClassNames| => Schema + ClassNames[m])

  /** The dropdown's initial value. */
  const DefaultClass := "schema:Product"

  /** The exceptions the callback raises. */
  datatype ResolveError =
    | NoSelection   // AttributeError: a cleared dropdown passes `None`
    | NoSeparator   // IndexError: "schema:" does not occur, so the split has one piece

  /** `sep` occurs in `s` starting at index `i`. */
  predicate OccursAt(s: string, sep: string, i: nat) {
    i + |sep| <= |s| && s[i..i + |sep|] == sep
  }

  /** `sep` occurs nowhere in `s`. */
  predicate Free(s: string, sep: string) {
    forall k: nat :: k <= |s| ==> !OccursAt(s, sep, k)
  }

  /** The first occurrence of `sep` in `s` at index `i` or later. */
  function FindFrom(s: string, sep: string, i: nat): (r: Option<nat>)
    requires 0 < |sep| && i <= |s|
    ensures r.Some? ==> i <= r.value && r.value + |sep| <= |s|
    decreases |s| - i
  {
    if OccursAt(s, sep, i) then Some(i)
    else if i == |s| then None
    else FindFrom(s, sep, i + 1)
  }

  /** `FindFrom` finds the first occurrence at or after `i`, and finds
      nothing exactly when there is none. */
  lemma {:induction false} FindFromSpec(s: string, sep: string, i: nat)
    requires 0 < |sep| && i <= |s|
    ensures var r := FindFrom(s, sep, i);
      && (r.Some? ==>
            i <= r.value && OccursAt(s, sep, r.value) &&
            forall k: nat :: i <= k < r.value ==> !OccursAt(s, sep, k))
      && (r.None? ==> forall k: nat :: i <= k ==> !OccursAt(s, sep, k))
    decreases |s| - i
  {
    if !OccursAt(s, sep, i) && i < |s| {
      FindFromSpec(s, sep, i + 1);
    }
  }

  /** `s.split(sep)`: the pieces between the non-overlapping occurrences of
      `sep`, found left to right. */
  function Split(s: string, sep: string): (ps: seq<string>)
    requires 0 < |sep|
    ensures |ps| >= 1
    decreases |s|
  {
    match FindFrom(s, sep, 0)
    case None => [s]
    case Some(i) => [s[..i]] + Split(s[i + |sep|..], sep)
  }

  /** `sep.join(ps)`. */
  function Join(ps: seq<string>, sep: string): string
    requires |ps| >= 1
  {
    if |ps| == 1 then ps[0] else ps[0] + sep + Join(ps[1..], sep)
  }

  lemma SplitNone(s: string, sep: string)
    requires 0 < |sep| && FindFrom(s, sep, 0).None?
    ensures Split(s, sep) == [s]
  {
  }

  lemma SplitSome(s: string, sep: string, i: nat)
    requires 0 < |sep| && FindFrom(s, sep, 0) == Some(i)
    ensures Split(s, sep) == [s[..i]] + Split(s[i + |sep|..], sep)
  {
  }

  /** Splitting loses nothing: joining the pieces gives the string back. */
  lemma {:induction false} SplitJoin(s: string, sep: string)
    requires 0 < |sep|
    ensures Join(Split(s, sep), sep) == s
    decreases |s|
  {
    match FindFrom(s, sep, 0)
    case None =>
      SplitNone(s, sep);
    case Some(i) =>
      var rest := s[i + |sep|..];
      SplitSome(s, sep, i);
      SplitJoin(rest, sep);
      JoinCons(s[..i], Split(rest, sep), sep);
      FindFromSpec(s, sep, 0);
      assert s == s[..i] + sep + rest by {
        assert s[i..i + |sep|] == sep;
        assert s == s[..i] + s[i..i + |sep|] + rest;
      }
  }

  lemma JoinCons(p: string, ps: seq<string>, sep: string)
    requires |ps| >= 1
    ensures Join([p] + ps, sep) == p + sep + Join(ps, sep)
  {
    assert ([p] + ps)[1..] == ps;
  }

  /** No piece of a split contains the separator. */
  lemma {:induction false} SplitPiecesFree(s: string, sep: string)
    requires 0 < |sep|
    ensures forall m :: 0 <= m < |Split(s, sep)| ==> Free(Split(s, sep)[m], sep)
    decreases |s|
  {
    FindFromSpec(s, sep, 0);
    match FindFrom(s, sep, 0)
    case None =>
      SplitNone(s, sep);
    case Some(i) =>
      var rest := s[i + |sep|..];
      SplitSome(s, sep, i);
      SplitPiecesFree(rest, sep);
      var ps := Split(s, sep);
      PrefixFree(s, sep, i);
      forall m | 0 <= m < |ps| ensures Free(ps[m], sep) {
        if m > 0 {
          assert ps[m] == Split(rest, sep)[m - 1];
        }
      }
  }

  /** Before the first occurrence at `i`, the prefix `s[..i]` is free of `sep`. */
  lemma PrefixFree(s: string, sep: string, i: nat)
    requires 0 < |sep| && FindFrom(s, sep, 0) == Some(i)
    ensures Free(s[..i], sep)
  {
    FindFromSpec(s, sep, 0);
    forall k: nat | k <= i ensures !OccursAt(s[..i], sep, k) {
      if k + |sep| <= i {
        assert s[..i][k..k + |sep|] == s[k..k + |sep|];
        assert !OccursAt(s, sep, k);
      }
    }
  }

  /** The callback's image path for the dropdown value (main.py:241-242). */
  function Resolve(value: Option<string>): Result<string, ResolveError> {
    match value
    case None => Err(NoSelection)
    case Some(v) =>
      var pieces := Split(v, Schema);
      if |pieces| < 2 then Err(NoSeparator)
      else Ok(Folder + pieces[1] + Suffix)
  }

  /** The path is found exactly when "schema:" occurs in the value; then the
      class name used is what follows its first occurrence, up to the next
      occurrence or the end, and contains no "schema:" itself. */
  lemma ResolveSpec(v: string)
    ensures Resolve(None) == Err(NoSelection)
    ensures Resolve(Some(v)).Ok? <==> exists k: nat :: OccursAt(v, Schema, k)
    ensures Resolve(Some(v)).Err? ==> Resolve(Some(v)) == Err(NoSeparator)
    ensures Resolve(Some(v)).Ok? ==>
      FindFrom(v, Schema, 0).Some? &&
      var rest := v[FindFrom(v, Schema, 0).value + |Schema|..];
      exists n :: 0 <= n <= |rest| &&
        Resolve(Some(v)).value == Folder + rest[..n] + Suffix &&
        Free(rest[..n], Schema) &&
        (n == |rest| || OccursAt(rest, Schema, n))
  {
    FindFromSpec(v, Schema, 0);
    match FindFrom(v, Schema, 0)
    case None =>
      SplitNone(v, Schema);
    case Some(i) =>
      assert OccursAt(v, Schema, i);
      var rest := v[i + |Schema|..];
      var n := ResolveName(v, i);
      assert Resolve(Some(v)).value == Folder + rest[..n] + Suffix;
  }

  /** The name used when the first "schema:" is at `i`: the part of what
      follows up to the next "schema:" or the end. */
  lemma ResolveName(v: string, i: nat) returns (n: nat)
    requires FindFrom(v, Schema, 0) == Some(i)
    ensures var rest := v[i + |Schema|..];
      && n <= |rest|
      && Resolve(Some(v)) == Ok(Folder + rest[..n] + Suffix)
      && Free(rest[..n], Schema)
      && (n == |rest| || OccursAt(rest, Schema, n))
  {
    var rest := v[i + |Schema|..];
    SplitSome(v, Schema, i);
    SplitPiecesFree(rest, Schema);
    FindFromSpec(rest, Schema, 0);
    match FindFrom(rest, Schema, 0)
    case None =>
      SplitNone(rest, Schema);
      n := |rest|;
      assert rest[..n] == rest;
    case Some(j) =>
      SplitSome(rest, Schema, j);
      n := j;
  }

  /** A string without ':' cannot contain "schema:". */
  lemma NoColonFree(s: string)
    requires ':' !in s
    ensures Free(s, Schema)
  {
    forall k: nat | k <= |s| ensures !OccursAt(s, Schema, k) {
      if k + |Schema| <= |s| {
        assert s[k + 6] in s;
        assert s[k..k + |Schema|][6] == s[k + 6] != Schema[6];
      }
    }
  }

  /** The path of a value "schema:" + name, where name has no ':'. */
  lemma ResolveLabel(name: string)
    requires ':' !in name
    ensures Resolve(Some(Schema + name)) == Ok(Folder + name + Suffix)
  {
    var v := Schema + name;
    assert OccursAt(v, Schema, 0) by {
      assert v[0..|Schema|] == Schema;
    }
    assert FindFrom(v, Schema, 0) == Some(0);
    assert v[|Schema|..] == name;
    NoColonFree(name);
    FindFromSpec(name, Schema, 0);
    assert FindFrom(name, Schema, 0).None?;
    SplitNone(name, Schema);
    SplitSome(v, Schema, 0);
  }

  /** No class name contains the colon of the prefix. */
  lemma ClassNamesHaveNoColon()
    ensures forall m :: 0 <= m < |ClassNames| ==> ':' !in ClassNames[m]
  {
  }

  /** Every dropdown entry resolves to the plot named after its class: the
      entry with its "schema:" prefix removed. */
  lemma TopClassesResolve()
    ensures |TopClasses| == 20
    ensures DefaultClass in TopClasses
    ensures forall m :: 0 <= m < |TopClasses| ==>
      |TopClasses[m]| > |Schema| && TopClasses[m][..|Schema|] == Schema &&
      Resolve(Some(TopClasses[m])) == Ok(Folder + TopClasses[m][|Schema|..] + Suffix)
  {
    assert TopClasses[9] == DefaultClass;
    ClassNamesHaveNoColon();
    forall m | 0 <= m < |TopClasses|
      ensures |TopClasses[m]| > |Schema| && TopClasses[m][..|Schema|] == Schema &&
        Resolve(Some(TopClasses[m])) == Ok(Folder + TopClasses[m][|Schema|..] + Suffix)
    {
      var name := ClassNames[m];
      assert TopClasses[m] == Schema + name;
      assert (Schema + name)[..|Schema|] == Schema && (Schema + name)[|Schema|..] == name;
      ResolveLabel(name);
    }
  }
}
