# Sunburst of schema.org class usage

`main.py` reads a tree of schema.org classes (a JSON object with an `"@id"`,
an optional `"value"` count and optional `"children"`). It flattens the tree
into the four parallel lists a Plotly sunburst takes (`ids`, `names`,
`parents`, `values`) and shows them in a Dash page. The page also has a
dropdown of the 20 most frequent classes, and picking one shows the matching
`assets/plots/<class>_plot.svg`.

This project models the computing part of that script:

- **JsonValues** (`json.dfy`): parsed JSON values. Objects are ordered
  key/value lists, with `d.get(key)` and `d[key] = v`.
- **TreeWalk** (`walk.dfy`): the recursive generator `item_generator`, which
  yields `(depth, dict)` pairs in post-order, descending through
  `"children"` keys.
- **DepthSort** (`depthsort.dfy`): `sorted(..., key=lambda x: x[0])`, a
  stable sort by depth.
- **Nodes** (`nodes.dfy`): the `Node` record, whose equality compares ids
  only. Also the way the loop grows `nodelist`: a dict's own "container" node
  is appended unless a node with the same id is already listed, and then one
  "edge" node per child is appended, always.
- **Rows** (`rows.dfy`): how one dict is read. A missing or `null` value
  defaults to 0, and missing keys or bad children raise exceptions. This
  module also holds the row-building loop itself, as methods proved equal to
  a fold.
- **Chart** (`chart.dfy`): the four sunburst lists. A row whose id is
  already among the ids gets the id `"<id> <parent> <generation>"`.
- **Pipeline** (`pipeline.dfy`): the whole script from the parsed tree to the
  sunburst, or to the exception that stops it.
- **Resolver** (`resolver.dfy`): the dropdown's 20 labels and the callback's
  `"assets/plots/" + value.split("schema:")[1] + "_plot.svg"`, with
  `str.split` modelled in full.
- **RootedTree** (`rooted.dfy`): what the loop builds for a tree whose root
  is a dict and whose dicts all go through.
- **Worked** (`worked.dfy`): the whole pipeline evaluated on a tree whose
  root `A` has two children with id `B`, and on one where it has three.

Python exceptions are modelled as `Err` values:

- `MissingId` for a `KeyError` on `"@id"`;
- `ChildNotObject` for an `AttributeError` from `child.get`;
- `NotIterable` for a `TypeError` from iterating a `"children"` value that is
  not iterable;
- `NoSelection` and `NoSeparator` for the callback's `AttributeError` and
  `IndexError`.

Two consequences of the code are worth stating:

- **Ids are not unique.** A repeated id is renamed once, to
  `"<id> <parent> <generation>"`, and two renamed rows can still collide.
  `Chart.RepeatsAreRenamed` shows that the later of two equal ids is always
  a rename. `Worked.TripletsCollide` shows three children with the same id
  giving two equal renamed ids.
- **Containers are skipped often.** A dict's container is skipped when
  *any* earlier row has its id, including an edge row. For a tree with a
  dict at the root, where every dict goes through and has distinct keys,
  only the root becomes a container row (`RootedTree.OnlyRootContainer`),
  and there is one row per dict the walk yields
  (`RootedTree.OneRowPerDict`).

## Model

| member | source | states |
|---|---|---|
| JsonValues.GetSpec | main.py:116 | `d.get(key)` finds nothing exactly when no pair has the key; otherwise it finds the value of the first pair that has it |
| JsonValues.Put | main.py:117 | after `d[key] = v`, `key` maps to `v` and every other key maps to what it did before |
| TreeWalk.WalkMembership | main.py:20-30 | an item is yielded exactly when its dict is reachable through lists and "children" keys, at the starting depth plus the number of "children" keys descended |
| TreeWalk.WalkFieldsMembership | main.py:24-26 | the loop over a dict's pairs yields, one level deeper, exactly what is reachable under one of its "children" keys |
| TreeWalk.WalkListMembership | main.py:28-30 | the loop over a list yields, at the same depth, exactly what is reachable from one of its elements |
| TreeWalk.WalkCount | main.py:20-30 | the walk yields each dict at each depth once per route to it, as counted by `Paths`; a dict reached along one route is yielded exactly once |
| TreeWalk.PathsReach | main.py:20-30 | the route count is positive exactly for the dicts the walk reaches |
| TreeWalk.DictYieldedLast | main.py:23-27 | a dict is yielded last, after everything beneath it, and everything beneath it is strictly deeper |
| DepthSort.SortByDepthCorrect | main.py:112 | the sorted list is non-decreasing in depth, is a permutation of the walk, and keeps the input order at each depth (stable) |
| DepthSort.SortedUnique | main.py:112 | any two lists sorted by depth that agree at every depth are equal, so the three properties above determine the result |
| DepthSort.AtDepthElements | main.py:112 | the items at depth k are exactly the elements of depth k |
| Nodes.Contains | main.py:13-14 | `probe in nodelist` holds exactly when some row has the probe's id, whatever its other fields |
| Nodes.RunOutcome | main.py:115-131 | the loop goes through exactly when every dict does; otherwise the exception is the first failing dict's; on success the rows are the fold of the contributions |
| Nodes.RunErrorPersists | main.py:115-131 | once a prefix of the loop has raised, the whole loop gives that exception |
| Nodes.CollectContainers | main.py:119-122 | no container row repeats the id of any earlier row, and every container row is one of the processed dicts' containers |
| Nodes.CollectRegisters | main.py:119-122 | every processed dict's container id ends up among the rows |
| Nodes.CollectParentsPrecede | main.py:123-131 | every edge row names as parent the id of an earlier row |
| Nodes.CollectEdges | main.py:123-131 | the edge rows, in order, are exactly all children's edges, one dict after another |
| Nodes.CollectIds | main.py:119-131 | the rows hold an id exactly when some processed dict's container or some contributed edge carries it |
| Nodes.RegisterRule | main.py:119-122 | dict m's container is appended right after the rows so far exactly when no earlier container and no earlier edge has its id; its edges follow in either case |
| Nodes.CollectFirst | main.py:119-122 | the first dict always registers its container, as row 0 |
| Nodes.CollectGrows | main.py:114-131 | the rows after a prefix of the dicts are a prefix of the final rows |
| Nodes.OnlyFirstContainer | main.py:119-131 | when each later dict's id is already among the earlier edges, the rows are the first container followed by all edges |
| Nodes.ContainerStep | main.py:119-131 | one pass keeps the no-repeated-container invariant, keeps the earlier rows as a prefix, and adds no container other than its own |
| Nodes.ParentsStep | main.py:119-131 | one pass keeps the parents-precede invariant |
| Nodes.EdgesStep | main.py:119-131 | one pass adds exactly its children's edges to the edge rows |
| Rows.Defaulted | main.py:116-117 | after the default is written, "value" holds the dict's value, or 0 when it was missing or null, and no other key changes |
| Rows.EdgeRule | main.py:125-131 | a children list goes through exactly when every element is a dict with a string "@id"; then there is one edge per element, in order, with the parent's id and generation and the element's id and defaulted value; otherwise the error is the first bad element's |
| Rows.ContributeShape | main.py:116-131 | a dict that goes through has a string id; its container carries that id, its depth, no parent and its defaulted value; its edges are those of its "children", and none without that key |
| Rows.BuildNodes | main.py:114-131 | the imperative loop computes exactly the fold `NodeRows` |
| Rows.ProcessItem | main.py:116-131 | one pass of the loop body registers the container unless present and appends the edges, or returns the dict's exception |
| Rows.AppendChildren | main.py:123-131 | iterating "children" appends its edges, or raises as Python does for a non-list |
| Rows.AppendEdgeRows | main.py:125-131 | the inner loop appends exactly the edges of the list, or stops with the first element's exception |
| Rows.EdgeErrorPersists | main.py:125-131 | once a prefix of the inner loop has raised, the inner loop gives that exception |
| Rows.NodeRowsOutcome | main.py:115-131 | `nodelist` is built exactly when every dict contributes; otherwise the exception is the first failing dict's |
| Rows.ContainerRule | main.py:119-122 | container rows never repeat an earlier row's id and come from processed dicts; every processed dict's id is among the rows |
| Rows.ContainerAppended | main.py:119-122 | when dict m's turn comes, its container is appended exactly when no earlier dict has its "@id" and no edge row so far has it; its edges follow in either case |
| Rows.ParentsRule | main.py:123-131 | no forward parent references in `nodelist` |
| Rows.EdgeSplit | main.py:123-131 | the edge rows, in order, are exactly the processed dicts' edges |
| Chart.NatToStringRoundTrip | main.py:136 | reading back the decimal digits of `str(n)` gives `n` |
| Chart.NatToStringInjective | main.py:136 | different generations print differently |
| Chart.ChartOf | main.py:133-140 | the four lists have one entry per row |
| Chart.Assemble | main.py:133-140 | the imperative loop builds exactly `ChartOf(nodelist)` |
| Chart.ChartShape | main.py:133-140 | names, parents and values copy the rows; an id is the row's own id unless that id is already among the earlier ids, and otherwise it is `"<id> <parent> <generation>"` |
| Chart.RepeatsAreRenamed | main.py:134-137 | when two ids are equal, the later one is a rename: its row's own id occurred earlier, so its id is the display form (a necessary condition; it does not say that collisions happen) |
| Chart.DistinctIdsKept | main.py:134-137 | when the rows' ids are all different, `ids` equals `names` |
| Pipeline.BuildSunburst | main.py:112-140 | the script's two loops compute exactly `SunburstOf(root)` |
| Pipeline.ItemListItems | main.py:112 | the sorted item list holds exactly the walked items |
| Pipeline.SunburstOutcome | main.py:110-140 | the script goes through exactly when every reachable dict goes through; otherwise it raises one of their exceptions |
| Pipeline.SunburstParents | main.py:112-140 | every parent in the chart is the name of an earlier entry, and every reachable dict's id is among the names |
| Pipeline.RootFirst | main.py:112-140 | for a dict root, entry 0 has the root's id as both id and name, no parent, and the root's defaulted value |
| RootedTree.EdgeCountSort | main.py:112 | sorting does not change how many edge rows the dicts contribute |
| RootedTree.DictEdgeCount | main.py:20-30 | in a dict's walk where every dict goes through and has distinct keys, the edges number one fewer than the dicts |
| RootedTree.AnnouncedEarlier | main.py:112-131 | in such a tree, every dict after the root has its id among the edges contributed before its turn |
| RootedTree.OnlyRootContainer | main.py:112-131 | for a dict root whose dicts all go through and have distinct keys, the rows are the root's container followed by all the edges, in order |
| RootedTree.OneRowPerDict | main.py:112-131 | in such a tree there is one row per dict the walk yields |
| Resolver.FindFromSpec | main.py:241 | the search finds the first occurrence of the separator, and finds nothing exactly when there is none |
| Resolver.SplitJoin | main.py:241 | `sep.join(s.split(sep)) == s` |
| Resolver.SplitPiecesFree | main.py:241 | no piece of a split contains the separator |
| Resolver.ResolveSpec | main.py:239-243 | a cleared dropdown raises; otherwise a path is produced exactly when "schema:" occurs; the path uses the text after the first "schema:" up to the next one or the end |
| Resolver.ResolveLabel | main.py:241-242 | a value "schema:" + name, where name has no ':', resolves to `assets/plots/<name>_plot.svg` |
| Resolver.TopClassesResolve | main.py:33-54 | there are 20 labels, the default "schema:Product" is one of them, and each label resolves to the plot named after its class |
| Worked.TwinChildren | main.py:112-140 | a root A with two children of id B gives ids A, B, "B A 0", names A, B, B, parents None, A, A, and values 0, 0, 0 |
| Worked.TripletsCollide | main.py:112-140 | a root A with three children of id B gives ids A, B, "B A 0", "B A 0": two entries share an id |

## Left out

- Reading `data/count.json` and `json.load` are I/O. The model starts from the parsed value.
- JSON numbers are modelled as integers. Floats and their formatting are not modelled.
- JSON objects are taken to have distinct keys. `json.load` keeps the last of several equal keys, while the model's lookup takes the first. The walk follows every pair named "children".
- Rows.IdOf: an `"@id"` that is not a string (a number, a list) would still become a Python node id. The model reports `UnsupportedId` instead of modelling ids of other types.
- Rows.Defaulted: the in-place write `d["value"] = 0` is modelled on values. Nothing later in the script reads the written dicts except through the defaulted value, so aliasing is not modelled.
- The Dash application, its layout and `px.sunburst` are UI and are not modelled. Only the dropdown's option list and default are kept.
- The callback's `print` and the returned `html.Img` are output. The model returns the image path.
- `Node.__repr__` only affects printing.
- `data2` is unused by the script.
- The commented-out prototype and the commented-out parent check are not code. The twin- and triple-children examples stand in for the prototype's test tree.
- A `"children"` value that is a non-empty dict or string iterates keys or characters, which have no `.get`. That case is modelled only as the resulting `ChildNotObject`.
