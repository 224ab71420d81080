/** Parsed JSON values, as `json.load` hands them to the flattening script. */
module JsonValues {
  datatype Option<T> = None | Some(value: T)

  datatype Result<T, E> = Ok(value: T) | Err(error: E)

  /** A JSON value. Objects keep their pairs in insertion order, as a Python
      dict does; numbers are integers (the tree carries counts). */
  datatype Json =
    | JNull
    | JBool(b: bool)
    | JNum(n: int)
    | JStr(s: string)
    | JArr(items: seq<Json>)
    | JObj(fields: seq<(string, Json)>)

  type Fields = seq<(string, Json)>

  /** No key occurs twice, which holds of every dict that `json.load` builds. */
  predicate DistinctKeys(fs: Fields) {
    forall k, m :: 0 <= k < m < |fs| ==> fs[k].0 != fs[m].0
  }

  /** `d.get(key)`: the value of the first pair with that key, if any. */
  function Get(fs: Fields, key: string): Option<Json> {
    if fs == [] then None
    else if fs[0].0 == key then Some(fs[0].1)
    else Get(fs[1..], key)
  }

  /** `Get` finds nothing exactly when no pair has the key, and otherwise
      the value of the first pair that has it. */
  lemma {:induction false} GetSpec(fs: Fields, key: string)
    ensures var r := Get(fs, key);
      && (r.None? <==> forall k :: 0 <= k < |fs| ==> fs[k].0 != key)
      && (r.Some? ==>
            exists k :: 0 <= k < |fs| && fs[k] == (key, r.value) &&
              forall m :: 0 <= m < k ==> fs[m].0 != key)
  {
    if fs != [] && fs[0].0 != key {
      GetSpec(fs[1..], key);
      var r := Get(fs[1..], key);
      if r.Some? {
        var k :| 0 <= k < |fs[1..]| && fs[1..][k] == (key, r.value) &&
          forall m :: 0 <= m < k ==> fs[1..][m].0 != key;
        assert fs[k + 1] == (key, r.value);
        forall m | 0 <= m < k + 1 ensures fs[m].0 != key {
          if m > 0 { assert fs[m] == fs[1..][m - 1]; }
        }
      } else {
        forall k | 0 <= k < |fs| ensures fs[k].0 != key {
          if k > 0 { assert fs[k] == fs[1..][k - 1]; }
        }
      }
    }
  }

  /** `d[key] = v`: overwrite the value of an existing key in place, or add
      the pair at the end. */
  function Put(fs: Fields, key: string, v: Json): (r: Fields)
    ensures Get(r, key) == Some(v)
    ensures forall other :: other != key ==> Get(r, other) == Get(fs, other)
  {
    if fs == [] then [(key, v)]
    else if fs[0].0 == key then [(key, v)] + fs[1..]
    else
      var rest := Put(fs[1..], key, v);
      assert forall other :: other != key ==> Get([fs[0]] + rest, other) == Get(fs, other) by {
        forall other | other != key ensures Get([fs[0]] + rest, other) == Get(fs, other) {
          assert ([fs[0]] + rest)[1..] == rest;
        }
      }
      assert ([fs[0]] + rest)[1..] == rest;
      [fs[0]] + rest
  }
}
