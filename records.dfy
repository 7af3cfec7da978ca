/**
 A plain JavaScript object used as a dictionary from strings to strings, as
 `localSecrets` and `infisicalSecrets` are in scripts/env.ts. Besides the
 values it carries the order in which `Object.entries` enumerates them: the
 order in which each key was first assigned.
 */
module Records {

  datatype Option<T> = None | Some(value: T)

  /** `keys` is the enumeration order, `values` the own properties. */
  datatype Record = Record(keys: seq<string>, values: map<string, string>)

  const Empty: Record := Record([], map[])

  predicate Distinct(s: seq<string>) {
    forall i, j :: 0 <= i < j < |s| ==> s[i] != s[j]
  }

  /** Every property is enumerated exactly once. */
  predicate WellFormed(r: Record) {
    && Distinct(r.keys)
    && (forall k :: k in r.keys ==> k in r.values)
    && (forall k :: k in r.values ==> k in r.keys)
  }

  /** `r[k]`: the value of an own property, or `undefined` when there is
      none. Names inherited from `Object.prototype` (`constructor`,
      `toString`, ...) are read as absent here. */
  function Get(r: Record, k: string): (v: Option<string>)
    ensures v.Some? <==> k in r.values
    ensures v.Some? ==> v.value == r.values[k]
  {
    if k in r.values then Some(r.values[k]) else None
  }

  /** JavaScript truthiness of a `string | undefined`: `undefined` and the
      empty string are both falsy. */
  predicate Truthy(v: Option<string>) {
    v.Some? && v.value != ""
  }

  /** `r[k] = v`: an existing property keeps its place in the enumeration
      order, a new one goes to the end. */
  function Put(r: Record, k: string, v: string): (r': Record)
    requires WellFormed(r)
    ensures WellFormed(r')
    ensures r'.values == r.values[k := v]
  {
    if k in r.values then Record(r.keys, r.values[k := v])
    else Record(r.keys + [k], r.values[k := v])
  }

  /** Dropping the last key of a duplicate-free sequence leaves one without
      that key. */
  lemma DistinctInit(s: seq<string>)
    requires Distinct(s) && s != []
    ensures Distinct(s[..|s| - 1])
    ensures s[|s| - 1] !in s[..|s| - 1]
  {
    assert forall j :: 0 <= j < |s| - 1 ==> s[..|s| - 1][j] == s[j];
  }
}
