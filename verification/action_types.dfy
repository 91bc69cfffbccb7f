/**
 * `createActions(prefix, types)`: the namespaced action-type table used by
 * the store, mapping each name `t` to `"prefix.t"`. The names are assigned
 * in list order as properties of a fresh plain object. Assigning a string
 * to the name `__proto__` goes to the prototype setter, which ignores
 * non-object values, so that name never becomes a key.
 */
module ActionTypes {

  const Separator := "."

  /** The one property name a plain object assignment does not create. */
  const ProtoKey := "__proto__"

  /** The names that become keys. */
  function KeySet(types: seq<string>): set<string>
  {
    set t | t in types && t != ProtoKey
  }

  /** `results[type] = prefix + "." + type` on the object built so far. */
  function Assign(results: map<string, string>, prefix: string, t: string): map<string, string>
  {
    if t == ProtoKey then results else results[t := prefix + Separator + t]
  }

  /**
   * The table for `types`: one key per distinct name (other than
   * `__proto__`), no other keys, and the value of `t` is the prefix, a dot
   * and `t`.
   */
  function CreateActions(prefix: string, types: seq<string>): (r: map<string, string>)
    ensures r.Keys == KeySet(types)
    ensures forall t :: t in r ==> r[t] == prefix + Separator + t
    decreases |types|
  {
    if |types| == 0 then map[]
    else
      var init := types[..|types| - 1];
      assert types == init + [types[|types| - 1]];
      Assign(CreateActions(prefix, init), prefix, types[|types| - 1])
  }

  /** Every value starts with the prefix and a dot, and ends with its key. */
  lemma ValuesAreNamespaced(prefix: string, types: seq<string>, t: string)
    requires t in CreateActions(prefix, types)
    ensures var v := CreateActions(prefix, types)[t];
            |v| == |prefix| + 1 + |t| &&
            v[..|prefix| + 1] == prefix + Separator && v[|prefix| + 1..] == t
  {
    var v := CreateActions(prefix, types)[t];
    assert v == (prefix + Separator) + t;
  }

  /** An empty list gives an empty table. */
  lemma EmptyTypes(prefix: string)
    ensures CreateActions(prefix, []) == map[]
  {
  }

  /** Repeating a name already listed changes nothing. */
  lemma RepeatIsIdempotent(prefix: string, types: seq<string>, t: string)
    requires t in types
    ensures CreateActions(prefix, types + [t]) == CreateActions(prefix, types)
  {
    var l, r := CreateActions(prefix, types + [t]), CreateActions(prefix, types);
    assert KeySet(types + [t]) == KeySet(types);
    assert forall k :: k in l ==> l[k] == r[k];
  }

  /** The table depends on the set of names only, not on their order or repetition. */
  lemma OnlyTheSetOfNamesMatters(prefix: string, types: seq<string>, others: seq<string>)
    requires forall t :: t in types <==> t in others
    ensures CreateActions(prefix, types) == CreateActions(prefix, others)
  {
    var l, r := CreateActions(prefix, types), CreateActions(prefix, others);
    assert KeySet(types) == KeySet(others);
    assert forall k :: k in l ==> l[k] == r[k];
  }

  /** The keys do not depend on the prefix. */
  lemma KeysIgnorePrefix(p: string, q: string, types: seq<string>)
    ensures CreateActions(p, types).Keys == CreateActions(q, types).Keys
  {
  }

  /** A `__proto__` entry creates no key: it is never a key, and appending it changes nothing. */
  lemma ProtoNameCreatesNoKey(prefix: string, types: seq<string>)
    ensures ProtoKey !in CreateActions(prefix, types)
    ensures CreateActions(prefix, types + [ProtoKey]) == CreateActions(prefix, types)
  {
    assert (types + [ProtoKey])[..|types|] == types;
  }
}
