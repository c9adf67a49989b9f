/**
 * The keyed containers of the in-memory store (server/storage.ts:46-52) are
 * JavaScript `Map`s: `get`/`set` by key, and iteration (`values()`,
 * `forEach`) in insertion order, where `set` on a key already present
 * replaces the value in place and keeps the key's position.
 */
module Tables {
  import opened Schema

  datatype Table<V> = Table(keys: seq<Id>, entries: map<Id, V>) {

    /** Keys are listed once each, in insertion order, and exactly the
        listed keys have entries. */
    ghost predicate Valid() {
      && (forall i, j :: 0 <= i < j < |keys| ==> keys[i] != keys[j])
      && (forall k :: k in entries <==> k in keys)
    }

    /** Lookup by key. */
    function Get(id: Id): (r: Option<V>)
      ensures r.Some? <==> id in entries
      ensures r.Some? ==> r.value == entries[id]
      ensures Valid() ==> (r.Some? <==> id in keys)
    {
      if id in entries then Some(entries[id]) else None
    }

    /** Store v under id. */
    function Set(id: Id, v: V): (t: Table<V>)
      requires Valid()
      ensures t.Valid()
      ensures t.Get(id) == Some(v)
      ensures forall k :: k != id ==> t.Get(k) == Get(k)
      ensures id in entries ==> t.keys == keys
      ensures id !in entries ==> t.keys == keys + [id]
    {
      if id in entries then Table(keys, entries[id := v])
      else Table(keys + [id], entries[id := v])
    }

    /** The values, in insertion order of their keys. */
    function Values(): (vs: seq<V>)
      requires Valid()
      ensures |vs| == |keys|
      ensures forall i :: 0 <= i < |keys| ==> vs[i] == entries[keys[i]]
    {
      seq(|keys|, i requires 0 <= i < |keys| => entries[keys[i]])
    }
  }

  function Empty<V>(): (t: Table<V>)
    ensures t.Valid() && t.keys == []
    ensures forall k :: t.Get(k) == None
  {
    Table([], map[])
  }

  /** Every value is stored under its own id: the store's records carry their
      key as their `id` field. */
  ghost predicate KeyedBy<V>(t: Table<V>, idOf: V -> Id) {
    forall k :: k in t.entries ==> idOf(t.entries[k]) == k
  }

  /** Setting a key to the value it already holds changes nothing. */
  lemma {:induction false} SetSame<V>(t: Table<V>, id: Id)
    requires t.Valid() && id in t.entries
    ensures t.Set(id, t.entries[id]) == t
  {
    assert t.entries[id := t.entries[id]] == t.entries;
  }

  /** Setting the same key twice keeps only the last value. */
  lemma {:induction false} SetSet<V>(t: Table<V>, id: Id, v: V, w: V)
    requires t.Valid()
    ensures t.Set(id, v).Set(id, w) == t.Set(id, w)
  {
    assert t.entries[id := v][id := w] == t.entries[id := w];
  }

  /** Setting a key that is present replaces its value at its position in
      the iteration order and leaves every other position alone. */
  lemma {:induction false} ValuesAfterSet<V>(t: Table<V>, i: nat, v: V)
    requires t.Valid() && i < |t.keys|
    ensures t.Set(t.keys[i], v).Values() == t.Values()[i := v]
  {
    var id := t.keys[i];
    assert id in t.entries;
    var u := t.Set(id, v);
    assert u.keys == t.keys;
    forall j | 0 <= j < |t.keys|
      ensures u.Values()[j] == t.Values()[i := v][j]
    {
      if j != i {
        assert t.keys[j] != id;
      }
    }
  }

  /** In a table keyed by its records' ids, the values in iteration order
      have pairwise distinct ids, and each sits under its own id. */
  lemma {:induction false} KeyedValues<V>(t: Table<V>, idOf: V -> Id)
    requires t.Valid() && KeyedBy(t, idOf)
    ensures forall i, j :: 0 <= i < j < |t.keys| ==> idOf(t.Values()[i]) != idOf(t.Values()[j])
    ensures forall v :: v in t.Values() ==> idOf(v) in t.entries && t.entries[idOf(v)] == v
  {
    var vs := t.Values();
    forall i | 0 <= i < |vs|
      ensures idOf(vs[i]) == t.keys[i]
    {
      assert t.keys[i] in t.entries;
    }
  }
}
