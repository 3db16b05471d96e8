/** The stored key/value pairs (`value_type`, a `pair<const Key, T>`) and the view of a
    list of entries as the list of their keys. */
module Entries {
  import opened Sequences

  datatype Entry<K, V> = Entry(key: K, value: V)

  /** The keys of `es`, position by position. */
  function KeysOf<K, V>(es: seq<Entry<K, V>>): seq<K>
  {
    seq(|es|, i requires 0 <= i < |es| => es[i].key)
  }

  /** Appending an entry appends its key. */
  lemma KeysOfAppend<K, V>(es: seq<Entry<K, V>>, e: Entry<K, V>)
    ensures KeysOf(es + [e]) == KeysOf(es) + [e.key]
  {
  }

  /** Cutting an entry out cuts its key out at the same position. */
  lemma KeysOfWithout<K, V>(es: seq<Entry<K, V>>, k: nat)
    requires k < |es|
    ensures KeysOf(Without(es, k)) == Without(KeysOf(es), k)
  {
    assert forall i :: 0 <= i < |es| - 1 ==>
      KeysOf(Without(es, k))[i] == Without(KeysOf(es), k)[i];
  }

  /** Overwriting the value of an entry leaves the keys as they are. */
  lemma KeysOfSetValue<K, V>(es: seq<Entry<K, V>>, k: nat, v: V)
    requires k < |es|
    ensures KeysOf(es[k := Entry(es[k].key, v)]) == KeysOf(es)
  {
  }

  /** Looking up a key through the key view finds the entry that has that key, and among
      entries with distinct keys it is the only one. */
  lemma {:induction false} LookupFindsEntry<K, V>(es: seq<Entry<K, V>>, key: K, q: nat)
    requires Distinct(KeysOf(es)) && q < |es| && es[q].key == key
    ensures IndexOf(KeysOf(es), key) == q
  {
    assert KeysOf(es)[q] == key;
    IndexOfDistinct(KeysOf(es), q);
  }
}
