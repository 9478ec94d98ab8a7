/**
 * The namespaced key/value store the memory manager writes into. Items
 * live under a namespace (a tuple of strings) and a key; a search by a
 * namespace prefix finds the items of that namespace and of every longer
 * one that starts with it. The vector ranking of a search is not modelled:
 * a search returns as many matching items as the limit allows, in an
 * order it does not promise.
 */
module Store {
  import opened Records

  datatype Key = Key(ns: seq<string>, id: string)

  /** A search hit: where the value is stored, and the value. */
  datatype Item = Item(key: Key, value: MemoryRecord)

  function Min(a: nat, b: nat): nat {
    if a <= b then a else b
  }

  /** The keys stored under `prefix` or under a namespace that extends it. */
  function MatchingKeys(entries: map<Key, MemoryRecord>, prefix: seq<string>): set<Key> {
    set k | k in entries && prefix <= k.ns
  }

  /** The values of a list of hits, in order. */
  function Values(items: seq<Item>): seq<MemoryRecord> {
    seq(|items|, i requires 0 <= i < |items| => items[i].value)
  }

  /**
   * What a search for `prefix` with `limit` may answer: `min(limit, n)`
   * distinct stored items under the prefix, where `n` items match.
   */
  ghost predicate SearchAnswer(entries: map<Key, MemoryRecord>, prefix: seq<string>, limit: nat, items: seq<Item>) {
    && |items| == Min(limit, |MatchingKeys(entries, prefix)|)
    && (forall i :: 0 <= i < |items| ==>
          items[i].key in entries && prefix <= items[i].key.ns && entries[items[i].key] == items[i].value)
    && (forall i, j :: 0 <= i < j < |items| ==> items[i].key != items[j].key)
  }

  /** The keys of a list of hits. */
  function KeysOf(items: seq<Item>): set<Key> {
    set i | 0 <= i < |items| :: items[i].key
  }

  lemma {:induction false} DistinctKeys(items: seq<Item>)
    requires forall i, j :: 0 <= i < j < |items| ==> items[i].key != items[j].key
    ensures |KeysOf(items)| == |items|
    decreases |items|
  {
    if items != [] {
      var n := |items| - 1;
      DistinctKeys(items[..n]);
      assert KeysOf(items) == KeysOf(items[..n]) + {items[n].key};
      assert items[n].key !in KeysOf(items[..n]);
    }
  }

  /**
   * A search that returns fewer hits than its limit has returned every
   * matching item.
   */
  lemma SearchBelowLimitIsComplete(entries: map<Key, MemoryRecord>, prefix: seq<string>, limit: nat, items: seq<Item>)
    requires SearchAnswer(entries, prefix, limit, items) && |items| < limit
    ensures KeysOf(items) == MatchingKeys(entries, prefix)
  {
    SearchWithinLimitIsComplete(entries, prefix, limit, items);
  }

  /**
   * A search whose limit covers every matching item brings back all of
   * their keys, whatever order it picks.
   */
  lemma SearchWithinLimitIsComplete(entries: map<Key, MemoryRecord>, prefix: seq<string>, limit: nat, items: seq<Item>)
    requires SearchAnswer(entries, prefix, limit, items) && |MatchingKeys(entries, prefix)| <= limit
    ensures KeysOf(items) == MatchingKeys(entries, prefix)
  {
    DistinctKeys(items);
    var found := KeysOf(items);
    var all := MatchingKeys(entries, prefix);
    assert found <= all;
    assert all == found + (all - found);
    assert |all - found| == 0;
  }

  /**
   * A search whose limit is at least twice the number of matching items
   * brings back every one of them, with its stored value.
   */
  lemma SearchWithRoomReturnsAll(entries: map<Key, MemoryRecord>, prefix: seq<string>, limit: nat, items: seq<Item>)
    requires SearchAnswer(entries, prefix, 2 * limit, items) && |MatchingKeys(entries, prefix)| <= limit
    ensures |items| <= limit
    ensures forall k :: k in MatchingKeys(entries, prefix) ==> entries[k] in Values(items)
  {
    if MatchingKeys(entries, prefix) != {} {
      SearchBelowLimitIsComplete(entries, prefix, 2 * limit, items);
      forall k | k in MatchingKeys(entries, prefix)
        ensures entries[k] in Values(items)
      {
        assert k in KeysOf(items);
        var i :| 0 <= i < |items| && items[i].key == k;
        assert Values(items)[i] == entries[k];
      }
    }
  }

  /** Writing a key the store does not hold adds it to every search that its namespace matches. */
  lemma MatchingAfterInsert(entries: map<Key, MemoryRecord>, k: Key, v: MemoryRecord, prefix: seq<string>)
    requires k !in entries
    ensures prefix <= k.ns ==> MatchingKeys(entries[k := v], prefix) == MatchingKeys(entries, prefix) + {k}
    ensures prefix <= k.ns ==> |MatchingKeys(entries[k := v], prefix)| == |MatchingKeys(entries, prefix)| + 1
    ensures !(prefix <= k.ns) ==> MatchingKeys(entries[k := v], prefix) == MatchingKeys(entries, prefix)
  {
    if prefix <= k.ns {
      assert MatchingKeys(entries[k := v], prefix) == MatchingKeys(entries, prefix) + {k};
      assert k !in MatchingKeys(entries, prefix);
    } else {
      assert MatchingKeys(entries[k := v], prefix) == MatchingKeys(entries, prefix);
    }
  }

  class Store {
    var entries: map<Key, MemoryRecord>

    constructor ()
      ensures entries == map[]
    {
      entries := map[];
    }

    /** `put(namespace, key, value)`: upsert. */
    method Put(ns: seq<string>, id: string, value: MemoryRecord)
      modifies this
      ensures entries == old(entries)[Key(ns, id) := value]
    {
      entries := entries[Key(ns, id) := value];
    }

    /** `search(prefix, limit=limit)`: up to `limit` matching items, in no promised order. */
    method Search(prefix: seq<string>, limit: nat) returns (items: seq<Item>)
      ensures SearchAnswer(entries, prefix, limit, items)
    {
      var pending := MatchingKeys(entries, prefix);
      items := [];
      while |items| < limit && pending != {}
        invariant |items| + |pending| == |MatchingKeys(entries, prefix)|
        invariant |items| <= limit
        invariant forall k :: k in pending ==> k in entries && prefix <= k.ns
        invariant forall i :: 0 <= i < |items| ==> items[i].key !in pending
        invariant forall i :: 0 <= i < |items| ==>
          items[i].key in entries && prefix <= items[i].key.ns && entries[items[i].key] == items[i].value
        invariant forall i, j :: 0 <= i < j < |items| ==> items[i].key != items[j].key
        decreases |pending|
      {
        var k :| k in pending;
        assert |pending - {k}| == |pending| - 1;
        items := items + [Item(k, entries[k])];
        pending := pending - {k};
      }
    }
  }
}
