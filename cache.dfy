/**
 * The process-wide key/value cache that the per-question resolver and the
 * list endpoint share. Keys are strings in the application
 * ("BharathFD_Question_{id}_{lang}" and "BharathFD_FAQList_{lang}"); their
 * two prefixes differ, so no question key can equal a list key, and the
 * datatype Key below distinguishes them by constructor instead.
 */
module CacheStore {
  import opened Wrappers

  /** One FAQ as the list endpoint serializes it: {id, question, answer}. */
  datatype Row = Row(id: int, question: string, answer: string)

  datatype Key = ItemKey(id: int, lang: string) | ListKey(lang: string)

  /** A cached question text, or a cached serialized list. */
  datatype Value = Text(text: string) | Rows(rows: seq<Row>)

  type Store = map<Key, Value>

  /** Truthiness of a cached value: a non-empty string or a non-empty list. */
  predicate Truthy(v: Value)
  {
    match v
    case Text(s) => s != ""
    case Rows(rs) => rs != []
  }

  /** Question keys hold text and list keys hold lists: every writer keeps this. */
  ghost predicate WellTyped(store: Store)
  {
    forall k :: k in store ==> (k.ItemKey? <==> store[k].Text?)
  }

  /** Outside `keys`, the two caches hold the same entries. */
  ghost predicate SameOutside(m1: Store, m2: Store, keys: set<Key>)
  {
    forall k :: k !in keys ==> (k in m1 <==> k in m2) && (k in m1 ==> m1[k] == m2[k])
  }

  /** The text under `key` when it counts as a hit for the resolver. */
  function CachedText(store: Store, key: Key): Option<string>
  {
    if key in store && store[key].Text? && Truthy(store[key]) then Some(store[key].text) else None
  }

  /** The list under `key` when it counts as a hit for the list endpoint. */
  function CachedRows(store: Store, key: Key): Option<seq<Row>>
  {
    if key in store && store[key].Rows? && Truthy(store[key]) then Some(store[key].rows) else None
  }

  /** The cache collaborator, with get/set and explicit eviction in place of time-based expiry. */
  class Cache {
    var entries: Store

    ghost predicate Valid()
      reads this
    {
      WellTyped(entries)
    }

    constructor ()
      ensures Valid() && entries == map[]
    {
      entries := map[];
    }

    /** cache.get: the stored value, or None when nothing is stored under `key`. */
    method Get(key: Key) returns (v: Option<Value>)
      requires Valid()
      ensures v.Some? <==> key in entries
      ensures v.Some? ==> v.value == entries[key] && (key.ItemKey? <==> v.value.Text?)
    {
      if key in entries {
        v := Some(entries[key]);
      } else {
        v := None;
      }
    }

    /** cache.set: store `value` under `key`, replacing what was there; no other key changes. */
    method Set(key: Key, value: Value)
      requires Valid()
      requires key.ItemKey? <==> value.Text?
      modifies this
      ensures Valid()
      ensures entries == old(entries)[key := value]
    {
      entries := entries[key := value];
    }

    /** Expiry of one entry (the application stores every entry with a one-hour timeout). */
    method Evict(key: Key)
      requires Valid()
      modifies this
      ensures Valid()
      ensures entries == old(entries) - {key}
    {
      entries := entries - {key};
    }

    /** cache.clear: drop every entry. */
    method Clear()
      modifies this
      ensures Valid() && entries == map[]
    {
      entries := map[];
    }
  }
}
