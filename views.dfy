/**
 * The list endpoint (faq/views.py): a list-level cache keyed by language in
 * front of the per-question resolver.
 */
module Views {
  import opened Wrappers
  import opened CacheStore
  import opened Models

  const NotFoundMessage := "No FAQs found."

  /** The endpoint's answer: the serialized list (HTTP 200) or a message (HTTP 404). */
  datatype Response = Ok(rows: seq<Row>) | NotFound(message: string)

  /** The HTTP status the endpoint sends with a response. */
  function StatusCode(r: Response): (code: int)
    ensures code == 200 <==> r.Ok?
    ensures code == 404 <==> r.NotFound?
  {
    if r.Ok? then 200 else 404
  }

  /** The `lang` query parameter, or the default language when the request has none. */
  function RequestLang(param: Option<string>): (lang: string)
    ensures param.None? ==> lang == DefaultLang
    ensures param.Some? ==> lang == param.value
  {
    match param
    case None => DefaultLang
    case Some(l) => l
  }

  /** All records have distinct ids, as primary keys do. */
  predicate DistinctIds(recs: seq<FaqRecord>)
  {
    forall i, j :: 0 <= i < j < |recs| ==> recs[i].id != recs[j].id
  }

  /** The per-question keys of `recs` in language `lang`. */
  function ItemKeys(recs: seq<FaqRecord>, lang: string): set<Key>
  {
    set i | 0 <= i < |recs| :: ItemKey(recs[i].id, lang)
  }

  /** Rows assembled so far, and the cache after the resolver calls that built them. */
  datatype Assembly = Assembly(rows: seq<Row>, store: Store)

  /**
   * Row assembly on a list-cache miss: one row per record, in collection
   * order, each question resolved through the per-question cache, whose
   * state each resolver call passes on to the next.
   */
  function BuildRows(store: Store, recs: seq<FaqRecord>, lang: string): (a: Assembly)
    ensures |a.rows| == |recs|
    ensures forall i :: 0 <= i < |recs| ==> a.rows[i].id == recs[i].id && a.rows[i].answer == recs[i].answer
    ensures a.store.Keys == store.Keys + ItemKeys(recs, lang)
    ensures WellTyped(store) ==> WellTyped(a.store)
    decreases |recs|
  {
    if recs == [] then Assembly([], store)
    else
      var init := recs[..|recs| - 1];
      var rec := recs[|recs| - 1];
      var prev := BuildRows(store, init, lang);
      var l := ItemLookup(prev.store, rec, lang);
      ItemKeysSnoc(recs, lang);
      Assembly(prev.rows + [Row(rec.id, l.text, rec.answer)], l.store)
  }

  lemma ItemKeysSnoc(recs: seq<FaqRecord>, lang: string)
    requires recs != []
    ensures ItemKeys(recs, lang) == ItemKeys(recs[..|recs| - 1], lang) + {ItemKey(recs[|recs| - 1].id, lang)}
  {
  }

  /** Row assembly changes no cache entry other than the per-question keys of the records. */
  lemma {:induction false} BuildRowsFrame(store: Store, recs: seq<FaqRecord>, lang: string)
    ensures SameOutside(BuildRows(store, recs, lang).store, store, ItemKeys(recs, lang))
    decreases |recs|
  {
    if recs != [] {
      var init := recs[..|recs| - 1];
      var key := ItemKey(recs[|recs| - 1].id, lang);
      BuildRowsFrame(store, init, lang);
      ItemKeysSnoc(recs, lang);
      var prev := BuildRows(store, init, lang);
      var l := ItemLookup(prev.store, recs[|recs| - 1], lang);
      forall k | k !in ItemKeys(recs, lang)
        ensures (k in l.store <==> k in store) && (k in l.store ==> l.store[k] == store[k])
      {
        assert k != key && k !in ItemKeys(init, lang);
      }
    }
  }

  /**
   * With distinct ids, row i carries what the resolver would return for
   * record i against the cache as it was before assembly, and the cache
   * afterwards holds that text under record i's key.
   */
  lemma {:induction false} BuildRowsResolves(store: Store, recs: seq<FaqRecord>, lang: string)
    requires DistinctIds(recs)
    ensures forall i :: 0 <= i < |recs| ==>
      BuildRows(store, recs, lang).rows[i].question == ItemLookup(store, recs[i], lang).text
    ensures forall i :: 0 <= i < |recs| ==>
      BuildRows(store, recs, lang).store[ItemKey(recs[i].id, lang)] == Text(BuildRows(store, recs, lang).rows[i].question)
    decreases |recs|
  {
    if recs != [] {
      var n := |recs| - 1;
      var init := recs[..n];
      var rec := recs[n];
      var key := ItemKey(rec.id, lang);
      BuildRowsResolves(store, init, lang);
      BuildRowsFrame(store, init, lang);
      var prev := BuildRows(store, init, lang);
      var a := BuildRows(store, recs, lang);
      assert key !in ItemKeys(init, lang) by {
        forall i | 0 <= i < n ensures ItemKey(init[i].id, lang) != key {
          assert recs[i].id != recs[n].id;
        }
      }
      assert (key in prev.store <==> key in store) && (key in store ==> prev.store[key] == store[key]);
      assert a.rows[n].question == ItemLookup(store, rec, lang).text;
      forall i | 0 <= i < n
        ensures a.rows[i].question == ItemLookup(store, recs[i], lang).text
        ensures a.store[ItemKey(recs[i].id, lang)] == Text(a.rows[i].question)
      {
        assert init[i] == recs[i];
        assert a.rows[i] == prev.rows[i];
        var k := ItemKey(recs[i].id, lang);
        assert k != key by { assert recs[i].id != recs[n].id; }
      }
    }
  }

  /** The outcome of one request, and the cache it leaves behind. */
  datatype Outcome = Outcome(response: Response, store: Store)

  /**
   * The list endpoint for language `lang`: a cached non-empty list is
   * answered verbatim; otherwise an empty collection is a 404 with a
   * message and no cache write; otherwise every record is resolved, and the
   * list is cached under the language's key and answered.
   */
  function ListGet(store: Store, recs: seq<FaqRecord>, lang: string): (o: Outcome)
    ensures CachedRows(store, ListKey(lang)).Some? ==> o == Outcome(Ok(CachedRows(store, ListKey(lang)).value), store)
    ensures CachedRows(store, ListKey(lang)).None? && recs == [] ==> o == Outcome(NotFound(NotFoundMessage), store)
    ensures CachedRows(store, ListKey(lang)).None? && recs != [] ==>
      && o.response.Ok?
      && |o.response.rows| == |recs|
      && (forall i :: 0 <= i < |recs| ==> o.response.rows[i].id == recs[i].id && o.response.rows[i].answer == recs[i].answer)
      && o.store.Keys == store.Keys + ItemKeys(recs, lang) + {ListKey(lang)}
      && o.store[ListKey(lang)] == Rows(o.response.rows)
    ensures WellTyped(store) ==> WellTyped(o.store)
  {
    var key := ListKey(lang);
    match CachedRows(store, key)
    case Some(rows) => Outcome(Ok(rows), store)
    case None =>
      if recs == [] then Outcome(NotFound(NotFoundMessage), store)
      else
        var a := BuildRows(store, recs, lang);
        Outcome(Ok(a.rows), a.store[key := Rows(a.rows)])
  }

  /**
   * A list miss with records writes only the records' question keys and
   * the list key; with distinct ids, each row's question is what the
   * resolver returns for that record against the cache before the request.
   */
  lemma ListGetMissEffects(store: Store, recs: seq<FaqRecord>, lang: string)
    requires CachedRows(store, ListKey(lang)).None? && recs != []
    ensures SameOutside(ListGet(store, recs, lang).store, store, ItemKeys(recs, lang) + {ListKey(lang)})
    ensures DistinctIds(recs) ==> forall i :: 0 <= i < |recs| ==>
      ListGet(store, recs, lang).response.rows[i].question == ItemLookup(store, recs[i], lang).text
  {
    BuildRowsFrame(store, recs, lang);
    if DistinctIds(recs) {
      BuildRowsResolves(store, recs, lang);
    }
  }

  /** A second identical request gets the same response and leaves the cache as the first did. */
  lemma ListGetIdempotent(store: Store, recs: seq<FaqRecord>, lang: string)
    ensures ListGet(ListGet(store, recs, lang).store, recs, lang) == ListGet(store, recs, lang)
  {
  }

  /** While the list cache is warm, the answer does not depend on the records at all. */
  lemma ListCacheMasksRecords(store: Store, recs1: seq<FaqRecord>, recs2: seq<FaqRecord>, lang: string)
    requires CachedRows(store, ListKey(lang)).Some?
    ensures ListGet(store, recs1, lang) == ListGet(store, recs2, lang)
  {
  }

  /** Every cached non-empty question text for `recs` in `lang` agrees with the records' current columns. */
  ghost predicate Coherent(store: Store, recs: seq<FaqRecord>, lang: string)
  {
    forall i :: 0 <= i < |recs| ==>
      CachedText(store, ItemKey(recs[i].id, lang)).Some? ==>
        CachedText(store, ItemKey(recs[i].id, lang)).value == SelectQuestion(recs[i], lang)
  }

  /** The rows the endpoint would produce with no cache in front of it. */
  function LiveRows(recs: seq<FaqRecord>, lang: string): seq<Row>
  {
    seq(|recs|, i requires 0 <= i < |recs| => Row(recs[i].id, SelectQuestion(recs[i], lang), recs[i].answer))
  }

  /**
   * On a list-cache miss over a coherent cache, the endpoint answers the
   * live rows, and the cache it leaves is still coherent.
   */
  lemma ListGetCoherentMiss(store: Store, recs: seq<FaqRecord>, lang: string)
    requires DistinctIds(recs) && Coherent(store, recs, lang)
    requires CachedRows(store, ListKey(lang)).None? && recs != []
    ensures ListGet(store, recs, lang).response == Ok(LiveRows(recs, lang))
    ensures Coherent(ListGet(store, recs, lang).store, recs, lang)
  {
    BuildRowsResolves(store, recs, lang);
    var a := BuildRows(store, recs, lang);
    var live := LiveRows(recs, lang);
    forall i | 0 <= i < |recs|
      ensures a.rows[i] == live[i]
    {
      assert ItemLookup(store, recs[i], lang).text == SelectQuestion(recs[i], lang);
    }
    assert a.rows == live;
    var o := ListGet(store, recs, lang);
    assert o.store == a.store[ListKey(lang) := Rows(a.rows)];
    forall i | 0 <= i < |recs|
      ensures CachedText(o.store, ItemKey(recs[i].id, lang)).Some? ==>
        CachedText(o.store, ItemKey(recs[i].id, lang)).value == SelectQuestion(recs[i], lang)
    {
      assert o.store[ItemKey(recs[i].id, lang)] == Text(live[i].question);
    }
  }

  /** Whatever the request hits or misses, it leaves a coherent cache coherent. */
  lemma ListGetKeepsCoherent(store: Store, recs: seq<FaqRecord>, lang: string)
    requires DistinctIds(recs) && Coherent(store, recs, lang)
    ensures Coherent(ListGet(store, recs, lang).store, recs, lang)
  {
    if CachedRows(store, ListKey(lang)).None? && recs != [] {
      ListGetCoherentMiss(store, recs, lang);
    }
  }

  /**
   * An unsupported language is not an error: on a list-cache miss over a
   * coherent cache, every row carries the primary question and the status is 200.
   */
  lemma UnsupportedLanguageFallsBack(store: Store, recs: seq<FaqRecord>, lang: string)
    requires lang != Hindi && lang != Bengali
    requires DistinctIds(recs) && Coherent(store, recs, lang)
    requires CachedRows(store, ListKey(lang)).None? && recs != []
    ensures StatusCode(ListGet(store, recs, lang).response) == 200
    ensures forall i :: 0 <= i < |recs| ==> ListGet(store, recs, lang).response.rows[i].question == recs[i].question
  {
    ListGetCoherentMiss(store, recs, lang);
  }

  /** A request for a single stored record when neither cache holds anything for the language. */
  lemma SingleRecordColdMiss(store: Store, rec: FaqRecord, lang: string)
    requires ListKey(lang) !in store && ItemKey(rec.id, lang) !in store
    ensures ListGet(store, [rec], lang).response == Ok([Row(rec.id, SelectQuestion(rec, lang), rec.answer)])
    ensures ListGet(store, [rec], lang).store.Keys == store.Keys + {ItemKey(rec.id, lang), ListKey(lang)}
  {
  }

  /**
   * The API scenario of the application's tests: the list endpoint asked in
   * Hindi, Bengali, with no language and in French, each on a cache that
   * holds nothing yet for that language (as after the earlier requests of
   * the scenario, which only write keys of their own language).
   */
  lemma ApiScenario(store: Store, param: Option<string>)
    requires ListKey(RequestLang(param)) !in store && ItemKey(DjangoFaq.id, RequestLang(param)) !in store
    ensures param == Some("hi") ==> ListGet(store, [DjangoFaq], RequestLang(param)).response == Ok([Row(1, "डजांगो क्या है?", "Django is a web framework.")])
    ensures param == Some("bn") ==> ListGet(store, [DjangoFaq], RequestLang(param)).response == Ok([Row(1, "ডjango কি?", "Django is a web framework.")])
    ensures param == None ==> ListGet(store, [DjangoFaq], RequestLang(param)).response == Ok([Row(1, "What is Django?", "Django is a web framework.")])
    ensures param == Some("fr") ==> ListGet(store, [DjangoFaq], RequestLang(param)).response == Ok([Row(1, "What is Django?", "Django is a web framework.")])
  {
  }

  /**
   * The list endpoint over the shared cache: resolves the language, answers
   * from the list cache when it holds a non-empty list, otherwise reads the
   * stored records and assembles the rows one resolver call at a time.
   */
  method GetFaqList(langParam: Option<string>, stored: seq<FaqRecord>, cache: Cache) returns (resp: Response)
    requires cache.Valid()
    modifies cache
    ensures cache.Valid()
    ensures Outcome(resp, cache.entries) == ListGet(old(cache.entries), stored, RequestLang(langParam))
  {
    var lang := RequestLang(langParam);
    var key := ListKey(lang);
    var cached := cache.Get(key);
    if cached.Some? && Truthy(cached.value) {
      return Ok(cached.value.rows);
    }
    if |stored| == 0 {
      return NotFound(NotFoundMessage);
    }
    var rows := AssembleRows(stored, lang, cache);
    cache.Set(key, Rows(rows));
    resp := Ok(rows);
  }

  /**
   * The row comprehension of the endpoint: each stored record is loaded as
   * a fresh instance and asked for its question, in collection order.
   */
  method AssembleRows(stored: seq<FaqRecord>, lang: string, cache: Cache) returns (rows: seq<Row>)
    requires cache.Valid()
    modifies cache
    ensures cache.Valid()
    ensures Assembly(rows, cache.entries) == BuildRows(old(cache.entries), stored, lang)
  {
    rows := [];
    var i := 0;
    while i < |stored|
      invariant 0 <= i <= |stored|
      invariant cache.Valid()
      invariant Assembly(rows, cache.entries) == BuildRows(old(cache.entries), stored[..i], lang)
    {
      var rec := stored[i];
      var faq := new Faq(rec.id, rec.question, rec.answer, rec.questionHi, rec.questionBn);
      var q := faq.GetTranslatedQuestion(lang, cache);
      assert stored[..i + 1][..i] == stored[..i];
      rows := rows + [Row(faq.id, q, faq.answer)];
      i := i + 1;
    }
    assert stored[..i] == stored;
  }
}
