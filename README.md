# Multilingual FAQ: translate on save, two-level cache on read

A Dafny model of the core of a small Django application that serves FAQ
entries in several languages. Two pieces of its own logic are modelled:

- the `FAQ` record (`faq/models.py`): its save hook fills the Hindi and
  Bengali variants of the question from an external translator when they
  are empty, and its `get_translated_question` resolves the question in one
  language through a read-through cache keyed by record id and language;
- the list endpoint (`faq/views.py`): a second cache keyed by language alone
  sits in front of the per-question cache. A miss reads every stored record,
  resolves each question, caches the list and answers 200. An empty
  collection answers 404 with the message "No FAQs found.".

Layout:

- `wrappers.dfy`: module `Wrappers`, the `Option` type (a nullable column, a
  missing cache entry).
- `cache.dfy`: module `CacheStore`, the shared cache. Keys are `ItemKey(id,
  lang)` and `ListKey(lang)`. They stand for the strings
  `BharathFD_Question_{id}_{lang}` and `BharathFD_FAQList_{lang}`, whose
  prefixes differ, so the two kinds never collide. Values are `Text` or
  `Rows`. The class `Cache` holds one `map` and provides get, set, eviction
  and clear. Its invariant `Valid()` says that question keys hold text and
  list keys hold lists, which every writer in the application keeps.
- `models.dfy`: module `Models`, the record. `FaqRecord` is the value of its
  columns. The class `Faq` has the columns as fields; its `Save` and
  `GetTranslatedQuestion` are proved against the pure functions `Saved` and
  `ItemLookup`. `SelectQuestion` is the language choice made on a cache miss.
- `views.dfy`: module `Views`, the list endpoint. `GetFaqList` and its loop
  `AssembleRows` are proved against the pure functions `ListGet` and
  `BuildRows`. `Coherent` states when the per-question cache agrees with the
  records' current columns.

The translator is a function parameter `translate(text, lang)`. The stored
records are a parameter `stored: seq<FaqRecord>`, in the order the database
returns them. Each one is loaded into a fresh `Faq` instance before it is
asked for its question, as the ORM does.

The caching test at `faq/tests.py:41` reads the key `BharathFD_{id}_hi`. The
code never writes that key: it writes `BharathFD_Question_{id}_hi`
(`faq/models.py:22`). The model follows the code. The property the test
means, that the result is cached under the record's key, is an `ensures` of
`Models.ItemLookup`.

## Model

| member | source | states |
|---|---|---|
| CacheStore.Cache.constructor | faq/models.py:3 | a fresh cache is empty and satisfies the key/value-kind invariant |
| CacheStore.Cache.Get | faq/models.py:23 | get returns the stored value exactly when the key is present; a question key yields text, a list key a list |
| CacheStore.Cache.Set | faq/models.py:33 | set replaces the value under one key and leaves every other key as it was |
| CacheStore.Cache.Evict | faq/views.py:23 | the expiry of an entry removes that key only |
| CacheStore.Cache.Clear | faq/tests.py:35 | clear empties the cache |
| Models.Saved | faq/models.py:14-19 | the save hook keeps every variant that holds text, fills every NULL or empty one with the translation of the primary question into that language, never changes id, question or answer, and leaves the record fully translated when the translator returns text |
| Models.SavedFixesTranslated | faq/models.py:15-18 | saving a record whose variants all hold text changes nothing |
| Models.SavedIdempotent | faq/models.py:15-18 | once the translator returns text for both languages, a second save changes nothing |
| Models.SelectQuestion | faq/models.py:26-31 | on a miss, `hi` with a Hindi variant gives that variant and `bn` with a Bengali variant gives that variant. Every other case gives the primary question. A non-empty primary question never resolves to the empty string |
| Models.SavedThenSelect | faq/models.py:14-31 | a record saved with only its primary question has the translator's output as its Hindi or Bengali choice, when that output is not empty |
| Models.UnsupportedSelectsPrimary | faq/models.py:30-31 | for any language other than `hi` and `bn` (the default `en`, `fr`, ...) the choice made on a miss is the primary question |
| Models.ItemLookup | faq/models.py:21-34 | a hit (non-empty cached text under the record's key) returns the cached text and leaves the cache unchanged. A miss returns the language choice. Afterwards the key holds the returned text, no other key changes, the key set grows by that key only, and the kind invariant is kept |
| Models.ItemLookupIdempotent | faq/models.py:21-34 | resolving twice gives the same text and the same cache as resolving once |
| Models.EmptyCachedTextIsMiss | faq/models.py:25 | a cached empty string counts as a miss: the choice is made again and overwrites it |
| Models.ResolverScenario | faq/tests.py:21-43 | for the test record on a cache without its key, `hi` and `bn` give the supplied variants, `en` and `fr` give the primary question, and the result is cached under the record's key |
| Models.SaveLeavesStaleEntry | faq/models.py:14-34 | for one record with no Hindi variant: the fallback cached before a save is still served after the save fills the variant |
| Models.CacheHitIgnoresSave | faq/models.py:14-34 | for every record, translator and language: while the record's key holds text, resolving the saved record gives the same text and cache as resolving the unsaved one (no invalidation on save) |
| Models.EvictedEntrySeesSave | faq/models.py:25-33 | after the record's entry expires, the resolver returns the language choice over the saved columns |
| Models.Faq.constructor | faq/models.py:8-12 | a record holds the given id, question, answer and variants |
| Models.Faq.Save | faq/models.py:14-19 | the record's new columns are `Saved` of its old columns |
| Models.Faq.GetTranslatedQuestion | faq/models.py:21-34 | the returned text and the new cache are exactly `ItemLookup` of the old cache, and the kind invariant is kept |
| Views.StatusCode | faq/views.py:14-24 | a list answers 200 and the not-found message 404, and nothing else |
| Views.RequestLang | faq/views.py:9 | a request without `lang` uses `en`; otherwise the parameter is used as given |
| Views.BuildRows | faq/views.py:21 | row assembly yields one row per record in collection order, row i carrying record i's id and answer. The cache afterwards has exactly the old keys plus each record's question key, and the kind invariant is kept |
| Views.BuildRowsFrame | faq/views.py:21 | row assembly changes no cache entry other than the question keys of the records |
| Views.BuildRowsResolves | faq/views.py:21 | with distinct ids, row i's question is what the resolver returns for record i against the cache as it was before assembly, and the cache afterwards holds that text under record i's key |
| Views.ListGet | faq/views.py:8-24 | a non-empty cached list is answered verbatim with the cache unchanged. On a miss with no records the answer is `NotFound("No FAQs found.")` with the cache unchanged. On a miss with records the answer is a list with one row per record, in order, with its id and answer; the list is cached under the language key and every record's question key is present |
| Views.ListGetMissEffects | faq/views.py:16-24 | on a list miss with records, no cache entry changes other than the records' question keys and the list key, and with ids distinct each row's question is what the resolver returns for that record against the cache before the request |
| Views.ListGetIdempotent | faq/views.py:8-24 | a second identical request gets the same response and leaves the same cache |
| Views.ListCacheMasksRecords | faq/views.py:12-14 | while the list cache is warm the answer does not depend on the stored records |
| Views.ListGetCoherentMiss | faq/views.py:16-24 | on a list miss with at least one record, ids distinct, over a per-question cache that agrees with the records, the answer is the live rows (each question the language choice for its record) and the cache still agrees |
| Views.ListGetKeepsCoherent | faq/views.py:8-24 | with ids distinct, every request (hit, 404 or filled miss) leaves a per-question cache that agrees with the records still agreeing with them |
| Views.UnsupportedLanguageFallsBack | faq/views.py:21 | an unsupported language on a list miss with at least one record, ids distinct, over a per-question cache that agrees with the records, answers 200 with every row carrying the primary question |
| Views.SingleRecordColdMiss | faq/views.py:16-24 | one stored record, with neither cache holding its language, answers its single live row and adds exactly its question key and the list key |
| Views.ApiScenario | faq/tests.py:45-64 | for the test record, `lang=hi`, `lang=bn`, no `lang` and `lang=fr` answer the Hindi variant, the Bengali variant, the primary question and the primary question |
| Views.GetFaqList | faq/views.py:8-24 | the response and the new cache are exactly `ListGet` of the old cache, the stored records and the requested language; the kind invariant is kept |
| Views.AssembleRows | faq/views.py:21 | the loop's rows and the cache it leaves are exactly `BuildRows` of the old cache and the stored records |

## Left out

- The translator call (`faq/models.py:4-6`, `16`, `18`) is a network service. It is the parameter `translate`. Its failures (exceptions, timeouts) are not modelled: the application has no handling for them.
- Persistence (`super().save`, `FAQ.objects.all()`, `.exists()`) is framework code. `Faq.Save` stops after filling the variants. The list endpoint receives the stored records as a sequence. Id assignment is not modelled: ids are given integers, and the key of an unsaved record (id `None`) is not modelled.
- The one-hour timeouts (`faq/models.py:33`, `faq/views.py:23`) depend on the clock. Expiry is the explicit operation `Cache.Evict`.
- Concurrent requests racing on cache population are not modelled: the model is sequential.
- The REST framework's `Response`/`APIView` plumbing and query-string parsing are not modelled. The status is `StatusCode` of the response, and `answer` is opaque text.
- `FAQ.__str__` (`faq/models.py:36-37`) and the admin registration in `faq/admin.py` hold no logic.
- The default argument `lang='en'` of `get_translated_question` is not a Dafny default: callers pass `DefaultLang`, and the only caller in the application always passes a language.
- Sharing of `Faq` objects between requests is not modelled: the list endpoint loads each stored record into a fresh instance, as the ORM does.
