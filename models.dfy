/**
 * The FAQ record (faq/models.py): the translate-on-save hook and the
 * cache-first resolver of a question in one language.
 */
module Models {
  import opened Wrappers
  import opened CacheStore

  /** The supported secondary languages, and the language a request gets when it names none. */
  const Hindi := "hi"
  const Bengali := "bn"
  const DefaultLang := "en"

  /** Truthiness of a nullable text column: neither NULL nor the empty string. */
  predicate Present(v: Option<string>)
  {
    v.Some? && v.value != ""
  }

  /** The value of a record's columns at one moment. */
  datatype FaqRecord = FaqRecord(
    id: int,
    question: string,
    answer: string,
    questionHi: Option<string>,
    questionBn: Option<string>)

  /** Every secondary-language variant holds text. */
  predicate FullyTranslated(rec: FaqRecord)
  {
    Present(rec.questionHi) && Present(rec.questionBn)
  }

  /**
   * The columns after the save hook: each missing variant is filled with
   * the translator's output for the primary question; a variant that holds
   * text is kept, and nothing else changes.
   */
  function Saved(rec: FaqRecord, translate: (string, string) -> string): (r: FaqRecord)
    ensures r.id == rec.id && r.question == rec.question && r.answer == rec.answer
    ensures Present(rec.questionHi) ==> r.questionHi == rec.questionHi
    ensures Present(rec.questionBn) ==> r.questionBn == rec.questionBn
    ensures !Present(rec.questionHi) ==> r.questionHi == Some(translate(rec.question, Hindi))
    ensures !Present(rec.questionBn) ==> r.questionBn == Some(translate(rec.question, Bengali))
    ensures translate(rec.question, Hindi) != "" && translate(rec.question, Bengali) != "" ==> FullyTranslated(r)
  {
    var hi := if Present(rec.questionHi) then rec.questionHi else Some(translate(rec.question, Hindi));
    var bn := if Present(rec.questionBn) then rec.questionBn else Some(translate(rec.question, Bengali));
    rec.(questionHi := hi, questionBn := bn)
  }

  /** Saving a record whose variants all hold text changes nothing. */
  lemma SavedFixesTranslated(rec: FaqRecord, translate: (string, string) -> string)
    requires FullyTranslated(rec)
    ensures Saved(rec, translate) == rec
  {
  }

  /** Save is idempotent once the translator has produced text for every language. */
  lemma SavedIdempotent(rec: FaqRecord, translate: (string, string) -> string)
    requires translate(rec.question, Hindi) != "" && translate(rec.question, Bengali) != ""
    ensures Saved(Saved(rec, translate), translate) == Saved(rec, translate)
  {
  }

  /**
   * The language choice made on a cache miss: the Hindi or Bengali variant
   * when that language is asked for and the variant holds text, the primary
   * question in every other case.
   */
  function SelectQuestion(rec: FaqRecord, lang: string): (q: string)
    ensures lang == Hindi && Present(rec.questionHi) ==> q == rec.questionHi.value
    ensures lang == Bengali && Present(rec.questionBn) ==> q == rec.questionBn.value
    ensures q != rec.question ==> (lang == Hindi && Present(rec.questionHi)) || (lang == Bengali && Present(rec.questionBn))
    ensures rec.question != "" ==> q != ""
  {
    if lang == Hindi && Present(rec.questionHi) then rec.questionHi.value
    else if lang == Bengali && Present(rec.questionBn) then rec.questionBn.value
    else rec.question
  }

  /**
   * A record saved with only its primary question resolves in Hindi or
   * Bengali to the translator's output, once that output is not empty.
   */
  lemma SavedThenSelect(rec: FaqRecord, translate: (string, string) -> string, lang: string)
    requires lang == Hindi || lang == Bengali
    requires !Present(rec.questionHi) && !Present(rec.questionBn)
    requires translate(rec.question, lang) != ""
    ensures SelectQuestion(Saved(rec, translate), lang) == translate(rec.question, lang)
  {
  }

  /** Any language other than the two secondary ones resolves to the primary question. */
  lemma UnsupportedSelectsPrimary(rec: FaqRecord, lang: string)
    requires lang != Hindi && lang != Bengali
    ensures SelectQuestion(rec, lang) == rec.question
  {
  }

  /** The text a resolver call returns, and the cache it leaves behind. */
  datatype Lookup = Lookup(text: string, store: Store)

  /**
   * The cache-first resolver: a cached non-empty text under the record's
   * key for `lang` is returned and the cache is left alone; otherwise the
   * language choice is made, stored under that key and returned.
   */
  function ItemLookup(store: Store, rec: FaqRecord, lang: string): (r: Lookup)
    ensures r.store.Keys == store.Keys + {ItemKey(rec.id, lang)}
    ensures r.store[ItemKey(rec.id, lang)] == Text(r.text)
    ensures SameOutside(r.store, store, {ItemKey(rec.id, lang)})
    ensures CachedText(store, ItemKey(rec.id, lang)).Some? ==> r.text == CachedText(store, ItemKey(rec.id, lang)).value && r.store == store
    ensures CachedText(store, ItemKey(rec.id, lang)).None? ==> r.text == SelectQuestion(rec, lang)
    ensures rec.question != "" ==> r.text != ""
    ensures WellTyped(store) ==> WellTyped(r.store)
  {
    var key := ItemKey(rec.id, lang);
    match CachedText(store, key)
    case Some(t) => Lookup(t, store)
    case None =>
      var t := SelectQuestion(rec, lang);
      Lookup(t, store[key := Text(t)])
  }

  /** Asking twice gives the same text and the same cache as asking once. */
  lemma ItemLookupIdempotent(store: Store, rec: FaqRecord, lang: string)
    ensures ItemLookup(ItemLookup(store, rec, lang).store, rec, lang) == ItemLookup(store, rec, lang)
  {
  }

  /** A cached empty string is a miss: the choice is made again and overwrites it. */
  lemma EmptyCachedTextIsMiss(store: Store, rec: FaqRecord, lang: string)
    requires ItemKey(rec.id, lang) in store && store[ItemKey(rec.id, lang)] == Text("")
    ensures ItemLookup(store, rec, lang) == Lookup(SelectQuestion(rec, lang), store[ItemKey(rec.id, lang) := Text(SelectQuestion(rec, lang))])
  {
  }

  /** The record the application's tests create, with both variants supplied. */
  const DjangoFaq := FaqRecord(1, "What is Django?", "Django is a web framework.", Some("डजांगो क्या है?"), Some("ডjango কি?"))

  /**
   * The resolver scenario of the application's tests: on a cache that holds
   * nothing for the record in the language asked for, Hindi and Bengali give
   * the supplied variants, the default language and French the primary
   * question, and the answer is left in the cache under the record's key.
   */
  lemma ResolverScenario(store: Store, lang: string)
    requires ItemKey(DjangoFaq.id, lang) !in store
    ensures lang == Hindi ==> ItemLookup(store, DjangoFaq, lang).text == "डजांगो क्या है?"
    ensures lang == Bengali ==> ItemLookup(store, DjangoFaq, lang).text == "ডjango কি?"
    ensures lang == DefaultLang || lang == "fr" ==> ItemLookup(store, DjangoFaq, lang).text == "What is Django?"
    ensures ItemLookup(store, DjangoFaq, lang).store[ItemKey(DjangoFaq.id, lang)] == Text(ItemLookup(store, DjangoFaq, lang).text)
  {
  }

  /**
   * A witness for the resolver's lack of invalidation on save: a variant
   * the hook fills after the fallback was cached is not seen while the
   * entry lasts.
   */
  lemma SaveLeavesStaleEntry()
    ensures var rec := FaqRecord(1, "What is Django?", "A web framework.", None, None);
            var translate := (text: string, lang: string) => "Django kya hai?";
            var before := ItemLookup(map[], rec, Hindi);
            var after := ItemLookup(before.store, Saved(rec, translate), Hindi);
            before.text == "What is Django?" &&
            SelectQuestion(Saved(rec, translate), Hindi) == "Django kya hai?" &&
            after.text == "What is Django?"
  {
  }

  /**
   * For every record, translator and language: while the record's key
   * holds text, a save changes nothing the resolver returns or writes.
   */
  lemma CacheHitIgnoresSave(store: Store, rec: FaqRecord, translate: (string, string) -> string, lang: string)
    requires CachedText(store, ItemKey(rec.id, lang)).Some?
    ensures ItemLookup(store, Saved(rec, translate), lang) == ItemLookup(store, rec, lang)
  {
  }

  /** Once the record's entry has expired, the resolver sees the columns the save left. */
  lemma EvictedEntrySeesSave(store: Store, rec: FaqRecord, translate: (string, string) -> string, lang: string)
    ensures ItemLookup(store - {ItemKey(rec.id, lang)}, Saved(rec, translate), lang).text == SelectQuestion(Saved(rec, translate), lang)
  {
  }

  /** A record. Its columns are fields that the save hook updates in place. */
  class Faq {
    var id: int
    var question: string
    var answer: string
    var questionHi: Option<string>
    var questionBn: Option<string>

    /** The record's columns as a value. */
    function Record(): FaqRecord
      reads this
    {
      FaqRecord(id, question, answer, questionHi, questionBn)
    }

    /** A record as the application constructs it, before any save. */
    constructor (id: int, question: string, answer: string, questionHi: Option<string>, questionBn: Option<string>)
      ensures Record() == FaqRecord(id, question, answer, questionHi, questionBn)
    {
      this.id := id;
      this.question := question;
      this.answer := answer;
      this.questionHi := questionHi;
      this.questionBn := questionBn;
    }

    /**
     * The save hook: fill each missing variant with the translation of the
     * primary question into that language. Persisting is left to the caller.
     */
    method Save(translate: (string, string) -> string)
      modifies this
      ensures Record() == Saved(old(Record()), translate)
    {
      if !Present(questionHi) {
        questionHi := Some(translate(question, Hindi));
      }
      if !Present(questionBn) {
        questionBn := Some(translate(question, Bengali));
      }
    }

    /** The question in `lang`, from the cache when it holds text for this record, else resolved and cached. */
    method GetTranslatedQuestion(lang: string, cache: Cache) returns (q: string)
      requires cache.Valid()
      modifies cache
      ensures cache.Valid()
      ensures Lookup(q, cache.entries) == ItemLookup(old(cache.entries), Record(), lang)
    {
      var key := ItemKey(id, lang);
      var cached := cache.Get(key);
      if cached.Some? && Truthy(cached.value) {
        q := cached.value.text;
      } else {
        q := SelectQuestion(Record(), lang);
        cache.Set(key, Text(q));
      }
    }
  }
}
