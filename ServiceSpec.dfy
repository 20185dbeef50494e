/**
 * The translation service's operations as functions of the service's state
 * (the store and the target-language cache), and what they promise: the
 * saved record keeps the request's fields, nothing is saved when translation
 * fails, a bulk request saves one record per text in order and keeps earlier
 * saves when a later text fails, and lookups by target language follow the
 * cache-aside pattern, so the cache goes stale after a save or a delete.
 */
module ServiceSpec {
  import opened Wrappers
  import opened Translations
  import opened Store

  type CacheEntries = map<string, seq<Translation>>

  datatype ServiceState = ServiceState(store: StoreState, cache: CacheEntries)

  /** The service's invariant: the store's invariant holds, and every cached
      record was once stored (its id is below the store's next id). */
  ghost predicate Invariant(st: ServiceState)
  {
    Store.Valid(st.store) &&
    forall lang | lang in st.cache :: Below(st.cache[lang], st.store.nextId)
  }

  /** A freshly started service: empty store, empty cache. */
  lemma InitialInvariant()
    ensures Invariant(ServiceState(Store.Empty, map[]))
  {
  }

  // ---------------------------------------------------------------- translateAndSave

  /**
   * `translateAndSave`: translate, build the record from the three arguments
   * and the translation, and save it. A failing translation is wrapped into
   * the service's error, and nothing is saved, because the save is the last
   * step. The cache is never touched.
   */
  function TranslateAndSave(st: ServiceState, translate: Translator, text: string, sl: string, tl: string)
    : (r: (ServiceState, Result<Translation, TranslationError>))
    ensures r.0.cache == st.cache
    ensures r.1.Success? <==> translate(text, sl, tl).Success?
    ensures r.1.Success? ==>
              RecordFor(r.1.value, text, sl, tl, translate) &&
              r.0.store.rows == st.store.rows + [r.1.value] &&
              st.store.nextId <= r.1.value.id < r.0.store.nextId
    ensures r.1.Failure? ==>
              r.0 == st && r.1.error == TranslationError(translate(text, sl, tl).error)
  {
    match translate(text, sl, tl)
    case Failure(cause) => (st, Failure(TranslationError(cause)))
    case Success(translated) =>
      var (store, saved) := Save(st.store, Draft(text, translated, sl, tl));
      (st.(store := store), Success(saved))
  }

  lemma TranslateAndSaveKeepsInvariant(st: ServiceState, translate: Translator, text: string, sl: string, tl: string)
    requires Invariant(st)
    ensures Invariant(TranslateAndSave(st, translate, text, sl, tl).0)
  {
  }

  /** A saved record can be read back by its id straight away. */
  lemma SavedIsFoundById(st: ServiceState, translate: Translator, text: string, sl: string, tl: string)
    requires Invariant(st)
    requires TranslateAndSave(st, translate, text, sl, tl).1.Success?
    ensures var (st', r) := TranslateAndSave(st, translate, text, sl, tl);
            FindById(st'.store.rows, r.value.id) == Some(r.value)
  {
  }

  // ---------------------------------------------------------------- translateBulk

  /**
   * `translateBulk`: `translateAndSave` on each text in turn, with the
   * request's languages, collecting the saved records; the first failure
   * ends the request with that failure, and what was saved before it stays.
   * Its specification is the lemma `BulkOutcome` below.
   */
  function TranslateBulk(st: ServiceState, translate: Translator, texts: seq<string>, sl: string, tl: string)
    : (r: (ServiceState, Result<seq<Translation>, TranslationError>))
    ensures r.0.cache == st.cache
    decreases |texts|
  {
    if texts == [] then (st, Success([]))
    else
      var (st1, first) := TranslateAndSave(st, translate, texts[0], sl, tl);
      if first.Failure? then (st1, Failure(first.error))
      else
        var (st2, rest) := TranslateBulk(st1, translate, texts[1..], sl, tl);
        if rest.Failure? then (st2, rest) else (st2, Success([first.value] + rest.value))
  }

  /** The index of the first text whose translation fails, or `|texts|` when none does. */
  function FirstFailure(translate: Translator, texts: seq<string>, sl: string, tl: string): (k: nat)
    ensures k <= |texts|
    ensures forall j :: 0 <= j < k ==> translate(texts[j], sl, tl).Success?
    ensures k < |texts| ==> translate(texts[k], sl, tl).Failure?
  {
    if texts == [] || translate(texts[0], sl, tl).Failure? then 0
    else 1 + FirstFailure(translate, texts[1..], sl, tl)
  }

  /** The first failing text is the one every earlier text succeeds before. */
  lemma FirstFailureAt(translate: Translator, texts: seq<string>, sl: string, tl: string, k: nat)
    requires k < |texts| && translate(texts[k], sl, tl).Failure?
    requires forall j :: 0 <= j < k ==> translate(texts[j], sl, tl).Success?
    ensures FirstFailure(translate, texts, sl, tl) == k
  {
  }

  /**
   * What a bulk request does in every case: with k the index of the first
   * failing text, the store gains exactly k records, one per text before k,
   * in input order, each built from its text and the request's languages,
   * and nothing it held before is lost; the request succeeds exactly when
   * no text fails, with those records as its result, and otherwise fails
   * with the wrapped error of text k.
   */
  lemma {:induction false} BulkOutcome(st: ServiceState, translate: Translator, texts: seq<string>, sl: string, tl: string)
    ensures var (st', r) := TranslateBulk(st, translate, texts, sl, tl);
            var k, n := FirstFailure(translate, texts, sl, tl), |st.store.rows|;
            |st'.store.rows| == n + k && st'.store.rows[..n] == st.store.rows &&
            (forall j :: 0 <= j < k ==> RecordFor(st'.store.rows[n + j], texts[j], sl, tl, translate)) &&
            (r.Success? <==> k == |texts|) &&
            (r.Success? ==> r.value == st'.store.rows[n..]) &&
            (r.Failure? ==> r.error == TranslationError(translate(texts[k], sl, tl).error))
    decreases |texts|
  {
    if texts != [] && translate(texts[0], sl, tl).Success? {
      var (st1, first) := TranslateAndSave(st, translate, texts[0], sl, tl);
      var (st', r) := TranslateBulk(st, translate, texts, sl, tl);
      BulkOutcome(st1, translate, texts[1..], sl, tl);
      var n := |st.store.rows|;
      var k := FirstFailure(translate, texts, sl, tl);
      assert st'.store.rows[..n] == st1.store.rows[..n];
      forall j | 0 <= j < k ensures RecordFor(st'.store.rows[n + j], texts[j], sl, tl, translate) {
        if j > 0 {
          assert texts[j] == texts[1..][j - 1];
          assert st'.store.rows[n + j] == st'.store.rows[(n + 1) + (j - 1)];
        }
      }
      if r.Success? {
        assert st'.store.rows[n..] == [first.value] + st'.store.rows[n + 1..];
      } else if k > 0 {
        assert texts[k] == texts[1..][k - 1];
      }
    }
  }

  /** Bulk on success: one saved record per text, in input order, each with
      its text and the request's source and target language. */
  lemma BulkSuccess(st: ServiceState, translate: Translator, texts: seq<string>, sl: string, tl: string)
    requires forall j :: 0 <= j < |texts| ==> translate(texts[j], sl, tl).Success?
    ensures var (st', r) := TranslateBulk(st, translate, texts, sl, tl);
            r.Success? && |r.value| == |texts| &&
            st'.store.rows == st.store.rows + r.value &&
            forall j :: 0 <= j < |texts| ==> RecordFor(r.value[j], texts[j], sl, tl, translate)
  {
    BulkOutcome(st, translate, texts, sl, tl);
    var (st', r) := TranslateBulk(st, translate, texts, sl, tl);
    var n := |st.store.rows|;
    assert st'.store.rows == st'.store.rows[..n] + st'.store.rows[n..];
    forall j | 0 <= j < |texts| ensures RecordFor(r.value[j], texts[j], sl, tl, translate) {
      assert r.value[j] == st'.store.rows[n + j];
    }
  }

  /** Bulk on partial failure: when text k is the first to fail, the request
      fails with its wrapped error and the records saved for texts 0..k-1 stay
      in the store; there is no rollback. */
  lemma BulkPartialFailure(st: ServiceState, translate: Translator, texts: seq<string>, sl: string, tl: string, k: nat)
    requires k < |texts| && translate(texts[k], sl, tl).Failure?
    requires forall j :: 0 <= j < k ==> translate(texts[j], sl, tl).Success?
    ensures var (st', r) := TranslateBulk(st, translate, texts, sl, tl);
            r == Failure(TranslationError(translate(texts[k], sl, tl).error)) &&
            |st'.store.rows| == |st.store.rows| + k && st'.store.rows[..|st.store.rows|] == st.store.rows &&
            TranslateBulk(st, translate, texts[..k], sl, tl) == (st', Success(st'.store.rows[|st.store.rows|..])) &&
            forall j :: 0 <= j < k ==> RecordFor(st'.store.rows[|st.store.rows| + j], texts[j], sl, tl, translate)
  {
    BulkOutcome(st, translate, texts, sl, tl);
    FirstFailureAt(translate, texts, sl, tl, k);
    BulkPrefixSameStore(st, translate, texts, sl, tl, k);
    BulkSuccess(st, translate, texts[..k], sl, tl);
  }

  /** A bulk request that fails at text k leaves the store exactly as the
      request for texts 0..k-1 alone would. */
  lemma {:induction false} BulkPrefixSameStore(st: ServiceState, translate: Translator, texts: seq<string>, sl: string, tl: string, k: nat)
    requires k < |texts| && translate(texts[k], sl, tl).Failure?
    requires forall j :: 0 <= j < k ==> translate(texts[j], sl, tl).Success?
    ensures TranslateBulk(st, translate, texts, sl, tl).0 == TranslateBulk(st, translate, texts[..k], sl, tl).0
    decreases k
  {
    if k > 0 {
      var st1 := TranslateAndSave(st, translate, texts[0], sl, tl).0;
      assert texts[..k][0] == texts[0];
      assert texts[..k][1..] == texts[1..][..k - 1];
      BulkPrefixSameStore(st1, translate, texts[1..], sl, tl, k - 1);
    }
  }

  lemma {:induction false} BulkKeepsInvariant(st: ServiceState, translate: Translator, texts: seq<string>, sl: string, tl: string)
    requires Invariant(st)
    ensures Invariant(TranslateBulk(st, translate, texts, sl, tl).0)
    decreases |texts|
  {
    if texts != [] {
      TranslateAndSaveKeepsInvariant(st, translate, texts[0], sl, tl);
      var st1 := TranslateAndSave(st, translate, texts[0], sl, tl).0;
      BulkKeepsInvariant(st1, translate, texts[1..], sl, tl);
    }
  }

  // ---------------------------------------------------------------- getTranslationsByTargetLang

  /**
   * `getTranslationsByTargetLang`, cache-aside: an entry for `lang` (even an
   * empty list) is returned as it is and nothing changes; without one, the
   * store's records for `lang` are read, put in the cache under `lang`, and
   * returned. The store never changes.
   */
  function GetTranslationsByTargetLang(st: ServiceState, lang: string): (r: (ServiceState, seq<Translation>))
    ensures r.0.store == st.store
    ensures lang in r.0.cache && r.0.cache[lang] == r.1
    ensures lang in st.cache ==> r.0 == st && r.1 == st.cache[lang]
    ensures lang !in st.cache ==>
              r.0.cache == st.cache[lang := r.1] &&
              (forall t :: t in r.1 <==> t in st.store.rows && t.targetLang == lang) &&
              (Store.Valid(st.store) ==> Increasing(r.1))
  {
    if lang in st.cache then (st, st.cache[lang])
    else
      var found := WithTargetLang(st.store.rows, lang);
      (st.(cache := st.cache[lang := found]), found)
  }

  /** On a miss the answer is exactly the store's records of that language,
      each once and in store order: any list with those properties is it. */
  lemma MissIsStoreQuery(st: ServiceState, lang: string, expected: seq<Translation>)
    requires Invariant(st) && lang !in st.cache
    requires Increasing(expected)
    requires forall t :: t in expected <==> t in st.store.rows && t.targetLang == lang
    ensures GetTranslationsByTargetLang(st, lang).1 == expected
  {
    SameIncreasingRowsEqual(GetTranslationsByTargetLang(st, lang).1, expected);
  }

  lemma GetKeepsInvariant(st: ServiceState, lang: string)
    requires Invariant(st)
    ensures Invariant(GetTranslationsByTargetLang(st, lang).0)
  {
  }

  /** A second lookup with no change in between is a cache hit that returns
      the identical list and changes nothing. */
  lemma RepeatedLookupIsHit(st: ServiceState, lang: string)
    ensures var (st1, r1) := GetTranslationsByTargetLang(st, lang);
            GetTranslationsByTargetLang(st1, lang) == (st1, r1)
  {
  }

  /** Lookups for other languages neither use nor change the entry for `lang`,
      so a cached list survives them. */
  lemma OtherLookupKeepsEntry(st: ServiceState, lang: string, other: string)
    requires lang in st.cache && other != lang
    ensures var st1 := GetTranslationsByTargetLang(st, other).0;
            lang in st1.cache && st1.cache[lang] == st.cache[lang]
  {
  }

  // ---------------------------------------------------------------- plain reads and delete

  /** `getAllTranslations`: the store's records, read past the cache. */
  function GetAllTranslations(st: ServiceState): (r: seq<Translation>)
    ensures forall t :: t in r <==> t in st.store.rows
    ensures |r| == |st.store.rows|
    ensures Store.Valid(st.store) ==> forall t :: t in r ==> FindById(st.store.rows, t.id) == Some(t)
  {
    AllFoundById(st.store.rows);
    st.store.rows
  }

  /** With unique ids, every stored record is what a lookup of its id returns. */
  lemma AllFoundById(rows: seq<Translation>)
    ensures Increasing(rows) ==> forall t :: t in rows ==> FindById(rows, t.id) == Some(t)
  {
    if Increasing(rows) {
      forall t | t in rows ensures FindById(rows, t.id) == Some(t) {
        FindByIdFindsRow(rows, t);
      }
    }
  }

  /** `getTranslationById`: the store's record with that id, read past the cache. */
  function GetTranslationById(st: ServiceState, id: int): (r: Option<Translation>)
    ensures r.Some? ==> r.value in GetAllTranslations(st) && r.value.id == id
    ensures r.None? <==> forall t :: t in GetAllTranslations(st) ==> t.id != id
  {
    FindById(st.store.rows, id)
  }

  /** `deleteTranslationById`: deletes from the store and leaves every cache entry as it was. */
  function DeleteTranslationById(st: ServiceState, id: int): (r: ServiceState)
    ensures r.cache == st.cache
    ensures GetTranslationById(r, id).None?
    ensures forall t :: t in GetAllTranslations(r) <==> t in GetAllTranslations(st) && t.id != id
  {
    st.(store := DeleteById(st.store, id))
  }

  lemma DeleteKeepsInvariant(st: ServiceState, id: int)
    requires Invariant(st)
    ensures Invariant(DeleteTranslationById(st, id))
  {
    DeleteKeepsValid(st.store, id);
  }

  /** A list cached before a delete is still returned after it, with the
      deleted record in it, although the store no longer has that record. */
  lemma StaleAfterDelete(st: ServiceState, lang: string, t: Translation)
    requires lang in st.cache && t in st.cache[lang]
    ensures var st' := DeleteTranslationById(st, t.id);
            GetTranslationsByTargetLang(st', lang).1 == st.cache[lang] &&
            t in GetTranslationsByTargetLang(st', lang).1 &&
            GetTranslationById(st', t.id).None?
  {
  }

  /** A list cached before a save for the same target language is still
      returned after it and lacks the new record, although the store has it. */
  lemma StaleAfterSave(st: ServiceState, translate: Translator, text: string, sl: string, lang: string)
    requires Invariant(st) && lang in st.cache
    requires translate(text, sl, lang).Success?
    ensures var (st', saved) := TranslateAndSave(st, translate, text, sl, lang);
            GetTranslationsByTargetLang(st', lang).1 == st.cache[lang] &&
            saved.value !in GetTranslationsByTargetLang(st', lang).1 &&
            saved.value in WithTargetLang(st'.store.rows, lang)
  {
  }
}
