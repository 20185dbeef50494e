/**
 * The translation service object: it holds the repository, the cache and the
 * translator, and performs each operation in place. Every method is proved
 * to move the service from one state to the next exactly as the function of
 * the same name in ServiceSpec does.
 */
module Service {
  import opened Wrappers
  import opened Translations
  import Store
  import ServiceSpec
  import Repository
  import Cache

  class TranslationService {
    const repository: Repository.TranslationRepository
    const cache: Cache.TranslationCache
    const translate: Translator

    /** The store and the cache entries this service currently sees. */
    ghost function State(): ServiceSpec.ServiceState
      reads repository, cache
    {
      ServiceSpec.ServiceState(repository.State(), cache.entries)
    }

    ghost predicate Valid()
      reads repository, cache
    {
      ServiceSpec.Invariant(State())
    }

    constructor (repository: Repository.TranslationRepository, cache: Cache.TranslationCache, translate: Translator)
      requires ServiceSpec.Invariant(ServiceSpec.ServiceState(repository.State(), cache.entries))
      ensures this.repository == repository && this.cache == cache && this.translate == translate
      ensures Valid()
    {
      this.repository, this.cache, this.translate := repository, cache, translate;
    }

    /** `translateAndSave`: translate `text`, then save the record built from the result. */
    method TranslateAndSave(text: string, sourceLang: string, targetLang: string)
      returns (r: Result<Translation, TranslationError>)
      requires Valid()
      modifies repository
      ensures Valid()
      ensures (State(), r) == ServiceSpec.TranslateAndSave(old(State()), translate, text, sourceLang, targetLang)
    {
      ServiceSpec.TranslateAndSaveKeepsInvariant(State(), translate, text, sourceLang, targetLang);
      var response := translate(text, sourceLang, targetLang);
      if response.Failure? {
        return Failure(TranslationError(response.error));
      }
      var saved := repository.Save(Draft(text, response.value, sourceLang, targetLang));
      r := Success(saved);
    }

    /** `translateBulk`: `translateAndSave` on each text in order, stopping at the first failure. */
    method TranslateBulk(request: BulkTranslationRequest) returns (r: Result<seq<Translation>, TranslationError>)
      requires Valid()
      modifies repository
      ensures Valid()
      ensures (State(), r) ==
              ServiceSpec.TranslateBulk(old(State()), translate, request.texts, request.sourceLang, request.targetLang)
    {
      var texts, sl, tl := request.texts, request.sourceLang, request.targetLang;
      var saved: seq<Translation> := [];
      var i := 0;
      assert texts[i..] == texts;
      ghost var whole := ServiceSpec.TranslateBulk(State(), translate, texts, sl, tl).1;
      assert whole.Success? ==> saved + whole.value == whole.value;
      while i < |texts|
        invariant 0 <= i <= |texts|
        invariant Valid()
        invariant var (st', rest) := ServiceSpec.TranslateBulk(State(), translate, texts[i..], sl, tl);
                  ServiceSpec.TranslateBulk(old(State()), translate, texts, sl, tl) ==
                  (st', if rest.Failure? then rest else Success(saved + rest.value))
      {
        assert texts[i..][0] == texts[i] && texts[i..][1..] == texts[i + 1..];
        var one := TranslateAndSave(texts[i], sl, tl);
        if one.Failure? {
          return Failure(one.error);
        }
        ghost var rest := ServiceSpec.TranslateBulk(State(), translate, texts[i + 1..], sl, tl).1;
        assert rest.Success? ==> saved + ([one.value] + rest.value) == (saved + [one.value]) + rest.value;
        saved := saved + [one.value];
        i := i + 1;
      }
      assert saved + [] == saved;
      r := Success(saved);
    }

    /** `getTranslationsByTargetLang`: the cached list on a hit; on a miss, the
        store's records for `targetLang`, which are also put in the cache. */
    method GetTranslationsByTargetLang(targetLang: string) returns (r: seq<Translation>)
      requires Valid()
      modifies cache
      ensures Valid()
      ensures (State(), r) == ServiceSpec.GetTranslationsByTargetLang(old(State()), targetLang)
    {
      var cached := cache.Get(targetLang);
      if cached.Some? {
        return cached.value;
      }
      r := repository.FindByTargetLang(targetLang);
      cache.Put(targetLang, r);
    }

    /** `getAllTranslations`: every stored record, read from the store and not from the cache. */
    method GetAllTranslations() returns (r: seq<Translation>)
      ensures r == ServiceSpec.GetAllTranslations(State())
      ensures forall t :: t in r ==> Store.FindById(repository.rows, t.id).Some?
    {
      r := repository.FindAll();
    }

    /** `getTranslationById`: the stored record with that id, or absent (not an error). */
    method GetTranslationById(id: int) returns (r: Option<Translation>)
      ensures r == ServiceSpec.GetTranslationById(State(), id)
      ensures r.Some? ==> r.value in repository.rows && r.value.id == id
      ensures r.None? <==> forall t :: t in repository.rows ==> t.id != id
    {
      r := repository.FindById(id);
    }

    /** `deleteTranslationById`: deletes from the store; the cache is left as it is. */
    method DeleteTranslationById(id: int)
      requires Valid()
      modifies repository
      ensures Valid()
      ensures State() == ServiceSpec.DeleteTranslationById(old(State()), id)
    {
      ServiceSpec.DeleteKeepsInvariant(State(), id);
      repository.DeleteById(id);
    }
  }
}
