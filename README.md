# Translation service: translate-and-save orchestration and cache-aside lookups

This project models the core of a small Spring backend's `TranslationService`.
The service sends a text to an external translation provider and saves the
resulting `Translation` record (original text, translated text, source and
target language, store-assigned id) through a repository. It does the same
for a bulk request, one text after another. It serves lookups by target
language through a process-wide cache keyed by target language. The model
proves that a saved record keeps the request's fields and that a failed
translation saves nothing. It proves that a bulk request saves one record per
text, in input order, and keeps earlier saves when a later text fails. It
also proves that lookups by target language are cache-aside, and that the
cache therefore goes stale after a save or a delete.

Layout, leaf first:

- `Wrappers.dfy`: `Option` (Java's `null`/`Optional`) and `Result` (a value or the thrown error).
- `Translations.dfy`: the `Translation` record and its unsaved `Draft`, the bulk request, the
  translator as a function value, and the single error kind `TranslationError`.
- `Store.dfy`: the repository as a value: rows in save order plus the next id. It holds `save`,
  `findById`, `findByTargetLang` and `deleteById` as functions, with their lemmas.
- `Repository.dfy`, `Cache.dfy`: the repository and the cache as objects whose fields change in place.
- `ServiceSpec.dfy`: each service operation as a function of the state (store and cache), and the
  lemmas that state what the service promises.
- `Service.dfy`: the `TranslationService` class. Each method that changes the repository or the
  cache is proved equal to its function in `ServiceSpec`; the two plain reads change nothing and
  return what their functions in `ServiceSpec` return. The bulk request is a loop over the texts.

Assumptions about the collaborators, whose code is not part of this model:

- The translation step is the HTTP call plus the JSON navigation to `[0][0][0]`. It is one
  function `(text, sourceLang, targetLang) -> Result<string, string>`, where a failure carries the
  cause's message. It is treated as deterministic.
- The repository's `save` of a new entity assigns a fresh id. The model hands out the ids
  1, 2, 3, … and never reuses one. `findAll` and `findByTargetLang` return rows in save order.
- The cache's `get` answers absent when it has no entry, and `put` overwrites the entry. Nothing
  expires. An entry holding an empty list is still a hit, because the code tests for `null`, not
  for emptiness.

In `translateAndSave`, `save` sits inside the `try` (TranslationService.java:37-54), so a failing
save would be wrapped like a translation failure. The model's store never fails (see Left out).

## Model

| member | source | states |
|---|---|---|
| `Translations.TranslationError.Message` | src/main/java/com/example/demo11111/service/TranslationService.java:52-53 | the error message is the fixed prefix followed by exactly the cause's message |
| `Store.Save` | src/main/java/com/example/demo11111/service/TranslationService.java:51 | a save appends one record with the draft's four fields, under an id not used by any stored record, and advances the next id past it |
| `Store.SaveKeepsValid` | src/main/java/com/example/demo11111/service/TranslationService.java:51 | saving keeps ids unique, in save order and below the next id |
| `Store.FindById` | src/main/java/com/example/demo11111/service/TranslationService.java:81-83 | the result is a stored record with that id; it is absent exactly when no stored record has that id |
| `Store.FindByIdFindsRow` | src/main/java/com/example/demo11111/service/TranslationService.java:81-83 | with unique ids, looking up a stored record's id returns that very record |
| `Store.WithTargetLang` | src/main/java/com/example/demo11111/service/TranslationService.java:69 | a record is in the result exactly when it is stored and has that target language; when the store's ids are in order, so are the result's, so each matching row appears once and in store order |
| `Store.IncreasingHead` | src/main/java/com/example/demo11111/service/TranslationService.java:69 | in an id-ordered list the first row has the least id and every later row a larger one |
| `Store.SameIncreasingRowsEqual` | src/main/java/com/example/demo11111/service/TranslationService.java:69 | two id-ordered lists with the same members are equal, so membership plus order fixes a query's answer exactly |
| `Store.WithoutId` | src/main/java/com/example/demo11111/service/TranslationService.java:86 | a row stays exactly when it is stored and has another id |
| `Store.WithoutIdIncreasing` | src/main/java/com/example/demo11111/service/TranslationService.java:86 | deleting keeps the remaining ids unique and in order |
| `Store.DeleteById` | src/main/java/com/example/demo11111/service/TranslationService.java:85-87 | afterwards no record has that id, every other record stays, and deleting an unknown id changes nothing |
| `Repository.TranslationRepository.Save` | src/main/java/com/example/demo11111/service/TranslationService.java:51 | the repository object's rows and counter change exactly as `Store.Save` says, and the invariant is kept |
| `Repository.TranslationRepository.FindAll` | src/main/java/com/example/demo11111/service/TranslationService.java:78 | returns the repository's rows as they are and changes nothing |
| `Repository.TranslationRepository.FindById` | src/main/java/com/example/demo11111/service/TranslationService.java:82 | returns `Store.FindById` of the rows and changes nothing |
| `Repository.TranslationRepository.FindByTargetLang` | src/main/java/com/example/demo11111/service/TranslationService.java:69 | returns `Store.WithTargetLang` of the rows and changes nothing |
| `Repository.TranslationRepository.DeleteById` | src/main/java/com/example/demo11111/service/TranslationService.java:86 | the repository object changes exactly as `Store.DeleteById` says, and the invariant is kept |
| `Cache.TranslationCache.Get` | src/main/java/com/example/demo11111/service/TranslationService.java:63-64 | returns the entry for the language when there is one, and absent exactly when there is none |
| `Cache.TranslationCache.Put` | src/main/java/com/example/demo11111/service/TranslationService.java:72 | overwrites the entry for that language and leaves every other entry alone |
| `ServiceSpec.TranslateAndSave` | src/main/java/com/example/demo11111/service/TranslationService.java:36-55 | succeeds exactly when the translator does; on success the saved record has the text, both languages and the translator's output, and is appended under a fresh id; on failure the error wraps the translator's cause and the store is unchanged; the cache is never touched |
| `ServiceSpec.TranslateAndSaveKeepsInvariant` | src/main/java/com/example/demo11111/service/TranslationService.java:51 | a save keeps the store's invariant and keeps every cached record older than the next id |
| `ServiceSpec.SavedIsFoundById` | src/main/java/com/example/demo11111/service/TranslationService.java:51 | a record just saved is returned by a lookup of its id |
| `ServiceSpec.TranslateBulk` | src/main/java/com/example/demo11111/service/TranslationService.java:30-34 | a bulk request never touches the cache |
| `ServiceSpec.FirstFailure` | src/main/java/com/example/demo11111/service/TranslationService.java:31-33 | every text before the index translates, and the text at the index, if any, fails |
| `ServiceSpec.FirstFailureAt` | src/main/java/com/example/demo11111/service/TranslationService.java:31-33 | a failing text preceded only by succeeding ones is the first failure |
| `ServiceSpec.BulkOutcome` | src/main/java/com/example/demo11111/service/TranslationService.java:30-34 | with k the first failing text: the store gains exactly k records, one per earlier text, in input order, with each text and the request's languages, and loses nothing; the request succeeds exactly when no text fails, with those records as result, and otherwise fails with text k's wrapped error |
| `ServiceSpec.BulkSuccess` | src/main/java/com/example/demo11111/service/TranslationService.java:30-33 | when every text translates, the result has one record per text, in input order, each with its text and the request's languages, and these are exactly the records added to the store |
| `ServiceSpec.BulkPartialFailure` | src/main/java/com/example/demo11111/service/TranslationService.java:31-33 | when text k fails first, the request fails with its wrapped error and the records saved for texts 0..k-1 stay: the store is exactly as after a successful request for those texts alone |
| `ServiceSpec.BulkPrefixSameStore` | src/main/java/com/example/demo11111/service/TranslationService.java:31-33 | the store after a request failing at text k equals the store after the request for texts 0..k-1 |
| `ServiceSpec.BulkKeepsInvariant` | src/main/java/com/example/demo11111/service/TranslationService.java:30-34 | a bulk request keeps the service invariant |
| `ServiceSpec.GetTranslationsByTargetLang` | src/main/java/com/example/demo11111/service/TranslationService.java:61-75 | the store never changes; on a hit the cached list is returned and nothing changes; on a miss the result holds exactly the stored records of that language, in id order, and the cache maps the language to it, other entries unchanged; afterwards the cache holds the returned list |
| `ServiceSpec.MissIsStoreQuery` | src/main/java/com/example/demo11111/service/TranslationService.java:69-74 | on a miss the answer equals any id-ordered list of exactly the store's records of that language: each once, in store order |
| `ServiceSpec.GetKeepsInvariant` | src/main/java/com/example/demo11111/service/TranslationService.java:69-72 | filling the cache on a miss keeps every cached record older than the next id |
| `ServiceSpec.RepeatedLookupIsHit` | src/main/java/com/example/demo11111/service/TranslationService.java:63-74 | a second lookup with nothing in between returns the identical list and changes nothing |
| `ServiceSpec.OtherLookupKeepsEntry` | src/main/java/com/example/demo11111/service/TranslationService.java:72 | a lookup for another language leaves this language's entry as it was |
| `ServiceSpec.GetAllTranslations` | src/main/java/com/example/demo11111/service/TranslationService.java:77-79 | returns exactly the stored records, one entry per stored row, computed from the store alone (the cache is not an argument of the store query); with unique ids, each returned record is the very one a lookup of its id returns |
| `ServiceSpec.AllFoundById` | src/main/java/com/example/demo11111/service/TranslationService.java:77-83 | with unique ids, every stored record is what a lookup of its id returns |
| `ServiceSpec.GetTranslationById` | src/main/java/com/example/demo11111/service/TranslationService.java:81-83 | a result is a stored record with that id; it is absent, not an error, exactly when no stored record has that id |
| `ServiceSpec.DeleteTranslationById` | src/main/java/com/example/demo11111/service/TranslationService.java:85-87 | the cache is unchanged; the id is no longer found; every other record stays |
| `ServiceSpec.DeleteKeepsInvariant` | src/main/java/com/example/demo11111/service/TranslationService.java:85-87 | a delete keeps the service invariant |
| `ServiceSpec.StaleAfterDelete` | src/main/java/com/example/demo11111/service/TranslationService.java:63-65 | a list cached before a delete is still returned afterwards, still holding the deleted record, although a lookup of its id finds nothing |
| `ServiceSpec.StaleAfterSave` | src/main/java/com/example/demo11111/service/TranslationService.java:63-66 | a list cached before a save for that language is still returned afterwards and lacks the new record, although the store's records for the language include it |
| `Service.TranslationService.TranslateAndSave` | src/main/java/com/example/demo11111/service/TranslationService.java:36-55 | the service's state and result are exactly those of `ServiceSpec.TranslateAndSave`; only the repository changes |
| `Service.TranslationService.TranslateBulk` | src/main/java/com/example/demo11111/service/TranslationService.java:30-34 | the loop over the texts ends in exactly the state and result of `ServiceSpec.TranslateBulk`, including the early stop |
| `Service.TranslationService.GetTranslationsByTargetLang` | src/main/java/com/example/demo11111/service/TranslationService.java:61-75 | state and result are exactly those of `ServiceSpec.GetTranslationsByTargetLang`; only the cache may change |
| `Service.TranslationService.GetAllTranslations` | src/main/java/com/example/demo11111/service/TranslationService.java:77-79 | returns the store's records, each of which a lookup by id finds, and changes nothing |
| `Service.TranslationService.GetTranslationById` | src/main/java/com/example/demo11111/service/TranslationService.java:81-83 | returns a stored record with that id, or absent exactly when no record has it; changes nothing |
| `Service.TranslationService.DeleteTranslationById` | src/main/java/com/example/demo11111/service/TranslationService.java:85-87 | the state is exactly that of `ServiceSpec.DeleteTranslationById`; the cache is not in the frame, so it is left unchanged |

## Left out

- The HTTP call to the provider and its URL template (TranslationService.java:22-24, 38-39) are network I/O. They are folded into the translator function value.
- Parsing the JSON and navigating it with `.get(0)` and `.asText()` (TranslationService.java:41-43) are library behaviour. They are folded into the translator's success or failure. The model cannot tell a missing element from a malformed body.
- The message's cause chaining is not modelled. A `null` cause message, which Java would print as "null", is not distinguished from other messages.
- A save that throws inside `translateAndSave` is not modelled. The code would wrap it with the same prefix. The model's store never fails.
- A `null` list of texts, or `null` languages, in a bulk request is not modelled. The request's texts are a sequence.
- The repository's id generation and row order come from the persistence layer, which is not part of this model. Consecutive ids and save order are assumptions.
- Null and fixed-width arguments are not modelled. A `null` id makes `findById` and `deleteById` throw; the model's ids are never null. Ids are 32-bit `Integer`s in the code but unbounded integers in the model, so counter overflow is not modelled. A `null` text or language passed to `translateAndSave`, or a `null` target language passed to the cache, is not modelled.
- `deleteById` of an unknown id is a no-op in the model. Older Spring Data versions throw in that case.
- The cache's thread safety and concurrent requests are out of scope, because they involve concurrency.
- The list object is shared between the cache and the caller (aliasing). Lists are values in the model.
- `LoggingAspect.java` is left out. It is logging around controller calls and holds no logic.
