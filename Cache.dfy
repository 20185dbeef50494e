/**
 * The target-language cache: a map from a target-language code to the list
 * of records last stored under it. Only its get/put contract is known: `get`
 * answers absent when there is no entry, `put` overwrites the entry. Nothing
 * expires and nothing is evicted.
 */
module Cache {
  import opened Wrappers
  import opened Translations

  class TranslationCache {
    var entries: map<string, seq<Translation>>

    constructor ()
      ensures entries == map[]
    {
      entries := map[];
    }

    /** `get`: the cached list for `lang`, or absent (Java's `null`) when there is no entry. */
    method Get(lang: string) returns (r: Option<seq<Translation>>)
      ensures r.Some? <==> lang in entries
      ensures r.Some? ==> r.value == entries[lang]
    {
      r := if lang in entries then Some(entries[lang]) else None;
    }

    /** `put`: unconditionally replaces the entry for `lang`; no merge, no append. */
    method Put(lang: string, translations: seq<Translation>)
      modifies this
      ensures entries == old(entries)[lang := translations]
    {
      entries := entries[lang := translations];
    }
  }
}
