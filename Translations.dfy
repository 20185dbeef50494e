/**
 * The translation record, the bulk request, the external translator and the
 * single error kind of the translation service.
 */
module Translations {
  import opened Wrappers

  /** A `Translation` entity before the store has assigned its id: what
      `new Translation()` and its four setters build. */
  datatype Draft = Draft(originalText: string, translatedText: string, sourceLang: string, targetLang: string)

  /** A stored `Translation`: the store-assigned id and the four text fields,
      which no operation ever changes after creation. */
  datatype Translation = Translation(id: int, originalText: string, translatedText: string,
                                     sourceLang: string, targetLang: string)

  /** The record the store creates from a draft under a given id. */
  function WithId(d: Draft, id: int): (t: Translation)
    ensures t.id == id && Fields(t) == d
  {
    Translation(id, d.originalText, d.translatedText, d.sourceLang, d.targetLang)
  }

  /** The four text fields of a stored record. */
  function Fields(t: Translation): Draft
  {
    Draft(t.originalText, t.translatedText, t.sourceLang, t.targetLang)
  }

  /** The body of a bulk translation request. */
  datatype BulkTranslationRequest = BulkTranslationRequest(texts: seq<string>, sourceLang: string, targetLang: string)

  /**
   * The external translation step: the HTTP call to the provider and the JSON
   * navigation to the first element of the first element of the first element
   * of the response, folded into one possibly-failing function of
   * (text, sourceLang, targetLang). A failure carries the cause's message.
   */
  type Translator = (string, string, string) -> Result<string, string>

  /** The prefix the service puts in front of the cause's message. */
  const MessagePrefix: string := "Ошибка при переводе текста: "

  /** The one error kind: every failure of the translation step is wrapped into it. */
  datatype TranslationError = TranslationError(cause: string)
  {
    /** The message of the wrapping exception: the prefix followed by the cause's message. */
    function Message(): (m: string)
      ensures |m| == |MessagePrefix| + |cause|
      ensures m[..|MessagePrefix|] == MessagePrefix && m[|MessagePrefix|..] == cause
    {
      MessagePrefix + cause
    }
  }

  /** `t` is the record built for `text` in the direction `sl` to `tl`, with
      the translator's output as its translation. */
  ghost predicate RecordFor(t: Translation, text: string, sl: string, tl: string, translate: Translator)
  {
    t.originalText == text && t.sourceLang == sl && t.targetLang == tl &&
    translate(text, sl, tl) == Success(t.translatedText)
  }
}
