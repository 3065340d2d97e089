/** Optional values, the translator's failures, and results that are either
    a value or one of those failures. */
module Results {

  datatype Option<+T> = None | Some(value: T)

  /** The exceptions the translator lets escape to its caller. */
  datatype Error =
      /** `getattr` with a language that is `None` (a `TypeError`). */
    | LanguageNotSet
      /** No catalog under this language tag (an `AttributeError`). */
    | UnknownLanguage(language: string)
      /** The catalog has no template under this key (a `KeyError`). */
    | UnknownKey(key: string)
      /** The inverse catalog has no key for this literal (a `KeyError`). */
    | UnknownLiteral(literal: string)

  datatype Result<+T> = Ok(value: T) | Err(error: Error)
}
