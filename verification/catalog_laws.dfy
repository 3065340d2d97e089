/** Laws of the catalog store: what a load puts in place, the inverse
    catalog as a right inverse of the forward one, the round trip through
    `backwards`, the duplicate-template collision, and which languages
    loading and unloading leave alone.
 */
module CatalogLaws {
  import opened Dict
  import opened Results
  import opened Catalog

  /** Loading a catalog with distinct keys keeps every language's inverse
      catalog consistent with its forward catalog. */
  lemma LoadWellFormed(s: Store, lang: Lang, pairs: Pairs)
    requires WellFormed(s) && DistinctKeys(pairs)
    ensures WellFormed(Load(s, lang, pairs))
  {
  }

  /** After a load, the language's templates are exactly the file's pairs:
      looking a key up succeeds with `t` if and only if (key, t) is a member
      of the file, and fails with an unknown key otherwise. */
  lemma LookupAfterLoad(s: Store, lang: Lang, pairs: Pairs, key: Key, t: Template)
    requires DistinctKeys(pairs)
    ensures Lookup(Load(s, lang, pairs), Translator(Some(lang)), key) == Ok(t) <==> (key, t) in pairs
    ensures key !in KeysOf(pairs) ==> Lookup(Load(s, lang, pairs), Translator(Some(lang)), key) == Err(UnknownKey(key))
  {
  }

  /** When several keys share a template, `backwards` answers with the key
      of the last of them in file order. */
  lemma BackwardsLastWins(s: Store, lang: Lang, pairs: Pairs, i: int)
    requires DistinctKeys(pairs) && 0 <= i < |pairs| && LastWithTemplate(pairs, i)
    ensures Backwards(Load(s, lang, pairs), Translator(Some(lang)), pairs[i].1) == Ok(pairs[i].0)
  {
  }

  /** Loading {"A": "X", "B": "X"}: "X" goes back to "B", the later key,
      and both keys still translate to "X". */
  lemma BackwardsCollisionExample(s: Store)
    ensures var r := Load(s, "eng", [("A", "X"), ("B", "X")]);
            && Backwards(r, Translator(Some("eng")), "X") == Ok("B")
            && Lookup(r, Translator(Some("eng")), "A") == Ok("X")
            && Lookup(r, Translator(Some("eng")), "B") == Ok("X")
  {
  }

  /** For a handle with a language, the key of a literal translates back to
      that literal, in any store built from catalogs with distinct keys. A
      handle without a language is excluded: its `backwards` reads the tag
      "None" while its lookup fails (see `NoLanguageHandle`). */
  lemma BackwardsThenLookup(s: Store, t: Translator, text: Template)
    requires WellFormed(s) && t.language.Some?
    ensures Backwards(s, t, text).Ok? ==> Lookup(s, t, Backwards(s, t, text).value) == Ok(text)
  {
  }

  /** Round trip: when a file's keys and templates are both distinct, the
      template of every key goes back to that key. */
  lemma LookupThenBackwards(s: Store, lang: Lang, pairs: Pairs, key: Key)
    requires DistinctKeys(pairs) && DistinctValues(pairs) && key in KeysOf(pairs)
    ensures var r := Load(s, lang, pairs);
            var t := Translator(Some(lang));
            && Lookup(r, t, key).Ok?
            && Backwards(r, t, Lookup(r, t, key).value) == Ok(key)
  {
  }

  /** A translator whose language is `None` cannot look up templates, but
      its `backwards` reads the catalog loaded under the tag "None". */
  lemma NoLanguageHandle(s: Store, key: Key, text: Template)
    ensures Lookup(s, Translator(None), key) == Err(LanguageNotSet)
    ensures Backwards(s, Translator(None), text) == Backwards(s, Translator(Some("None")), text)
  {
  }

  /** Loading one language changes neither lookup nor reverse lookup for a
      handle of any other language. */
  lemma LoadLeavesOthers(s: Store, lang: Lang, pairs: Pairs, other: Lang, key: Key, text: Template)
    requires DistinctKeys(pairs) && other != lang
    ensures Lookup(Load(s, lang, pairs), Translator(Some(other)), key) == Lookup(s, Translator(Some(other)), key)
    ensures Backwards(Load(s, lang, pairs), Translator(Some(other)), text) == Backwards(s, Translator(Some(other)), text)
  {
  }

  /** Once a set of languages is removed (as a successful unload does),
      the lookup of a key and `backwards` for their handles fail with an
      unknown language, and every other handle behaves as before. */
  lemma RemovedLanguages(s: Store, gone: set<Lang>, lang: Lang, key: Key, text: Template)
    ensures lang in gone ==> Lookup(s - gone, Translator(Some(lang)), key) == Err(UnknownLanguage(lang))
    ensures lang in gone ==> Backwards(s - gone, Translator(Some(lang)), text) == Err(UnknownLanguage(lang))
    ensures lang !in gone ==> Lookup(s - gone, Translator(Some(lang)), key) == Lookup(s, Translator(Some(lang)), key)
    ensures lang !in gone ==> Backwards(s - gone, Translator(Some(lang)), text) == Backwards(s, Translator(Some(lang)), text)
    ensures WellFormed(s) ==> WellFormed(s - gone)
  {
  }
}
