/** The catalog store of the translator: per language tag, a forward catalog
    (key to template, as parsed from that language's JSON file) and the
    inverse catalog derived from it (template to key), together with the
    template lookup of a translator handle and its reverse lookup.
    The store is an immutable value; loading and unloading return a new one.
 */
module Catalog {
  import opened Dict
  import opened Results

  type Lang = string
  type Key = string
  type Template = string

  /** A parsed catalog file: the items of the dict `json.load` returns, in
      iteration order. Being a dict's items, their keys are distinct
      (`DistinctKeys`); duplicate members of the JSON text are merged by the
      parser before this point. */
  type Pairs = seq<(Key, Template)>

  datatype Entry = Entry(forward: map<Key, Template>, inverse: map<Template, Key>)

  type Store = map<Lang, Entry>

  /** A translator handle: only the language it was created with, which
      defaults to `None`. */
  datatype Translator = Translator(language: Option<Lang>)

  /** No later pair carries the template of pair `i`. */
  predicate LastWithTemplate(pairs: Pairs, i: int)
    requires 0 <= i < |pairs|
  {
    forall j :: i < j < |pairs| ==> pairs[j].1 != pairs[i].1
  }

  /** The inverse catalog, `dict([(v, k) for k, v in forward.items()])`:
      every template that occurs maps to the key of its last pair. */
  function Inverse(pairs: Pairs): (r: map<Template, Key>)
    ensures r.Keys == ValuesOf(pairs)
    ensures forall i :: 0 <= i < |pairs| && LastWithTemplate(pairs, i) ==> r[pairs[i].1] == pairs[i].0
  {
    var swapped := Swapped(pairs);
    forall i | 0 <= i < |pairs| && LastWithTemplate(pairs, i)
      ensures LastOccurrence(swapped, i)
    {
    }
    DictOf(swapped)
  }

  /** An entry whose inverse catalog is a right inverse of its forward
      catalog: its literals are exactly the templates, and looking up the
      key of a literal gives back that literal. */
  ghost predicate Consistent(e: Entry)
  {
    && e.inverse.Keys == e.forward.Values
    && forall v :: v in e.inverse ==> e.inverse[v] in e.forward && e.forward[e.inverse[v]] == v
  }

  ghost predicate WellFormed(s: Store)
  {
    forall lang :: lang in s ==> Consistent(s[lang])
  }

  /** The entry a parsed catalog file is loaded as. */
  function EntryOf(pairs: Pairs): Entry
  {
    Entry(DictOf(pairs), Inverse(pairs))
  }

  /** A catalog with distinct keys gets a consistent entry. */
  lemma EntryOfConsistent(pairs: Pairs)
    requires DistinctKeys(pairs)
    ensures Consistent(EntryOf(pairs))
  {
    var e := EntryOf(pairs);
    DictOfDistinct(pairs);
    forall v | v in ValuesOf(pairs) ensures v in e.forward.Values {
      var i :| 0 <= i < |pairs| && pairs[i].1 == v;
      assert e.forward[pairs[i].0] == v;
    }
    forall v | v in e.forward.Values ensures v in ValuesOf(pairs) {
      var k :| k in e.forward && e.forward[k] == v;
      var i := DictOfEntry(pairs, k);
      assert pairs[i].1 == v;
    }
    forall v | v in e.inverse
      ensures e.inverse[v] in e.forward && e.forward[e.inverse[v]] == v
    {
      var swapped := Swapped(pairs);
      var i := DictOfEntry(swapped, v);
      assert pairs[i] == (e.inverse[v], v);
    }
  }

  /** `load_translations` for one language: register the parsed catalog
      under `lang`, replacing any earlier one, with its inverse rebuilt.
      The forward catalog holds exactly the file's items; the inverse maps
      each template to the last key carrying it, and is consistent with
      the forward catalog. */
  function Load(s: Store, lang: Lang, pairs: Pairs): (r: Store)
    requires DistinctKeys(pairs)
    ensures r.Keys == s.Keys + {lang}
    ensures r[lang].forward.Keys == KeysOf(pairs)
    ensures forall i :: 0 <= i < |pairs| ==> r[lang].forward[pairs[i].0] == pairs[i].1
    ensures r[lang].inverse.Keys == ValuesOf(pairs)
    ensures forall i :: 0 <= i < |pairs| && LastWithTemplate(pairs, i) ==> r[lang].inverse[pairs[i].1] == pairs[i].0
    ensures Consistent(r[lang])
    ensures forall l :: l in s && l != lang ==> r[l] == s[l]
  {
    DictOfDistinct(pairs);
    EntryOfConsistent(pairs);
    s[lang := EntryOf(pairs)]
  }

  /** The languages among the first `n` files. */
  function LangsBefore<L, P>(files: seq<(L, P)>, n: nat): set<L>
    requires n <= |files|
  {
    set i | 0 <= i < n :: files[i].0
  }

  /** Every file's items have distinct keys. */
  predicate ParsedFiles(files: seq<(Lang, Pairs)>)
  {
    forall i :: 0 <= i < |files| ==> DistinctKeys(files[i].1)
  }

  /** None of files `i + 1 .. n - 1` names the language of file `i`. */
  predicate LastBefore<L(==), P>(files: seq<(L, P)>, n: nat, i: int)
    requires 0 <= i < n <= |files|
  {
    forall j :: i < j < n ==> files[j].0 != files[i].0
  }

  /** What loading the first `n` files in turn has produced from `s`, where
      `entries[i]` is the entry file `i` is loaded as: the languages seen so
      far are added, the others kept, and each language seen holds the entry
      of its last file so far. */
  ghost predicate LoadedPrefix<L, P, E>(s: map<L, E>, files: seq<(L, P)>, entries: seq<E>, n: nat, r: map<L, E>)
    requires n <= |files| == |entries|
  {
    && r.Keys == s.Keys + LangsBefore(files, n)
    && PrefixKeeps(s, files, n, r)
    && PrefixHolds(files, entries, n, r)
  }

  /** Languages not among the first `n` files keep their entry from `s`. */
  ghost predicate PrefixKeeps<L, P, E>(s: map<L, E>, files: seq<(L, P)>, n: nat, r: map<L, E>)
    requires n <= |files|
  {
    forall l :: l in s && l !in LangsBefore(files, n) ==> l in r && r[l] == s[l]
  }

  /** The language of each file last so far for it holds that file's entry. */
  ghost predicate PrefixHolds<L, P, E>(files: seq<(L, P)>, entries: seq<E>, n: nat, r: map<L, E>)
    requires n <= |files| == |entries|
  {
    forall i :: 0 <= i < n && LastBefore(files, n, i) ==> files[i].0 in r && r[files[i].0] == entries[i]
  }

  /** Registering the entry of file `n` extends what the first `n` files
      produced. */
  lemma LoadAllStep<L, P, E>(s: map<L, E>, files: seq<(L, P)>, entries: seq<E>, n: nat, r: map<L, E>)
    requires n < |files| == |entries|
    requires LoadedPrefix(s, files, entries, n, r)
    ensures LoadedPrefix(s, files, entries, n + 1, r[files[n].0 := entries[n]])
  {
    LangsBeforeStep(files, n);
    PrefixKeepsStep(s, files, n, r, entries[n]);
    PrefixHoldsStep(files, entries, n, r);
  }

  /** Registering file `n` keeps the languages no file has named. */
  lemma PrefixKeepsStep<L, P, E>(s: map<L, E>, files: seq<(L, P)>, n: nat, r: map<L, E>, e: E)
    requires n < |files|
    requires PrefixKeeps(s, files, n, r)
    ensures PrefixKeeps(s, files, n + 1, r[files[n].0 := e])
  {
    LangsBeforeStep(files, n);
  }

  /** Registering file `n` gives its language its entry and leaves the
      entries of the other languages seen so far. */
  lemma PrefixHoldsStep<L, P, E>(files: seq<(L, P)>, entries: seq<E>, n: nat, r: map<L, E>)
    requires n < |files| == |entries|
    requires PrefixHolds(files, entries, n, r)
    ensures PrefixHolds(files, entries, n + 1, r[files[n].0 := entries[n]])
  {
    var r' := r[files[n].0 := entries[n]];
    forall i | 0 <= i < n + 1 && LastBefore(files, n + 1, i)
      ensures files[i].0 in r' && r'[files[i].0] == entries[i]
    {
      if i < n {
        LastBeforeStep(files, n, i);
      }
    }
  }

  /** The languages among the first `n + 1` files are those among the first
      `n` and that of file `n`. */
  lemma LangsBeforeStep<L, P>(files: seq<(L, P)>, n: nat)
    requires n < |files|
    ensures LangsBefore(files, n + 1) == LangsBefore(files, n) + {files[n].0}
  {
    forall l | l in LangsBefore(files, n + 1) ensures l in LangsBefore(files, n) + {files[n].0} {
      var i :| 0 <= i < n + 1 && files[i].0 == l;
      if i < n {
        assert files[i].0 in LangsBefore(files, n);
      }
    }
    forall l | l in LangsBefore(files, n) ensures l in LangsBefore(files, n + 1) {
      var i :| 0 <= i < n && files[i].0 == l;
      assert files[i].0 in LangsBefore(files, n + 1);
    }
    assert files[n].0 in LangsBefore(files, n + 1);
  }

  /** A file last for its language among the first `n + 1` is last among the
      first `n`, and file `n` names another language. */
  lemma LastBeforeStep<L, P>(files: seq<(L, P)>, n: nat, i: int)
    requires 0 <= i < n < |files| && LastBefore(files, n + 1, i)
    ensures files[n].0 != files[i].0 && LastBefore(files, n, i)
  {
  }

  /** `load_translations` for several languages: each (language, file)
      keyword argument is loaded in turn. Keyword names are distinct, so
      each named language ends up with the entry of its own file. */
  method LoadAll(s: Store, files: seq<(Lang, Pairs)>) returns (r: Store)
    requires DistinctKeys(files) && ParsedFiles(files)
    ensures r.Keys == s.Keys + KeysOf(files)
    ensures forall l :: l in s && l !in KeysOf(files) ==> r[l] == s[l]
    ensures forall i :: 0 <= i < |files| ==> r[files[i].0] == EntryOf(files[i].1)
    ensures forall i :: 0 <= i < |files| ==> Consistent(r[files[i].0])
    ensures WellFormed(s) ==> WellFormed(r)
  {
    ghost var entries := seq(|files|, i requires 0 <= i < |files| => EntryOf(files[i].1));
    r := s;
    var n := 0;
    while n < |files|
      invariant 0 <= n <= |files|
      invariant LoadedPrefix(s, files, entries, n, r)
    {
      LoadAllStep(s, files, entries, n, r);
      assert Load(r, files[n].0, files[n].1) == r[files[n].0 := entries[n]];
      r := Load(r, files[n].0, files[n].1);
      n := n + 1;
    }
    LoadAllDone(s, files, entries, r);
  }

  /** After the last file, every file's entry is in place. */
  lemma LoadAllDone(s: Store, files: seq<(Lang, Pairs)>, entries: seq<Entry>, r: Store)
    requires DistinctKeys(files) && ParsedFiles(files) && |entries| == |files|
    requires forall i :: 0 <= i < |files| ==> entries[i] == EntryOf(files[i].1)
    requires LoadedPrefix(s, files, entries, |files|, r)
    ensures r.Keys == s.Keys + KeysOf(files)
    ensures forall l :: l in s && l !in KeysOf(files) ==> r[l] == s[l]
    ensures forall i :: 0 <= i < |files| ==> r[files[i].0] == EntryOf(files[i].1)
    ensures forall i :: 0 <= i < |files| ==> Consistent(r[files[i].0])
    ensures WellFormed(s) ==> WellFormed(r)
  {
    assert LangsBefore(files, |files|) == KeysOf(files);
    forall i | 0 <= i < |files| ensures r[files[i].0] == EntryOf(files[i].1) {
      assert LastBefore(files, |files|, i);
    }
    forall i | 0 <= i < |files| ensures Consistent(r[files[i].0]) {
      EntryOfConsistent(files[i].1);
    }
    if WellFormed(s) {
      forall l | l in r ensures Consistent(r[l]) {
        if l in KeysOf(files) {
          var i :| 0 <= i < |files| && files[i].0 == l;
        }
      }
    }
  }

  /** The languages named in a list. */
  function LangsOf(langs: seq<Lang>): set<Lang>
  {
    set i | 0 <= i < |langs| :: langs[i]
  }

  /** Language `langs[i]` can be removed once the ones before it are: it is
      loaded and not named earlier in the list. */
  predicate Removable(s: Store, langs: seq<Lang>, i: int)
    requires 0 <= i < |langs|
  {
    langs[i] in s && langs[i] !in langs[..i]
  }

  /** `unload_translations`: delete each named language's forward and
      inverse catalogs, in order, stopping with an error at the first that
      is not loaded (again). Languages removed before it stay removed. */
  method Unload(s: Store, langs: seq<Lang>) returns (store: Store, failure: Option<Error>)
    ensures failure.None? <==> forall i :: 0 <= i < |langs| ==> Removable(s, langs, i)
    ensures failure.None? ==> store == s - LangsOf(langs)
    ensures failure.Some? ==>
              exists i :: 0 <= i < |langs| && !Removable(s, langs, i)
                && (forall j :: 0 <= j < i ==> Removable(s, langs, j))
                && failure == Some(UnknownLanguage(langs[i]))
                && store == s - LangsOf(langs[..i])
    ensures WellFormed(s) ==> WellFormed(store)
  {
    store := s;
    var n := 0;
    while n < |langs|
      invariant 0 <= n <= |langs|
      invariant store == s - LangsOf(langs[..n])
      invariant forall j :: 0 <= j < n ==> Removable(s, langs, j)
    {
      assert langs[n] in langs[..n] <==> langs[n] in LangsOf(langs[..n]);
      if langs[n] !in store {
        assert !Removable(s, langs, n);
        failure := Some(UnknownLanguage(langs[n]));
        return;
      }
      assert LangsOf(langs[..n + 1]) == LangsOf(langs[..n]) + {langs[n]} by {
        assert langs[..n + 1] == langs[..n] + [langs[n]];
      }
      store := store - {langs[n]};
      n := n + 1;
    }
    assert langs[..n] == langs;
    failure := None;
  }

  /** The template lookup of `__call__`, before rendering: the handle's
      language must be set and loaded, and the key present. */
  function Lookup(s: Store, t: Translator, key: Key): (r: Result<Template>)
    ensures t.language.None? ==> r == Err(LanguageNotSet)
    ensures t.language.Some? && t.language.value !in s ==> r == Err(UnknownLanguage(t.language.value))
    ensures r.Ok? <==> t.language.Some? && t.language.value in s && key in s[t.language.value].forward
    ensures t.language.Some? && t.language.value in s && key !in s[t.language.value].forward ==>
              r == Err(UnknownKey(key))
    ensures r.Ok? ==> (key, r.value) in s[t.language.value].forward.Items
  {
    match t.language
    case None => Err(LanguageNotSet)
    case Some(lang) =>
      if lang !in s then Err(UnknownLanguage(lang))
      else if key !in s[lang].forward then Err(UnknownKey(key))
      else Ok(s[lang].forward[key])
  }

  /** The tag `backwards` reads: it formats the language into the attribute
      name, so a handle without a language reads the catalog of "None". */
  function InverseTag(t: Translator): Lang
  {
    match t.language
    case Some(lang) => lang
    case None => "None"
  }

  /** `backwards`: the key of a literal, from the inverse catalog. */
  function Backwards(s: Store, t: Translator, text: Template): (r: Result<Key>)
    ensures InverseTag(t) !in s ==> r == Err(UnknownLanguage(InverseTag(t)))
    ensures r.Ok? <==> InverseTag(t) in s && text in s[InverseTag(t)].inverse
    ensures InverseTag(t) in s && text !in s[InverseTag(t)].inverse ==> r == Err(UnknownLiteral(text))
    ensures r.Ok? ==> (text, r.value) in s[InverseTag(t)].inverse.Items
    ensures WellFormed(s) && r.Ok? ==>
              r.value in s[InverseTag(t)].forward && s[InverseTag(t)].forward[r.value] == text
  {
    var lang := InverseTag(t);
    assert WellFormed(s) && lang in s ==> Consistent(s[lang]);
    if lang !in s then Err(UnknownLanguage(lang))
    else if text !in s[lang].inverse then Err(UnknownLiteral(text))
    else Ok(s[lang].inverse[text])
  }
}
