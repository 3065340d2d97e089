# localize-py Translator, modelled in Dafny

A model of the `Translator` class of localize-py, a small localisation
helper. The class keeps, per language tag, a forward catalog (message key to
template string, read from a JSON file) and an inverse catalog (template to
key) built from it; a translator handle bound to one language looks a key's
template up (before rendering it), and `backwards` maps a literal back to its
key. It also ships `ru_plural`, which picks one of three Russian word endings
for a number.

The model is functional. The store is an immutable `map` from language tag to
an `Entry` of forward and inverse maps; loading and unloading return a new
store; lookups return a `Result` whose errors name the exception the source
raises. A parsed catalog file is the sequence of items of the dict that
`json.load` returns, in iteration order, so its keys are distinct, and Python's `dict(pairs)` (later pairs overwrite earlier
ones) is defined once as `Dict.DictOf`, used for both catalogs.

Files:

- `results.dfy` — `Option`, the `Error` kinds and `Result`.
- `dict.dfy` — `dict(pairs)` with its last-wins characterisation.
- `plural.dfy` — `ru_plural` as written, and the corrected selector.
- `catalog.dfy` — the store: load, load of several files, unload, template lookup, `backwards`.
- `catalog_laws.dfy` — the inverse-catalog invariants, round trips, collision and frame laws.

## Model

| member | source | states |
|---|---|---|
| Plural.RuPlural | localize-py/Translator.py:72-99 | The category is always 0, 1 or 2; last two digits 10 give 2; otherwise the last digit decides: 1 gives 0, 2..4 give 1, anything else gives 2, each as an if-and-only-if |
| Plural.RuPluralPeriodic | localize-py/Translator.py:90 | The category depends only on the number modulo 100: adding any multiple of 100, also to negative numbers, does not change it |
| Plural.RuPluralExamples | localize-py/Translator.py:78-80 | The documented example 25 gives 2 ('акций'), and 1, 21, 111 give 0; 2, 4, 12 give 1; 0, 5, 10, 100, -1 give 2 |
| Plural.RuPluralIgnoresTens | localize-py/Translator.py:90-96 | As written, the true-division test catches only 10, which the last-digit rule would send to 2 anyway, so the result equals that of the last digit alone: 11 gives 0, 12 and 14 give 1 |
| Plural.RuPluralIntended | localize-py/Translator.py:90-99 | With floor division the selector is the conventional Russian rule: 0 iff the last digit is 1 and the last two are not 11; 1 iff the last digit is 2..4 and the last two are not 12..14; 2 otherwise |
| Plural.RuPluralDiscrepancy | localize-py/Translator.py:91-93 | The written and the intended selectors differ exactly on numbers ending in 11..14, where the intended one says 2 and the written one does not |
| Dict.DictOf | localize-py/Translator.py:119 | `dict(pairs)`: its keys are exactly the keys that occur, and each key maps to the value of its last pair |
| Dict.Swapped | localize-py/Translator.py:119 | The `(v, k) for k, v` comprehension: the keys of the swapped pairs are exactly the values of the originals and their values exactly the original keys |
| Dict.SwappedTwice | localize-py/Translator.py:119 | Swapping the pairs twice gives back the original pairs |
| Catalog.Inverse | localize-py/Translator.py:119 | The inverse catalog's literals are exactly the templates that occur, and each template maps to the key of the last pair carrying it |
| Catalog.EntryOfConsistent | localize-py/Translator.py:117-119 | For a catalog with distinct keys, the inverse catalog's literals are exactly the forward catalog's templates, and the forward template of every literal's key is that literal |
| Catalog.Load | localize-py/Translator.py:115-119 | Loading the items of a parsed catalog registers the language (the store's tags become the old ones plus it); its forward catalog maps exactly the file's keys, each to its template; its inverse maps exactly the file's templates, each to the last key carrying it, and is consistent with the forward catalog; every other language's entry is unchanged |
| Catalog.LoadAll | localize-py/Translator.py:101-119 | Loading several files, one per distinct keyword, in argument order, registers exactly the named languages in addition, gives each the entry of its file, leaves unnamed ones unchanged, and keeps every language's inverse consistent |
| Catalog.Unload | localize-py/Translator.py:121-128 | Unloading succeeds iff every named language is loaded and named once, and then removes exactly those; otherwise it fails with an unknown language at the first offending name, with the languages before it removed and nothing else changed; a store whose inverses are consistent stays so |
| Catalog.Lookup | localize-py/Translator.py:50 | A handle without a language fails with a type error, an unloaded language fails as unknown, a loaded language without the key fails as an unknown key, and the lookup succeeds iff the language is loaded and has the key, with exactly that key's template |
| Catalog.Backwards | localize-py/Translator.py:62-70 | Fails as unknown if the language's inverse catalog is absent, fails as an unknown literal if it lacks the literal, succeeds iff the literal is in it and then returns exactly the key the inverse catalog holds for it, and in a consistent store the key it returns translates back to the literal |
| CatalogLaws.LoadWellFormed | localize-py/Translator.py:115-119 | Loading a catalog with distinct keys keeps every language's inverse consistent with its forward catalog |
| CatalogLaws.LookupAfterLoad | localize-py/Translator.py:117-118 | After loading, a key looks up to a template iff that (key, template) pair is in the file, and a key absent from the file fails as an unknown key |
| CatalogLaws.BackwardsLastWins | localize-py/Translator.py:119 | After loading a parsed file, `backwards` of a template shared by several keys answers with the last such key in file order |
| CatalogLaws.BackwardsCollisionExample | localize-py/Translator.py:119 | Loading {"A": "X", "B": "X"}: "X" goes back to "B" and both keys still translate to "X" |
| CatalogLaws.BackwardsThenLookup | localize-py/Translator.py:62-70 | In a store built by loads and unloads, for a handle with a language, the key `backwards` returns for a literal looks up to that literal |
| CatalogLaws.LookupThenBackwards | localize-py/Translator.py:62-70 | When a file's keys and templates are both distinct, every key's template goes back to that key through `backwards` |
| CatalogLaws.NoLanguageHandle | localize-py/Translator.py:69 | A handle created without a language fails on lookup, while its `backwards` reads the catalog loaded under the tag "None" |
| CatalogLaws.LoadLeavesOthers | localize-py/Translator.py:118-119 | Loading one language changes neither lookup nor `backwards` for handles of any other language |
| CatalogLaws.RemovedLanguages | localize-py/Translator.py:126-128 | After removing a set of languages, their handles fail on lookup and `backwards` as unknown languages, all other handles behave as before, and consistency is kept |

## Findings

| source | as written | input that shows it | evidently intended | confidence | as-written member | corrected member |
|---|---|---|---|---|---|---|
| localize-py/Translator.py:91 | `tens = lastTwoDigits / 10` is true division, so `tens == 1` only for 10 | 11 gives 0 (the form 'акция' after "11"); 12, 13, 14 give 1 | floor division, so 10..19 all give 2 (the form 'акций') | high, not executed | Plural.RuPluralIgnoresTens | Plural.RuPluralIntended |

The variable is called `tens` and is compared with 1, which only makes
sense for floor division: with true division the branch catches 10 alone,
which the last-digit tests would already send to 2, so the branch is dead
(`Plural.RuPluralIgnoresTens`). With `//` it catches 10..19, and the selector
becomes the usual Russian rule, under which 11..14 take the "many" form.
`Plural.RuPlural` is the selector as written and `Plural.RuPluralDiscrepancy`
pins down exactly where the two differ. No other part of the model calls a
plural selector, since rendering templates is not modelled.

## Left out

- Rendering a template (lines 51-53): the source evaluates the template as a Python f-string with `self` and the keyword arguments in scope, which cannot be stated without modelling Python; only the lookup before it is modelled.
- `__getitem__` (lines 55-60): it delegates to `__call__`, so its lookup is `Catalog.Lookup`.
- The `lru_cache(typed=True)` memoisation of `__call__` and `__getitem__` (lines 33, 55) is not modelled, and with it three effects the cache has on results: a call with an unhashable keyword argument (a list, say) fails with a type error before the lookup runs; a handle whose `language` is reassigned keeps answering a repeated call from the entry cached for its old language, since the handle is part of the cache key; and stale entries survive a reload or an unload (the docstring of `unload_translations`, line 124, says so). The model is the uncached lookup.
- The finalizer `__del__` (lines 25-31): garbage-collection timing and cache clearing.
- Opening files and `json.load` (lines 116-117): a file is given as the items of the parsed dict, a sequence of (key, template) pairs with distinct keys; how the parser merges duplicate members of the JSON text is not modelled. A file that fails to open or parse, a document that is not an object, and non-string values are not modelled.
- Catalog.LoadAll: models only runs where every file loads; in the source a failure on a later file leaves the earlier languages loaded, which is not stated.
- Reflection (lines 50, 69, 118-119, 127-128): catalogs live as class attributes named after the tag and `inverse_<tag>`, so a tag such as `backwards`, `ru_plural` or `inverse_eng` would clash with a method or another language's inverse; the model keys plain maps by tag and has no such clashes.
- `unload_translations` is not a static method (line 121): called on an instance, the instance itself would be taken as the first language; the model takes the list as passed on the class.
- `ru_plural` on non-integers (floats): only integer arguments are modelled.
- Concurrent use of the shared class attributes.
