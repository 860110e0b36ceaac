# pawn, modelled in Dafny

pawn puts French and Russian vocabularies on top of the Princeton WordNet that NLTK
ships. A language session holds the current language, the loaded word index
(`<lang>_data.json`, word to raw synset ids) and word counts (`<lang>_vocab.txt`), and
the three maps built from them: the display name minted for every raw synset id, its
inverse, and the qualified lemma names of every display name. The session also holds a
morphological analyser that maps an inflected token to a dictionary form. The lookup
functions work in terms of display names. `morphy`, `synset`, `synsets` and `lemma`
answer from these maps. NLTK's synset objects are renamed on the fly, and lemma
objects are created once per language and cached.

The model has these modules:

- `Wrappers` (`wrappers.dfy`): `Option`, `Result` and the exceptions the code raises.
- `Strings` (`strings.dfy`): Python's `str.split(sep)`, `sep.join`, string order, `str(n)`, prefix and substring tests.
- `Sorting` (`sorting.dfy`): Python's stable `sorted` as insertion sort. It is proved to permute, to sort and to be stable.
- `Vocabulary` (`vocabulary.dfy`): the word-count file parse of `_load_wordcounts`, with `line.split()` and `int(...)`.
- `SynsetNames` (`synset_names.dfy`): `_set_synsetmaps`. It inverts the index, orders the member words of each raw id, mints `word.pos.NN` names with the collision loop, and stops at the first exception.
- `Morphology` (`morphology.dfy`): `pawn/morphy.py`. This covers the `_`-splitting wrapper, the French suffix table and `_fr_morphy`, `_ru_morphy` over an abstract parse list, and the `Morphy` class that selects a backend.
- `Session` (`session.dfy`): `pawn/load.py`. This covers `_langmap`, the per-language caches, the three loaders and `set_language` / `language`.
- `WordNet` (`wordnet.dfy`): the non-English side of `pawn/wordnet.py`. This covers `morphy`, the `_synset_update` overlay, `synset`, `synsets`, `_lemma`, `_synset_lemma_names`, the non-English `count` and `lemma`.

Several behaviours are modelled exactly as the source does them:

- **`_fr_morphy` suffix lookup.** It looks suffixes up with the single character `string[-length]`, not the slice `string[-length:]`. Only the length-1 table entries (`s`, `e`, `é`) can ever match, and `FrRootEffect` states the resulting behaviour outright.
- **`_snowball_morphy` always raises.** It is decorated with the one-argument `_stringsplit_wrapper` but called as a bound method, so the call raises `TypeError`. `Analyse` returns exactly that failure.
- **Stale `_words` after a cache hit.** The language cache restores `_wordcounts` on a hit but not `_words`, so `_words` keeps the previous language's set. `Session.Session.LoadWordCounts` keeps it unchanged on a hit.
- **Partial maps after a failed `_set_synsetmaps`.** If `_set_synsetmaps` raises part way through, the three maps stay partly filled and nothing is cached.

`lemma(name)` raises `WordNetError` at wordnet.py:160 when a synset is found but does not list the name. A name with no synset-name prefix never reaches that line, because the search loop never ends: see Findings. The model follows the code and also gives the corrected lookup.

## Model

| member | source | states |
|---|---|---|
| Strings.Split | pawn/morphy.py:29 | `str.split(sep)` gives at least one piece and no piece contains the separator |
| Strings.SplitJoin | pawn/morphy.py:29 | joining the pieces of a split with the same separator gives the original string back |
| Strings.JoinSplit | pawn/morphy.py:29 | splitting a join of separator-free pieces gives the pieces back |
| Strings.SplitConcat | pawn/wordnet.py:147-158 | splitting `a.b` on `.` gives the fields of `a` followed by the fields of `b` |
| Strings.JoinConcat | pawn/wordnet.py:152-158 | joining two non-empty field lists puts exactly one separator between the two joins |
| Strings.LexLeqTotal | pawn/load.py:62 | Python's string order compares every two strings |
| Strings.LexLeqTransitive | pawn/load.py:62 | Python's string order is transitive |
| Strings.LexLeqAntisymmetric | pawn/load.py:62 | two strings each `<=` the other are equal |
| Strings.Decimal | pawn/load.py:71 | `str(n)` of a natural number is a non-empty string of decimal digits |
| Sorting.SortPermutes | pawn/load.py:64-66 | `sorted` returns a permutation of its input |
| Sorting.SortSorted | pawn/load.py:64-66 | under a total preorder, `sorted` returns an ordered sequence |
| Sorting.SortStable | pawn/load.py:64 | elements with equal keys keep their input order (Python's sort is stable) |
| Vocabulary.Fields | pawn/load.py:44 | `line.split()` gives non-empty, whitespace-free words |
| Vocabulary.FieldsAtSpace | pawn/load.py:44 | a whitespace character splits the line: the words before it, then the words after it |
| Vocabulary.FieldsOfSingleWord | pawn/load.py:44 | a non-empty run without whitespace is exactly one word, so with `FieldsAtSpace` the words are the maximal non-space runs in order |
| Vocabulary.LoadWordCounts | pawn/load.py:43-45 | the dict comprehension succeeds iff every line is a word and an integer. Otherwise it raises `ValueError`. On success each word maps to the count on its last line |
| Vocabulary.ParseIntText | pawn/load.py:44 | `int(str(n)) == n` for every integer |
| Vocabulary.LineRoundTrip | pawn/load.py:44 | a line `word count` parses back to the pair `(word, count)` |
| SynsetNames.IndexPairsCover | pawn/load.py:55-56 | the pairs visited by the two loops cover exactly the raw ids of the index |
| SynsetNames.InvertedStep | pawn/load.py:57 | one `append` keeps `synset2lemmas` the inversion of the pairs visited so far, with its key order |
| SynsetNames.Invert | pawn/load.py:54-57 | the keys of the inversion are exactly the raw ids. Each list holds that raw id's words in visit order. No key is repeated |
| SynsetNames.InvertWord | pawn/load.py:56-57 | the inner loop over one word's raw ids keeps the inversion |
| SynsetNames.LemmaOrderLexicographic | pawn/load.py:66 | without counts, the member words are a permutation in ascending string order |
| SynsetNames.LemmaOrderByCount | pawn/load.py:64 | with counts, the member words are a permutation ordered by descending count. Equal counts keep insertion order |
| SynsetNames.LemmaOrderMissingCount | pawn/load.py:64 | with counts, the first member word without a count raises `KeyError` for that word |
| SynsetNames.Candidate | pawn/load.py:67-71 | the `index`-th candidate is the stem, a dot and digits. It has exactly two digits below index 100 and grows longer beyond it |
| SynsetNames.CandidateInjective | pawn/load.py:67-71 | different indexes give different candidate names |
| SynsetNames.MintProgress | pawn/load.py:69-71 | `name[:-2] + (index<10)*'0' + str(index)` is the next candidate. Past index 99 the number of longer taken names shrinks, which bounds the loop |
| SynsetNames.Mint | pawn/load.py:67-71 | the collision loop returns the first candidate not yet taken. Every earlier candidate was taken |
| SynsetNames.NameRawId | pawn/load.py:62-74 | naming one raw id raises exactly what the source raises. Otherwise it extends a well-named registry by that raw id |
| SynsetNames.NameNext | pawn/load.py:62-74 | one turn of the loop over sorted raw ids keeps the registry well named and covering the prefix processed |
| SynsetNames.NameAll | pawn/load.py:62-74 | the loop names the sorted raw ids in order and stops at the first that raises, with that exception |
| SynsetNames.SortedIds | pawn/load.py:62 | `sorted` of the distinct raw ids is strictly ascending and has the same elements |
| SynsetNames.StopsWhereLoopStops | pawn/load.py:62-74 | the loop's stopping point is the first failure in string order. The named raw ids are exactly the processed ones |
| SynsetNames.SetSynsetMaps | pawn/load.py:50-74 | the maps are a bijection between raw ids and names. Each name is the least free candidate for its stem when the raw ids are taken in order. Lemma lists are qualified. Processing stops at the first raw id that raises |
| SynsetNames.RegistryExtend | pawn/load.py:72-74 | adding one raw id with the least free candidate keeps the maps a bijection, in order and qualified |
| SynsetNames.CollisionOrder | pawn/load.py:67-71 | of two raw ids sharing a stem, the one that sorts first gets the smaller index |
| SynsetNames.NamesEveryRawId | pawn/load.py:50-74 | when nothing raises, every raw id of the index gets a name and no two raw ids share one |
| SynsetNames.LemmaListShape | pawn/load.py:64-74 | a name's lemma list is the name, a dot and each member word in the sorted order. The name starts with the stem of the top word and the part of speech |
| SynsetNames.PosOfRawId | pawn/load.py:67 | `synset.split('.')[-2]` of `word.pos.nn` is `pos` |
| SynsetNames.CollisionExample | pawn/load.py:62-74 | `chien` indexed under `dog.n.01` and `frump.n.01` with no counts gives `chien.n.01` and `chien.n.02` in that order |
| Morphology.MapChunks | pawn/morphy.py:29 | the analyser is applied to every chunk, in order |
| Morphology.SplitWrapperSingleChunk | pawn/morphy.py:26-30 | on a token without `_` the wrapper is the wrapped function |
| Morphology.SplitWrapperChunks | pawn/morphy.py:26-30 | if the analyser keeps chunks free of `_`, the wrapped result's chunks are the analysed input chunks |
| Morphology.FrenchTableShape | pawn/morphy.py:10-20 | every suffix table holds keys of its own length, between 1 and `_max` (5). No replacement contains `_` |
| Morphology.SingleCharMisses | pawn/morphy.py:36-37 | the single-character lookup never hits a table of length 2 or more |
| Morphology.FrRootOfChunk | pawn/morphy.py:35-40 | the loop over lengths, longest first, returns the first hit or the chunk |
| Morphology.FrRootEffect | pawn/morphy.py:35-40 | chunks shorter than 3 are unchanged. Otherwise a final `é` becomes `er`, a final `s` or `e` is dropped, and anything else is unchanged |
| Morphology.FrMorphyKeepsChunks | pawn/morphy.py:34-40 | `_fr_morphy` keeps the `_`-chunk count and works chunk by chunk |
| Morphology.KeptParsesSpec | pawn/morphy.py:47-48 | a parse survives the filter iff no tag of its method stack is ignored |
| Morphology.FirstFiring | pawn/morphy.py:51-55 | the first kept parse whose own or accumulated score reaches 0.5 |
| Morphology.BestIndex | pawn/morphy.py:57 | the first normal form of maximal total score (`max` keeps the first maximum) |
| Morphology.Accumulate | pawn/morphy.py:49-55 | one kept parse either fires, or the score dict and its key order become the totals over one more parse |
| Morphology.RuRootOfChunk | pawn/morphy.py:45-58 | the loop with early returns and the final argmax computes the specified choice |
| Morphology.Argmax | pawn/morphy.py:57 | the scan over the score dict returns the first maximal entry |
| Morphology.RuChoiceIgnoresTagged | pawn/morphy.py:48 | inserting a parse with an ignored tag anywhere changes nothing |
| Morphology.ChooseFirstFiring | pawn/morphy.py:51-55 | when some kept parse fires, the first one's normal form is returned |
| Morphology.NoFiringTotals | pawn/morphy.py:53-55 | when nothing fires, every accumulated total stays below 0.5 |
| Morphology.ChooseArgmax | pawn/morphy.py:56-57 | otherwise the result is a normal form of maximal total, below 0.5, and the first such in insertion order |
| Morphology.RuChoiceIsCandidate | pawn/morphy.py:45-58 | the result is the chunk itself or the normal form of a kept parse |
| Morphology.RuChoiceNothingKept | pawn/morphy.py:56-58 | when every parse is filtered out, the chunk is returned unchanged |
| Morphology.Morphy.SetTreetagger | pawn/morphy.py:75-81 | a TreeTagger for the language selects it. Otherwise `ImportError` with the object unchanged |
| Morphology.Morphy.SetSnowball | pawn/morphy.py:84-87 | selects the stemmer named by `_langmap`. An unknown language raises `KeyError` with the object unchanged |
| Morphology.Morphy.SetMorphy | pawn/morphy.py:90-94 | selects `_fr_morphy` or `_ru_morphy`. Any other language raises `WordNetError` with the source's message |
| Morphology.Selected | pawn/morphy.py:98-109 | construction succeeds exactly for `auto` with TreeTagger or a custom root-finder, `treetagger` with TreeTagger, `snowball` with a stemmer, or `morphy` with a custom root-finder. `auto` prefers TreeTagger, and the chosen backend serves the requested language |
| Morphology.DefaultAnalyserSelected | pawn/morphy.py:90-94 | the default analyser `'morphy'` always succeeds in French and Russian, with the custom root-finder |
| Morphology.Morphy.Init | pawn/morphy.py:98-109 | the full decision table of `auto`, `treetagger`, `snowball`, `morphy` and unknown analysers, with each error message. The object ends up with exactly the backend `Selected` gives, and fails exactly with its exception |
| Morphology.Analyse | pawn/morphy.py:65-72 | only the Snowball backend fails, with `TypeError`. The French backend keeps the chunk count |
| Session.LangMapCanonical | pawn/load.py:12 | every accepted key selects a supported language code that maps to itself |
| Session.Session.constructor | pawn/load.py:13-18 | the module starts in English with every cache seeded with empty English data |
| Session.Session.Language | pawn/load.py:77-79 | the current language is always one of `en`, `fr`, `ru` |
| Session.Session.LoadWord2Synsets | pawn/load.py:31-35 | a cached language is restored. A miss loads `<lang>_data.json` and caches it. A missing file raises and changes nothing (cache at lines 20-26) |
| Session.Session.LoadWordCounts | pawn/load.py:39-45 | a hit restores `_wordcounts` only. A miss parses `<lang>_vocab.txt`, sets `_words` to its keys and caches it. `FileNotFound` and `ValueError` change nothing |
| Session.Session.BuildSynsetMaps | pawn/load.py:49-74 | a hit restores the maps. A miss builds them as `SetSynsetMaps` states. They are cached only when nothing raised |
| Session.Session.Reload | pawn/load.py:87-90 | the three loaders in turn. Caches only grow, and on success the data are the language's cache entries. The synset maps stay a bijection, and maps built on a miss are built from the loaded index and counts |
| Session.Session.Reanalyse | pawn/load.py:91-92 | `_morphy` becomes a freshly built analyser, namely the backend `Selected` gives for the current language. It stays when construction raises, exactly with `Selected`'s exception |
| Session.Session.SetLanguage | pawn/load.py:82-92 | an unknown key raises `KeyError` with nothing changed. Otherwise the language is the key's code and caches only grow. The same language keeps all data. A change loads the cache entries. Non-English success installs the analyser `Selected` gives. When the language does not change, the call fails exactly when construction does. The synset maps in use are always a bijection between raw ids and display names |
| WordNet.Morphy | pawn/wordnet.py:26-36 | a non-English result is always a key of `_word2synsets`. An indexed token is its own form. A token with a space has none. It fails only when `_morphy` was never assigned (`AttributeError`) or the analyser raises |
| WordNet.MorphyIdempotent | pawn/wordnet.py:29-30 | a dictionary form found by `morphy` is its own dictionary form |
| WordNet.SynsetOverlay.Update | pawn/wordnet.py:45-61 | the first touch records the raw name. Afterwards the display name follows the active language, and a second call in the same language changes nothing |
| WordNet.Synset | pawn/wordnet.py:78-85 | `DUMMY~` names are stripped, minted names are translated and others raise `KeyError`. English passes names through |
| WordNet.SynsetOfDisplayName | pawn/wordnet.py:45-85 | translating the display name the overlay gives a raw id yields that raw id again |
| WordNet.FilterByPos | pawn/wordnet.py:92 | keeps exactly the raw ids whose part of speech occurs in `pos`. Raises `IndexError` iff some raw id has fewer than two fields |
| WordNet.FilterByPosSingle | pawn/wordnet.py:92 | one raw id is kept when its part of speech occurs in `pos`, dropped otherwise, and raises `IndexError` without a part-of-speech field |
| WordNet.FilterByPosConcat | pawn/wordnet.py:92 | filtering a concatenation concatenates the filtered parts, so kept raw ids keep their stored order and repeats |
| WordNet.Synsets | pawn/wordnet.py:88-94 | the result is the filtered raw ids stored under the token's dictionary form. No form, or an empty one, gives `[]`. An exception from `morphy` is passed on |
| WordNet.LemmaStore.GetLemma | pawn/wordnet.py:103-111 | get-or-create. A repeat returns the identical object with the store unchanged. A miss adds only that key, and no stored object moves |
| WordNet.SynsetLemmas | pawn/wordnet.py:115-118 | `synset.lemmas()` gives one cached lemma object per listed name, in list order, keyed by the qualified name. Objects already stored stay in place |
| WordNet.SynsetLemmaNames | pawn/wordnet.py:122-125 | an unknown display name has no lemma names |
| WordNet.SynsetLemmaNamesQualified | pawn/wordnet.py:122-125 | every lemma name of a minted name is that name, a dot and one of its member words |
| WordNet.LemmaCount | pawn/wordnet.py:138-141 | the count is the number of raw ids indexed under the lemma's word. An unindexed word raises `KeyError` |
| WordNet.SynsetsWithinCount | pawn/wordnet.py:138-141 | `synsets(word)` never returns more than the word's count, and returns exactly it when every raw id passes the filter |
| WordNet.FirstKey | pawn/wordnet.py:148-156 | the least prefix length, from 3 on, whose prefix names a synset, or none at all |
| WordNet.LemmaAsWrittenDiverges | pawn/wordnet.py:148-156 | the search loop never ends iff no prefix of three or more dot-fields is a synset name |
| WordNet.LemmaAsWrittenHangs | pawn/wordnet.py:148-156 | a dot-free name that is not a synset name (`lemma('chat')`) never returns |
| WordNet.LemmaLookup | pawn/wordnet.py:144-160 | a hit gives a synset name whose lemma list contains the name. Every failure is `WordNetError('Lemma <name> Not Found')` |
| WordNet.LemmaLookupAgrees | pawn/wordnet.py:144-160 | the corrected lookup returns and raises exactly as the source does whenever the source terminates |
| WordNet.LemmaLookupSplitsName | pawn/wordnet.py:147-158 | a hit cuts the name at one of its dots, or takes it whole |
| WordNet.LemmaOfQualifiedName | pawn/wordnet.py:144-160 | `lemma('n.w')` for a three-field synset name `n` listing `n.w` gives back `n` and `w` |
| WordNet.LemmaNamesRoundTrip | pawn/wordnet.py:144-160 | every lemma name listed for a three-field minted name is found again by `lemma` |
| WordNet.LookupLemma | pawn/wordnet.py:147-160 | the bounded search loop computes the corrected lookup |
| WordNet.Lemma | pawn/wordnet.py:144-160 | lookup failures are returned with the store untouched. Given the bijection, the lemma object carries the synset and lemma name found and is the one cached. Every object already stored stays under its keys |
| WordNet.LemmaTwice | pawn/wordnet.py:103-111 | two `lemma(name)` calls for a name that resolves return the identical cached object |

## Left out

- NLTK itself is not modelled. In English every public function hands its arguments to NLTK, and its answer is a parameter (`english`). `wn.synset(raw)` is modelled as the raw id, so an invalid raw id's `WordNetError` from NLTK is not modelled.
- `_lexical_relation_wrapper` (wordnet.py:129-134) is not modelled. It maps NLTK's `antonyms`/`pertainyms` over the English lemmas and collects `synset().lemmas()` of the results, which is `WordNet.SynsetLemmas` applied to NLTK's answer.
- `WordNet.SynsetLemmas` passes the qualified name (`chien.n.01.chien`) to `_lemma`, while `lemma()` passes the bare word (`chien`, wordnet.py:158). So `synset(n).lemmas()` and `lemma(n + '.chien')` create and cache different objects, and `count()` on an object from `lemmas()` looks up `_word2synsets['chien.n.01.chien']` (wordnet.py:141), which raises `KeyError` unless that qualified name is itself an indexed word (`WordNet.LemmaCount` with the qualified name). The model keeps this behaviour rather than correcting it.
- `lemmas(token, pos)` (wordnet.py:163-169) is not modelled. It assigns `morph = morph(token)`, which makes `morph` local, so every non-English call raises `UnboundLocalError` before doing anything. In English `_english_wrapper` (wordnet.py:19-21) hands the call to NLTK, which is not modelled.
- The English branch of `_lemma_count` is not modelled: it is NLTK's `count`.
- The external analysers are not modelled. TreeTagger, pymorphy2 and the Snowball stemmer are parameters (`Tools`). `_treetagger_morphy`'s tag formatting is the abstract `tagRoot`, and a pymorphy2 parse is a `Parse` value.
- Morphology.RuRootOfChunk: scores are real numbers, so floating-point rounding of the accumulated sums is not modelled.
- File I/O and JSON decoding are not modelled. The decoded files are the `DataFiles` input, and a missing file is `FileNotFound`.
- Globals that are read before the first assignment are modelled only for `_morphy`: reading `data._morphy` then raises `AttributeError`. The data globals (`_word2synsets`, `_wordcounts`, `_words` and the three synset maps) start out empty in the model, where the source leaves them unassigned until a loader or a cache hit assigns them. So the `AttributeError` that `morphy` or `synset` raise after a first `set_language` whose data file is missing is not modelled.
- The monkey-patching of NLTK's `Synset` (wordnet.py:192-203) is reduced to the overlay it installs. The `dir(synset)[0] == '_'` marker is the `touched` flag.
- WordNet.LemmaStore.GetLemma: the linear search over `_lemmas[language][synset_name].items()` is modelled as a key lookup, which finds the same object because the keys are distinct.
- WordNet.LemmaNamesRoundTrip: proved only for synset names with three dot-fields. A top word that itself contains `.` gives a longer name, and a shorter prefix of it could name another synset.
- Default arguments are not modelled. `SetLanguage` always takes the language key and the analyser name (load.py:82 defaults them to `'en'`, fixed when the function is defined, and `'morphy'`), and `Synsets` always takes `pos` (wordnet.py:89 defaults it to `'anrsv'`).
- Vocabulary.ParseInt: accepts only ASCII digits. Python's `int()` also accepts every other Unicode decimal digit (`int('３') == 3`), so a count written in such digits loads in the source but fails with `ValueError` in the model, and `Vocabulary.LoadWordCounts` states its iff for ASCII counts only.
- The generic `_language_cache` decorator is written out in each of the three loaders.
- The `Morphy` object's bound method that becomes `_morphy` is modelled as the selected `Backend` value.

## Findings

| source | as written | input that shows it | evidently intended | confidence | as-written member | corrected member |
|---|---|---|---|---|---|---|
| pawn/wordnet.py:148-156 | `while not success` raises `i` forever. Once `i` passes the field count every prefix is the whole name, so a name with no synset-name prefix never returns | `lemma('chat')` in a French session (no synset is named `chat`) | raise `WordNetError('Lemma chat Not Found')`, as line 160 does for a known synset | not executed | WordNet.LemmaAsWrittenHangs | WordNet.LemmaLookup |
