/**
 * The language session of pawn/load.py: the `_language` setting, the per-language caches
 * that `_language_cache` wraps around the three loaders, and `set_language`/`language`.
 * Module globals are the fields of one `Session` object.
 */
module Session {
  import opened Wrappers
  import Vocabulary
  import SynsetNames
  import Morphology

  /** `_langmap` (load.py:12): accepted language keys and the language each selects. */
  const LangMap: map<string, string> :=
    map["en" := "en", "english" := "en", "fr" := "fr", "french" := "fr", "ru" := "ru", "russian" := "ru"]

  /** The languages a session can be in. */
  const Languages: set<string> := {"en", "fr", "ru"}

  /** `_datapath` (load.py:11). */
  const DataPath: string := "./pawn/data/"

  /**
   * The data files, already decoded: the `<lang>_data.json` index and the lines of
   * `<lang>_vocab.txt` of each language. A language missing from a map is a file that
   * cannot be opened.
   */
  datatype DataFiles = DataFiles(indexes: map<string, SynsetNames.WordIndex>, vocabularies: map<string, seq<string>>)
  {
    /** A decoded JSON object has distinct keys. */
    ghost predicate Valid()
    {
      forall l | l in indexes :: indexes[l].Valid()
    }
  }

  /** The seed of every cache: English maps every cached name to an empty dict (load.py:18). */
  const EmptyIndex: SynsetNames.WordIndex := SynsetNames.WordIndex([], map[])
  const EmptyRegistry: SynsetNames.Registry := SynsetNames.Registry(map[], map[], map[])

  /** Every language a key of `_langmap` selects is itself a key selecting that language. */
  lemma LangMapCanonical(key: string)
    requires key in LangMap
    ensures LangMap[key] in Languages && LangMap[key] in LangMap && LangMap[LangMap[key]] == LangMap[key]
  {
    assert LangMap.Keys == {"en", "english", "fr", "french", "ru", "russian"};
  }

  /** `b` keeps every entry of `a`: cache entries are never removed or replaced. */
  ghost predicate Extends<V>(a: map<string, V>, b: map<string, V>)
  {
    a.Keys <= b.Keys && forall l | l in a :: b[l] == a[l]
  }

  /** The globals of pawn.load, and the three caches of `_language_cache`. */
  class Session {
    var language: string
    var word2synsets: SynsetNames.WordIndex
    var wordcounts: map<string, int>
    var words: set<string>
    var registry: SynsetNames.Registry
    /** The `Morphy` object whose `morphy` is the global `_morphy`; null while never assigned. */
    var analyser: Morphology.Morphy?
    var indexCache: map<string, SynsetNames.WordIndex>
    var countsCache: map<string, map<string, int>>
    var registryCache: map<string, SynsetNames.Registry>

    /**
     * The caches hold only session languages, still have their English seed, and hold
     * valid indexes, as does the current index. The synset maps in use and every cached
     * set of them are a bijection between raw ids and display names.
     */
    ghost predicate Valid()
      reads this
    {
      && language in Languages
      && word2synsets.Valid()
      && (forall l | l in indexCache :: indexCache[l].Valid())
      && indexCache.Keys <= Languages && countsCache.Keys <= Languages && registryCache.Keys <= Languages
      && "en" in indexCache && indexCache["en"] == EmptyIndex
      && "en" in countsCache && countsCache["en"] == map[]
      && "en" in registryCache && registryCache["en"] == EmptyRegistry
      && SynsetNames.Bijective(registry)
      && (forall l | l in registryCache :: SynsetNames.Bijective(registryCache[l]))
    }

    /** The module as imported: English, with the caches seeded (load.py:13,18). */
    constructor ()
      ensures Valid() && language == "en" && analyser == null
      ensures indexCache == map["en" := EmptyIndex] && countsCache == map["en" := map[]]
      ensures registryCache == map["en" := EmptyRegistry]
    {
      language := "en";
      word2synsets := EmptyIndex;
      wordcounts := map[];
      words := {};
      registry := EmptyRegistry;
      analyser := null;
      indexCache := map["en" := EmptyIndex];
      countsCache := map["en" := map[]];
      registryCache := map["en" := EmptyRegistry];
    }

    /** `language()` (load.py:77-79). */
    function Language(): (l: string)
      reads this
      requires Valid()
      ensures l in Languages
      ensures l in LangMap && LangMap[l] == l
    {
      LangMapCanonical(language);
      language
    }

    /**
     * `_load_word2synsets` behind its cache (load.py:20-26,31-35): a cached language is
     * restored without reading the file; otherwise the file is read and its index cached.
     */
    method LoadWord2Synsets(files: DataFiles) returns (err: Option<Error>)
      requires Valid() && files.Valid()
      modifies this
      ensures Valid()
      ensures unchanged(this`language, this`wordcounts, this`words, this`registry, this`analyser)
      ensures unchanged(this`countsCache, this`registryCache)
      ensures old(language in indexCache) ==>
        err == None && word2synsets == old(indexCache[language]) && indexCache == old(indexCache)
      ensures old(language !in indexCache) && language in files.indexes ==>
        err == None && word2synsets == files.indexes[language]
        && indexCache == old(indexCache)[language := files.indexes[language]]
      ensures old(language !in indexCache) && language !in files.indexes ==>
        err == Some(FileNotFound(DataPath + language + "_data.json"))
        && word2synsets == old(word2synsets) && indexCache == old(indexCache)
    {
      if language in indexCache {
        word2synsets := indexCache[language];
        return None;
      }
      if language !in files.indexes {
        return Some(FileNotFound(DataPath + language + "_data.json"));
      }
      word2synsets := files.indexes[language];
      indexCache := indexCache[language := word2synsets];
      return None;
    }

    /**
     * `_load_wordcounts` behind its cache (load.py:20-26,39-45). Only `_wordcounts` is
     * cached: on a cache hit `_words` keeps the value of the last language read from file.
     * A line that does not parse fails with ValueError and changes nothing.
     */
    method LoadWordCounts(files: DataFiles) returns (err: Option<Error>)
      requires Valid()
      modifies this
      ensures Valid()
      ensures unchanged(this`language, this`word2synsets, this`registry, this`analyser)
      ensures unchanged(this`indexCache, this`registryCache)
      ensures old(language in countsCache) ==>
        err == None && wordcounts == old(countsCache[language]) && words == old(words) && countsCache == old(countsCache)
      ensures old(language !in countsCache) && language !in files.vocabularies ==>
        err == Some(FileNotFound(DataPath + language + "_vocab.txt"))
        && unchanged(this`wordcounts, this`words, this`countsCache)
      ensures old(language !in countsCache) && language in files.vocabularies && err.Some? ==>
        err == Some(ValueError) && !Vocabulary.AllParse(files.vocabularies[language])
        && unchanged(this`wordcounts, this`words, this`countsCache)
      ensures old(language !in countsCache) && language in files.vocabularies && err.None? ==>
        Vocabulary.AllParse(files.vocabularies[language])
        && Vocabulary.LastCounts(files.vocabularies[language], wordcounts) && words == wordcounts.Keys
        && countsCache == old(countsCache)[language := wordcounts]
    {
      if language in countsCache {
        wordcounts := countsCache[language];
        return None;
      }
      if language !in files.vocabularies {
        return Some(FileNotFound(DataPath + language + "_vocab.txt"));
      }
      var r := Vocabulary.LoadWordCounts(files.vocabularies[language]);
      if r.Failure? {
        return Some(r.error);
      }
      wordcounts := r.value;
      words := r.value.Keys;
      countsCache := countsCache[language := wordcounts];
      return None;
    }

    /**
     * `_set_synsetmaps` behind its cache (load.py:20-26,49-74). On a miss the registry is
     * rebuilt from the current index and counts; a `KeyError` leaves the partly filled maps
     * in place and caches nothing.
     */
    method BuildSynsetMaps() returns (err: Option<Error>)
      requires Valid()
      modifies this
      ensures Valid()
      ensures unchanged(this`language, this`word2synsets, this`wordcounts, this`words, this`analyser)
      ensures unchanged(this`indexCache, this`countsCache)
      ensures old(language in registryCache) ==>
        err == None && registry == old(registryCache[language]) && registryCache == old(registryCache)
      ensures old(language !in registryCache) ==> SynsetNames.Built(word2synsets, wordcounts, registry, err)
      ensures old(language !in registryCache) && err.None? ==> registryCache == old(registryCache)[language := registry]
      ensures old(language !in registryCache) && err.Some? ==> registryCache == old(registryCache)
    {
      if language in registryCache {
        registry := registryCache[language];
        return None;
      }
      var reg, e := SynsetNames.SetSynsetMaps(word2synsets, wordcounts);
      registry := reg;
      if e.None? {
        registryCache := registryCache[language := reg];
      }
      return e;
    }

    /**
     * Lines 87-90 once `_language` has changed: the three loaders in turn, stopping at the
     * first exception. On success the data globals are the cache entries of the language.
     */
    method Reload(files: DataFiles) returns (err: Option<Error>)
      requires Valid() && files.Valid()
      modifies this
      ensures Valid()
      ensures unchanged(this`language, this`analyser)
      ensures Extends(old(indexCache), indexCache) && Extends(old(countsCache), countsCache)
      ensures Extends(old(registryCache), registryCache)
      ensures err.None? ==>
        && language in indexCache && word2synsets == indexCache[language]
        && language in countsCache && wordcounts == countsCache[language]
        && language in registryCache && registry == registryCache[language]
      ensures SynsetNames.Bijective(registry)
      ensures old(language !in registryCache) && err.None? ==>
        SynsetNames.Built(word2synsets, wordcounts, registry, None)
    {
      err := LoadWord2Synsets(files);
      if err.Some? {
        return;
      }
      err := LoadWordCounts(files);
      if err.Some? {
        return;
      }
      err := BuildSynsetMaps();
    }

    /**
     * Line 92: a new `Morphy` for the current language; `_morphy` is replaced only when
     * its construction succeeds.
     */
    method Reanalyse(analyzer: string, tools: Morphology.Tools) returns (err: Option<Error>)
      requires Valid()
      modifies this
      ensures Valid()
      ensures unchanged(this`language, this`word2synsets, this`wordcounts, this`words, this`registry)
      ensures unchanged(this`indexCache, this`countsCache, this`registryCache)
      ensures err.None? ==> analyser != null && fresh(analyser) && analyser.morphy.Some?
      ensures err.Some? ==> analyser == old(analyser)
      ensures err.None? <==> Morphology.Selected(language, analyzer, tools).Success?
      ensures err.None? ==> analyser.morphy == Some(Morphology.Selected(language, analyzer, tools).value)
      ensures err.Some? ==> err == Some(Morphology.Selected(language, analyzer, tools).error)
    {
      var m := new Morphology.Morphy();
      err := m.Init(language, analyzer, tools);
      if err.None? {
        analyser := m;
      }
    }

    /**
     * `set_language` (load.py:82-92). An unknown key raises `KeyError` before any change.
     * The loaders run only when the selected language differs from the current one, and
     * `_language` is updated before they run, so a failing loader leaves the new language
     * with the data that was loaded so far. Any non-English result gets a new analyser.
     */
    method SetLanguage(key: string, analyzer: string, files: DataFiles, tools: Morphology.Tools)
      returns (err: Option<Error>)
      requires Valid() && files.Valid()
      modifies this
      ensures Valid()
      ensures key !in LangMap ==> err == Some(KeyError(key)) && unchanged(this)
      ensures key in LangMap ==> language == LangMap[key]
      ensures Extends(old(indexCache), indexCache) && Extends(old(countsCache), countsCache)
      ensures Extends(old(registryCache), registryCache)
      ensures key in LangMap && old(language) == LangMap[key] ==>
        unchanged(this`word2synsets, this`wordcounts, this`words, this`registry)
        && unchanged(this`indexCache, this`countsCache, this`registryCache)
      ensures key in LangMap && old(language) != LangMap[key] && err.None? ==>
        && language in indexCache && word2synsets == indexCache[language]
        && language in countsCache && wordcounts == countsCache[language]
        && language in registryCache && registry == registryCache[language]
      ensures key in LangMap && err.None? && language != "en" ==>
        analyser != null && fresh(analyser) && analyser.morphy.Some?
      ensures analyser == old(analyser) || (analyser != null && fresh(analyser))
      ensures language == "en" ==> analyser == old(analyser)
      ensures SynsetNames.Bijective(registry)
      ensures key in LangMap && old(language) == LangMap[key] && language != "en" ==>
        && (err.None? <==> Morphology.Selected(language, analyzer, tools).Success?)
        && (err.Some? ==> err == Some(Morphology.Selected(language, analyzer, tools).error))
      ensures key in LangMap && err.None? && language != "en" ==>
        && Morphology.Selected(language, analyzer, tools).Success?
        && analyser != null && analyser.morphy == Some(Morphology.Selected(language, analyzer, tools).value)
    {
      if key !in LangMap {
        return Some(KeyError(key));
      }
      LangMapCanonical(key);
      var target := LangMap[key];
      err := None;
      if language != target {
        language := target;
        err := Reload(files);
        if err.Some? {
          return;
        }
      }
      if language != "en" {
        err := Reanalyse(analyzer, tools);
      }
    }
  }
}
