/**
 * The lookup facade of pawn/wordnet.py for a non-English session: dictionary-form
 * resolution, the display-name overlay on synsets, name translation, the
 * part-of-speech filter, the lemma cache and qualified-lemma lookup. In English every
 * public function hands its arguments to NLTK; that answer is a parameter here.
 */
module WordNet {
  import opened Wrappers
  import opened Strings
  import SynsetNames
  import Morphology

  /** `_dummy` (wordnet.py:12): the prefix of a display name for a raw id without a name. */
  const Dummy: string := "DUMMY~"

  // ----------------------------------------------------------------- morphy

  /**
   * `morphy(token)` (wordnet.py:26-36). `english` is NLTK's answer, `w2s` is
   * `_word2synsets` and `analyser` the `_morphy` global (None while never assigned, so
   * that reading `data._morphy` raises `AttributeError`).
   */
  function Morphy(language: string, english: Option<string>, w2s: map<string, seq<string>>,
                  analyser: Option<Morphology.Backend>, tools: Morphology.Tools, token: string)
    : (r: Result<Option<string>, Error>)
    ensures language != "en" && r.Success? && r.value.Some? ==> r.value.value in w2s
    ensures language != "en" && token in w2s ==> r == Success(Some(token))
    ensures language != "en" && token !in w2s && ' ' in token ==> r == Success(None)
    ensures language != "en" && r.Failure? ==>
      token !in w2s && ' ' !in token && (analyser.None? || analyser.value.SnowballMorphy?)
  {
    if language == "en" then Success(english)
    else if token in w2s then Success(Some(token))
    else if ' ' in token then Success(None)
    else if analyser.None? then Failure(AttributeError("_morphy"))
    else
      match Morphology.Analyse(analyser.value, tools, token)
      case Failure(e) => Failure(e)
      case Success(m) => if m in w2s then Success(Some(m)) else Success(None)
  }

  /** A dictionary form is its own dictionary form. */
  lemma MorphyIdempotent(language: string, english: Option<string>, w2s: map<string, seq<string>>,
                         analyser: Option<Morphology.Backend>, tools: Morphology.Tools, token: string)
    requires language != "en"
    requires Morphy(language, english, w2s, analyser, tools, token).Success?
    requires Morphy(language, english, w2s, analyser, tools, token).value.Some?
    ensures var m := Morphy(language, english, w2s, analyser, tools, token).value.value;
            Morphy(language, english, w2s, analyser, tools, m) == Success(Some(m))
  {
  }

  // --------------------------------------------------------------- overlay

  /** The display name of raw id `raw` in `language`: the raw id in English, else its minted name or the `DUMMY~` fallback. */
  function DisplayName(raw: string, language: string, synset2lang: map<string, string>): string
  {
    if language == "en" then raw
    else if raw in synset2lang then synset2lang[raw]
    else Dummy + raw
  }

  /**
   * The attributes `_synset_update` manages on an NLTK synset: `_name`, `_PWN_name`,
   * `_language` and the `_` marker that says the synset was touched before.
   */
  class SynsetOverlay {
    var name: string
    var pwnName: string
    var language: string
    var touched: bool

    /** A synset as NLTK creates it: named by its raw id, never touched. */
    constructor (raw: string)
      ensures name == raw && !touched
    {
      name := raw;
      pwnName := "";
      language := "";
      touched := false;
    }

    /**
     * `_synset_update` (wordnet.py:45-61). The first touch records the raw name; after
     * that the display name is recomputed from it whenever the active language differs
     * from the one it was computed for, and nothing changes otherwise.
     */
    method Update(active: string, synset2lang: map<string, string>)
      modifies this
      ensures touched && language == active
      ensures pwnName == if old(touched) then old(pwnName) else old(name)
      ensures old(touched) && old(language) == active ==> unchanged(this)
      ensures !(old(touched) && old(language) == active) ==> name == DisplayName(pwnName, active, synset2lang)
    {
      if touched {
        if language != active {
          if active == "en" {
            name := pwnName;
          } else {
            name := if pwnName in synset2lang then synset2lang[pwnName] else Dummy + pwnName;
          }
          language := active;
        }
      } else {
        pwnName := name;
        if active != "en" {
          name := if pwnName in synset2lang then synset2lang[pwnName] else Dummy + pwnName;
        }
        touched := true;
        language := active;
      }
    }
  }

  // ----------------------------------------------------------- translation

  /** `synset(name)` (wordnet.py:78-85): the raw id handed to NLTK's `wn.synset`. */
  function Synset(language: string, synset2pwn: map<string, string>, name: string): (r: Result<string, Error>)
    ensures r.Failure? <==> language != "en" && !StartsWith(name, Dummy) && name !in synset2pwn
    ensures r.Failure? ==> r.error == KeyError(name)
    ensures language == "en" ==> r == Success(name)
    ensures language != "en" && StartsWith(name, Dummy) ==> r.Success? && Dummy + r.value == name
  {
    if language == "en" then Success(name)
    else if |name| >= |Dummy| && name[..|Dummy|] == Dummy then Success(name[|Dummy|..])
    else if name in synset2pwn then Success(synset2pwn[name])
    else Failure(KeyError(name))
  }

  /**
   * Translating a display name gives back its raw id: the overlay and `synset` are
   * inverse, given the bijection built by `_set_synsetmaps` and no minted name that
   * starts with `DUMMY~`.
   */
  lemma SynsetOfDisplayName(language: string, reg: SynsetNames.Registry, raw: string)
    requires SynsetNames.Bijective(reg)
    requires forall s | s in reg.synset2lang :: !StartsWith(reg.synset2lang[s], Dummy)
    ensures Synset(language, reg.synset2pwn, DisplayName(raw, language, reg.synset2lang)) == Success(raw)
  {
    if language != "en" && raw !in reg.synset2lang {
      assert (Dummy + raw)[..|Dummy|] == Dummy;
      assert (Dummy + raw)[|Dummy|..] == raw;
    }
  }

  // ------------------------------------------------------------- synsets

  /** The raw ids of `names` whose part of speech (second-to-last dot field) occurs in `pos`, in order. */
  function FilterByPos(names: seq<string>, pos: string): (r: Result<seq<string>, Error>)
    ensures r.Failure? <==> exists i | 0 <= i < |names| :: SynsetNames.PosOf(names[i]).None?
    ensures r.Failure? ==> r.error == IndexError
    ensures r.Success? ==> |r.value| <= |names|
    ensures r.Success? ==> forall x | x in r.value :: x in names && IsSubstring(SynsetNames.PosOf(x).value, pos)
    ensures r.Success? ==> forall x | x in names && IsSubstring(SynsetNames.PosOf(x).value, pos) :: x in r.value
  {
    if names == [] then Success([])
    else
      var n := |names| - 1;
      var init := FilterByPos(names[..n], pos);
      assert forall i | 0 <= i < n :: names[..n][i] == names[i];
      assert names == names[..n] + [names[n]];
      if init.Failure? then init
      else
        match SynsetNames.PosOf(names[n])
        case None => Failure(IndexError)
        case Some(p) => if IsSubstring(p, pos) then Success(init.value + [names[n]]) else init
  }

  /** The filter of one raw id: dropped, kept, or `IndexError` when it has no part-of-speech field. */
  lemma FilterByPosSingle(x: string, pos: string)
    ensures SynsetNames.PosOf(x).None? ==> FilterByPos([x], pos) == Failure(IndexError)
    ensures SynsetNames.PosOf(x).Some? && IsSubstring(SynsetNames.PosOf(x).value, pos) ==>
      FilterByPos([x], pos) == Success([x])
    ensures SynsetNames.PosOf(x).Some? && !IsSubstring(SynsetNames.PosOf(x).value, pos) ==>
      FilterByPos([x], pos) == Success([])
  {
    assert [x][..0] == [] && [x][0] == x;
    assert FilterByPos([], pos) == Success([]);
    assert [] + [x] == [x];
  }

  /**
   * The filter works raw id by raw id: filtering a concatenation filters each part and
   * concatenates the results, so the kept raw ids keep their stored order and repeats.
   */
  lemma {:induction false} FilterByPosConcat(a: seq<string>, b: seq<string>, pos: string)
    ensures FilterByPos(a + b, pos).Success? <==> FilterByPos(a, pos).Success? && FilterByPos(b, pos).Success?
    ensures FilterByPos(a + b, pos).Success? ==>
      FilterByPos(a + b, pos).value == FilterByPos(a, pos).value + FilterByPos(b, pos).value
    decreases |b|
  {
    if b == [] {
      assert a + b == a;
    } else {
      var n := |b| - 1;
      var b' := b[..n];
      assert b == b' + [b[n]];
      assert (a + b)[..|a + b| - 1] == a + b';
      assert (a + b)[|a + b| - 1] == b[n];
      FilterByPosConcat(a, b', pos);
    }
  }

  /**
   * `synsets(token, pos)` (wordnet.py:88-94): the raw ids of the token's dictionary form
   * that pass the part-of-speech filter, or `[]` when there is no (non-empty) form.
   */
  function Synsets(language: string, english: seq<string>, w2s: map<string, seq<string>>,
                   analyser: Option<Morphology.Backend>, tools: Morphology.Tools, token: string, pos: string)
    : (r: Result<seq<string>, Error>)
    ensures language != "en" && token in w2s && token != "" ==> r == FilterByPos(w2s[token], pos)
    ensures language != "en" && Morphy(language, None, w2s, analyser, tools, token).Failure? ==>
      r == Failure(Morphy(language, None, w2s, analyser, tools, token).error)
    ensures language != "en" && Morphy(language, None, w2s, analyser, tools, token) in {Success(None), Success(Some(""))} ==>
      r == Success([])
    ensures language != "en" && Morphy(language, None, w2s, analyser, tools, token).Success? &&
            Morphy(language, None, w2s, analyser, tools, token).value.Some? &&
            Morphy(language, None, w2s, analyser, tools, token).value.value != "" ==>
      r == FilterByPos(w2s[Morphy(language, None, w2s, analyser, tools, token).value.value], pos)
    ensures language != "en" && r.Success? && r.value != [] ==>
      exists m | m in w2s :: forall x | x in r.value :: x in w2s[m]
  {
    if language == "en" then Success(english)
    else
      match Morphy(language, None, w2s, analyser, tools, token)
      case Failure(e) => Failure(e)
      case Success(morph) =>
        if morph.None? || morph.value == "" then Success([])
        else FilterByPos(w2s[morph.value], pos)
  }

  // --------------------------------------------------------------- lemmas

  /** A `Lemma` object created by `_lemma`: its synset's display name and its own name. */
  class LemmaObject {
    const synsetName: string
    const name: string

    constructor (synsetName: string, name: string)
      ensures this.synsetName == synsetName && this.name == name
    {
      this.synsetName := synsetName;
      this.name := name;
    }
  }

  /** `_lemmas` (wordnet.py:190): language -> synset display name -> lemma name -> object. */
  class LemmaStore {
    var lemmas: map<string, map<string, map<string, LemmaObject>>>

    constructor ()
      ensures lemmas == map[] && Valid()
    {
      lemmas := map[];
    }

    /** Every stored object sits under its own synset name and lemma name. */
    ghost predicate Valid()
      reads this
    {
      forall a, b, c | Find(a, b, c).Some? :: Find(a, b, c).value.synsetName == b && Find(a, b, c).value.name == c
    }

    /** The stored object for a path of keys, if any. */
    function Find(language: string, synsetName: string, name: string): (r: Option<LemmaObject>)
      reads this
      ensures r.Some? <==> language in lemmas && synsetName in lemmas[language] && name in lemmas[language][synsetName]
    {
      if language in lemmas && synsetName in lemmas[language] && name in lemmas[language][synsetName]
      then Some(lemmas[language][synsetName][name])
      else None
    }

    /**
     * `_lemma(name, synset)` (wordnet.py:103-111): get-or-create. A repeated call gives the
     * identical object; a miss creates one and adds exactly that key, and every other
     * stored object stays where it was.
     */
    method GetLemma(language: string, synsetName: string, name: string) returns (l: LemmaObject)
      requires Valid()
      modifies this
      ensures Valid()
      ensures l.synsetName == synsetName && l.name == name
      ensures old(Find(language, synsetName, name)).Some? ==>
        l == old(Find(language, synsetName, name)).value && lemmas == old(lemmas)
      ensures old(Find(language, synsetName, name)).None? ==>
        fresh(l) && l.synsetName == synsetName && l.name == name
      ensures Find(language, synsetName, name) == Some(l)
      ensures forall a, b, c | old(Find(a, b, c)).Some? :: Find(a, b, c) == old(Find(a, b, c))
      ensures forall a, b, c | Find(a, b, c).Some? && (a, b, c) != (language, synsetName, name) ::
        old(Find(a, b, c)) == Find(a, b, c)
    {
      var found := Find(language, synsetName, name);
      if found.Some? {
        return found.value;
      }
      l := new LemmaObject(synsetName, name);
      var bySynset: map<string, map<string, LemmaObject>> := if language in lemmas then lemmas[language] else map[];
      var byName: map<string, LemmaObject> := if synsetName in bySynset then bySynset[synsetName] else map[];
      lemmas := lemmas[language := bySynset[synsetName := byName[name := l]]];
      forall a, b, c | Find(a, b, c).Some? && (a, b, c) != (language, synsetName, name)
        ensures old(Find(a, b, c)) == Find(a, b, c)
      {
      }
    }
  }

  /** `_synset_lemma_names` (wordnet.py:122-125): the qualified lemma names of a display name. */
  function SynsetLemmaNames(language: string, english: seq<string>, synset2lemmas: map<string, seq<string>>,
                            name: string): (r: seq<string>)
    ensures language != "en" && name !in synset2lemmas ==> r == []
  {
    if language == "en" then english
    else if name in synset2lemmas then synset2lemmas[name] else []
  }

  /**
   * `_synset_lemmas` (wordnet.py:115-118), the replacement for `Synset.lemmas()`: one cached
   * `Lemma` object per listed name of the synset's display name `name`. The objects are
   * keyed by the qualified name (`chien.n.01.chien`), not the bare word `lemma()` uses.
   */
  method SynsetLemmas(store: LemmaStore, language: string, english: seq<LemmaObject>,
                      synset2lemmas: map<string, seq<string>>, name: string) returns (r: seq<LemmaObject>)
    requires store.Valid()
    modifies store
    ensures store.Valid()
    ensures language == "en" ==> r == english && unchanged(store)
    ensures language != "en" ==> |r| == |SynsetLemmaNames(language, [], synset2lemmas, name)|
    ensures language != "en" ==> forall i | 0 <= i < |r| ::
      && r[i].synsetName == name && r[i].name == SynsetLemmaNames(language, [], synset2lemmas, name)[i]
      && store.Find(language, name, r[i].name) == Some(r[i])
    ensures forall a, b, c | old(store.Find(a, b, c)).Some? :: store.Find(a, b, c) == old(store.Find(a, b, c))
  {
    if language == "en" {
      return english;
    }
    var names := SynsetLemmaNames(language, [], synset2lemmas, name);
    r := [];
    var i := 0;
    while i < |names|
      invariant 0 <= i <= |names| && |r| == i
      invariant store.Valid()
      invariant forall j | 0 <= j < i ::
        r[j].synsetName == name && r[j].name == names[j] && store.Find(language, name, r[j].name) == Some(r[j])
      invariant forall a, b, c | old(store.Find(a, b, c)).Some? :: store.Find(a, b, c) == old(store.Find(a, b, c))
    {
      var l := store.GetLemma(language, name, names[i]);
      r := r + [l];
      i := i + 1;
    }
  }

  /** Every lemma name of a minted synset name is that name, a dot and a member word. */
  lemma SynsetLemmaNamesQualified(pairs: seq<(string, string)>, counts: map<string, int>,
                                  reg: SynsetNames.Registry, language: string, name: string)
    requires SynsetNames.WellNamed(pairs, counts, reg)
    requires language != "en"
    ensures forall x | x in SynsetLemmaNames(language, [], reg.synset2lemmas, name) ::
      StartsWith(x, name + ".") && x[|name| + 1..] in SynsetNames.Members(pairs, reg.synset2pwn[name])
  {
    if name in reg.synset2lemmas {
      SynsetNames.LemmaListShape(pairs, counts, reg, name);
      var s := reg.synset2pwn[name];
      var words := SynsetNames.SortedMembers(pairs, counts, s);
      forall x | x in reg.synset2lemmas[name]
        ensures StartsWith(x, name + ".") && x[|name| + 1..] in SynsetNames.Members(pairs, s)
      {
        var i :| 0 <= i < |reg.synset2lemmas[name]| && reg.synset2lemmas[name][i] == x;
        assert x == name + "." + words[i];
        assert x[|name| + 1..] == words[i];
        assert words[i] in multiset(words);
      }
    }
  }

  /** The non-English `count()` of a lemma (wordnet.py:138-141): how many raw ids list its word. */
  function LemmaCount(w2s: map<string, seq<string>>, name: string): (r: Result<nat, Error>)
    ensures r.Failure? <==> name !in w2s
    ensures r.Failure? ==> r.error == KeyError(name)
  {
    if name in w2s then Success(|w2s[name]|) else Failure(KeyError(name))
  }

  /**
   * A word's count bounds what `synsets` can return for it, and equals it when the
   * part-of-speech filter lets every raw id through.
   */
  lemma SynsetsWithinCount(language: string, w2s: map<string, seq<string>>, analyser: Option<Morphology.Backend>,
                           tools: Morphology.Tools, word: string, pos: string)
    requires language != "en" && word in w2s && word != ""
    requires Synsets(language, [], w2s, analyser, tools, word, pos).Success?
    ensures |Synsets(language, [], w2s, analyser, tools, word, pos).value| <= LemmaCount(w2s, word).value
    ensures (forall x | x in w2s[word] :: IsSubstring(SynsetNames.PosOf(x).value, pos)) ==>
      |Synsets(language, [], w2s, analyser, tools, word, pos).value| == LemmaCount(w2s, word).value
  {
    var names := w2s[word];
    if forall x | x in names :: IsSubstring(SynsetNames.PosOf(x).value, pos) {
      FilterKeepsAll(names, pos);
    }
  }

  lemma {:induction false} FilterKeepsAll(names: seq<string>, pos: string)
    requires FilterByPos(names, pos).Success?
    requires forall x | x in names :: IsSubstring(SynsetNames.PosOf(x).value, pos)
    ensures FilterByPos(names, pos).value == names
  {
    if names != [] {
      var n := |names| - 1;
      assert names == names[..n] + [names[n]];
      assert FilterByPos(names[..n], pos).Success?;
      FilterKeepsAll(names[..n], pos);
    }
  }

  // --------------------------------------------------------- lemma lookup

  /** `'.'.join(chunks[:i])`: the first `i` dot-fields of a name (all of them when `i` runs past the end). */
  function Prefix(chunks: seq<string>, i: nat): string
  {
    Join(chunks[..if i <= |chunks| then i else |chunks|], '.')
  }

  /** `'.'.join(chunks[i:])`: the dot-fields after the first `i`. */
  function Rest(chunks: seq<string>, i: nat): string
  {
    Join(chunks[if i <= |chunks| then i else |chunks|..], '.')
  }

  /** The last prefix length that can still differ from the one before: past it every prefix is the whole name. */
  function Bound(chunks: seq<string>): nat
  {
    if |chunks| > 3 then |chunks| else 3
  }

  lemma PrefixSaturates(chunks: seq<string>, j: nat)
    requires j >= Bound(chunks)
    ensures Prefix(chunks, j) == Prefix(chunks, Bound(chunks))
  {
  }

  /** The smallest prefix length from `i` on (up to `Bound`) that names a synset, if any. */
  function FirstKey(synset2lemmas: map<string, seq<string>>, chunks: seq<string>, i: nat): (r: Option<nat>)
    requires 3 <= i <= Bound(chunks)
    decreases Bound(chunks) - i
    ensures r.Some? ==> i <= r.value <= Bound(chunks) && Prefix(chunks, r.value) in synset2lemmas
    ensures r.Some? ==> forall j | i <= j < r.value :: Prefix(chunks, j) !in synset2lemmas
    ensures r.None? ==> forall j | i <= j :: Prefix(chunks, j) !in synset2lemmas
  {
    if Prefix(chunks, i) in synset2lemmas then Some(i)
    else if i == Bound(chunks) then
      assert forall j | i <= j :: Prefix(chunks, j) == Prefix(chunks, i) by {
        forall j | i <= j ensures Prefix(chunks, j) == Prefix(chunks, i) {
          PrefixSaturates(chunks, j);
        }
      }
      None
    else FirstKey(synset2lemmas, chunks, i + 1)
  }

  /** How a call of `lemma(name)` ends: a lemma is built, an exception is raised, or it never returns. */
  datatype LemmaOutcome = Returns(synsetName: string, lemmaName: string) | Throws(error: Error) | Diverges

  /**
   * `lemma(name)` (wordnet.py:144-160) as written, for a non-English session: the
   * search loop only exits when some prefix of at least three dot-fields names a
   * synset, so an unknown synset name never returns.
   */
  function LemmaAsWritten(synset2lemmas: map<string, seq<string>>, name: string): LemmaOutcome
  {
    var chunks := Split(name, '.');
    match FirstKey(synset2lemmas, chunks, 3)
    case None => Diverges
    case Some(i) =>
      var synsetName := Prefix(chunks, i);
      if name in synset2lemmas[synsetName] then Returns(synsetName, Rest(chunks, i))
      else Throws(WordNetError("Lemma " + name + " Not Found"))
  }

  /** The as-written search diverges exactly when no prefix of three or more dot-fields is a synset name. */
  lemma LemmaAsWrittenDiverges(synset2lemmas: map<string, seq<string>>, name: string)
    ensures LemmaAsWritten(synset2lemmas, name).Diverges? <==>
      forall j | j >= 3 :: Prefix(Split(name, '.'), j) !in synset2lemmas
  {
    var chunks := Split(name, '.');
    var k := FirstKey(synset2lemmas, chunks, 3);
    if k.Some? {
      assert LemmaAsWritten(synset2lemmas, name) != Diverges;
      var j: nat := k.value;
      assert j >= 3 && Prefix(Split(name, '.'), j) in synset2lemmas;
    } else {
      assert LemmaAsWritten(synset2lemmas, name) == Diverges;
    }
  }

  /** A plain word that is not itself a synset name (`lemma('chat')`) makes the as-written search hang. */
  lemma LemmaAsWrittenHangs(synset2lemmas: map<string, seq<string>>, name: string)
    requires '.' !in name && name !in synset2lemmas
    ensures LemmaAsWritten(synset2lemmas, name) == Diverges
  {
    SplitOfSeparatorFree(name, '.');
    forall j: nat | j >= 3 ensures Prefix(Split(name, '.'), j) !in synset2lemmas {
      assert Split(name, '.')[..1] == [name];
    }
    LemmaAsWrittenDiverges(synset2lemmas, name);
  }

  /**
   * `lemma(name)` as intended: the search stops once the prefixes stop changing, and a
   * name whose synset is unknown raises the same `WordNetError` as a name missing from
   * its synset's lemma list. Success gives the synset display name and the lemma name.
   */
  function LemmaLookup(synset2lemmas: map<string, seq<string>>, name: string): (r: Result<(string, string), Error>)
    ensures r.Failure? ==> r.error == WordNetError("Lemma " + name + " Not Found")
    ensures r.Success? ==> r.value.0 in synset2lemmas && name in synset2lemmas[r.value.0]
  {
    match LemmaAsWritten(synset2lemmas, name)
    case Returns(synsetName, lemmaName) => Success((synsetName, lemmaName))
    case Throws(e) => Failure(e)
    case Diverges => Failure(WordNetError("Lemma " + name + " Not Found"))
  }

  /** The corrected lookup agrees with the source on every call that returns or raises. */
  lemma LemmaLookupAgrees(synset2lemmas: map<string, seq<string>>, name: string)
    ensures LemmaAsWritten(synset2lemmas, name).Returns? <==> LemmaLookup(synset2lemmas, name).Success?
    ensures LemmaAsWritten(synset2lemmas, name).Returns? ==>
      LemmaLookup(synset2lemmas, name).value ==
      (LemmaAsWritten(synset2lemmas, name).synsetName, LemmaAsWritten(synset2lemmas, name).lemmaName)
    ensures LemmaAsWritten(synset2lemmas, name).Throws? ==>
      LemmaLookup(synset2lemmas, name) == Failure(LemmaAsWritten(synset2lemmas, name).error)
  {
  }

  /** A successful lookup cuts the name at one of its dots (or takes it whole). */
  lemma LemmaLookupSplitsName(synset2lemmas: map<string, seq<string>>, name: string)
    requires LemmaLookup(synset2lemmas, name).Success?
    ensures var (synsetName, lemmaName) := LemmaLookup(synset2lemmas, name).value;
      name == synsetName || name == synsetName + "." + lemmaName
  {
    var chunks := Split(name, '.');
    var i := FirstKey(synset2lemmas, chunks, 3).value;
    SplitJoin(name, '.');
    if i < |chunks| {
      assert chunks == chunks[..i] + chunks[i..];
      JoinConcat(chunks[..i], chunks[i..], '.');
    } else {
      assert chunks[..|chunks|] == chunks;
    }
  }

  /**
   * Looking up `n.w` for a three-field synset name `n` whose lemma list holds `n.w`
   * gives back `n` and `w`: the lookup inverts the qualification of lemma names.
   */
  lemma LemmaOfQualifiedName(synset2lemmas: map<string, seq<string>>, n: string, w: string)
    requires n in synset2lemmas && |Split(n, '.')| == 3
    requires n + "." + w in synset2lemmas[n]
    ensures LemmaLookup(synset2lemmas, n + "." + w) == Success((n, w))
  {
    var chunks := Split(n + "." + w, '.');
    SplitConcat(n, w, '.');
    assert chunks[..3] == Split(n, '.');
    assert chunks[3..] == Split(w, '.');
    SplitJoin(n, '.');
    SplitJoin(w, '.');
    assert Prefix(chunks, 3) == n;
  }

  /** Every lemma name listed for a three-field minted synset name is found again by `lemma`. */
  lemma LemmaNamesRoundTrip(pairs: seq<(string, string)>, counts: map<string, int>,
                            reg: SynsetNames.Registry, n: string, x: string)
    requires SynsetNames.WellNamed(pairs, counts, reg)
    requires n in reg.synset2lemmas && |Split(n, '.')| == 3
    requires x in reg.synset2lemmas[n]
    ensures LemmaLookup(reg.synset2lemmas, x) == Success((n, x[|n| + 1..]))
  {
    SynsetLemmaNamesQualified(pairs, counts, reg, "fr", n);
    assert x == n + "." + x[|n| + 1..];
    LemmaOfQualifiedName(reg.synset2lemmas, n, x[|n| + 1..]);
  }

  /** The search loop of `lemma`, stopped once the prefixes stop changing. */
  method LookupLemma(synset2lemmas: map<string, seq<string>>, name: string) returns (r: Result<(string, string), Error>)
    ensures r == LemmaLookup(synset2lemmas, name)
  {
    var chunks := Split(name, '.');
    var i: nat := 3;
    while Prefix(chunks, i) !in synset2lemmas && i < Bound(chunks)
      invariant 3 <= i <= Bound(chunks)
      invariant forall j | 3 <= j < i :: Prefix(chunks, j) !in synset2lemmas
      decreases Bound(chunks) - i
    {
      i := i + 1;
    }
    var synsetName := Prefix(chunks, i);
    if synsetName !in synset2lemmas {
      r := Failure(WordNetError("Lemma " + name + " Not Found"));
    } else if name in synset2lemmas[synsetName] {
      r := Success((synsetName, Rest(chunks, i)));
    } else {
      r := Failure(WordNetError("Lemma " + name + " Not Found"));
    }
  }

  /**
   * `lemma(name)` end to end: look the name up, translate the synset name to its raw id
   * (`synset`), let the overlay rename the NLTK synset, and get-or-create the `Lemma`
   * object. In English the call goes to NLTK, whose answer is `english`.
   */
  method Lemma(store: LemmaStore, language: string, reg: SynsetNames.Registry, name: string,
               english: Result<LemmaObject, Error>) returns (r: Result<LemmaObject, Error>)
    requires store.Valid()
    modifies store
    ensures store.Valid()
    ensures language == "en" ==> r == english && unchanged(store)
    ensures language != "en" && LemmaLookup(reg.synset2lemmas, name).Failure? ==>
      r == Failure(LemmaLookup(reg.synset2lemmas, name).error) && unchanged(store)
    ensures language != "en" && LemmaLookup(reg.synset2lemmas, name).Success? &&
            SynsetNames.Bijective(reg) && !StartsWith(LemmaLookup(reg.synset2lemmas, name).value.0, Dummy) ==>
      && r.Success?
      && r.value.synsetName == LemmaLookup(reg.synset2lemmas, name).value.0
      && r.value.name == LemmaLookup(reg.synset2lemmas, name).value.1
      && store.Find(language, r.value.synsetName, r.value.name) == Some(r.value)
    ensures forall a, b, c | old(store.Find(a, b, c)).Some? :: store.Find(a, b, c) == old(store.Find(a, b, c))
  {
    if language == "en" {
      return english;
    }
    var found := LookupLemma(reg.synset2lemmas, name);
    if found.Failure? {
      return Failure(found.error);
    }
    var (synsetName, lemmaName) := found.value;
    var raw := Synset(language, reg.synset2pwn, synsetName);
    if SynsetNames.Bijective(reg) && !StartsWith(synsetName, Dummy) {
      assert synsetName in reg.synset2pwn;
      assert raw == Success(reg.synset2pwn[synsetName]);
      assert DisplayName(raw.value, language, reg.synset2lang) == synsetName;
    }
    if raw.Failure? {
      return Failure(raw.error);
    }
    var display := DisplayName(raw.value, language, reg.synset2lang);
    var l := store.GetLemma(language, display, lemmaName);
    r := Success(l);
  }

  /**
   * The point of the `_lemmas` cache: asking twice for the same lemma gives the identical
   * object, and the second call adds nothing to the store.
   */
  method LemmaTwice(store: LemmaStore, language: string, reg: SynsetNames.Registry, name: string,
                    english: Result<LemmaObject, Error>) returns (r1: Result<LemmaObject, Error>, r2: Result<LemmaObject, Error>)
    requires store.Valid()
    requires language != "en" && SynsetNames.Bijective(reg)
    requires LemmaLookup(reg.synset2lemmas, name).Success? && !StartsWith(LemmaLookup(reg.synset2lemmas, name).value.0, Dummy)
    modifies store
    ensures store.Valid()
    ensures r1.Success? && r2.Success? && r1.value == r2.value
  {
    r1 := Lemma(store, language, reg, name, english);
    r2 := Lemma(store, language, reg, name, english);
  }
}
