/**
 * The morphological root-finders of pawn/morphy.py: the `_`-splitting wrapper, the
 * table-driven French root-finder, the Russian parse-selection policy over an
 * analyser's candidate parses, and the choice of analyser made by `Morphy.__init__`.
 */
module Morphology {
  import opened Wrappers
  import opened Strings

  /** `f` applied to each chunk, in order. */
  function MapChunks(f: string -> string, chunks: seq<string>): (r: seq<string>)
    ensures |r| == |chunks|
    ensures forall i | 0 <= i < |chunks| :: r[i] == f(chunks[i])
  {
    seq(|chunks|, i requires 0 <= i < |chunks| => f(chunks[i]))
  }

  /** `_stringsplit_wrapper(f)(s)` (morphy.py:26-30). */
  function SplitWrapper(f: string -> string, s: string): string
  {
    Join(MapChunks(f, Split(s, '_')), '_')
  }

  /** A string without `_` is a single chunk: the wrapper is `f` itself. */
  lemma SplitWrapperSingleChunk(f: string -> string, s: string)
    requires '_' !in s
    ensures SplitWrapper(f, s) == f(s)
  {
    SplitOfSeparatorFree(s, '_');
    assert MapChunks(f, [s]) == [f(s)];
  }

  /**
   * When `f` keeps chunks free of `_`, splitting the wrapper's output gives back exactly
   * `f` of each input chunk: the chunk count is preserved and so is their order.
   */
  lemma SplitWrapperChunks(f: string -> string, s: string)
    requires forall c: string :: '_' !in c ==> '_' !in f(c)
    ensures Split(SplitWrapper(f, s), '_') == MapChunks(f, Split(s, '_'))
  {
    var out := MapChunks(f, Split(s, '_'));
    forall i | 0 <= i < |out| ensures '_' !in out[i] {
      assert '_' !in Split(s, '_')[i];
    }
    JoinSplit(out, '_');
  }

  // ---------------------------------------------------------------- French

  /** `_french_morphology` (morphy.py:10-19): suffix tables keyed by suffix length. */
  const FrenchMorphology: map<nat, map<string, string>> := map[
    1 := map["é" := "er", "s" := "", "e" := ""],
    2 := map["ez" := "er", "ai" := "er", "és" := "er", "ée" := "er", "es" := ""],
    3 := map["ons" := "er", "ent" := "er", "ais" := "er", "ait" := "er", "iez" := "er", "ont" := "er",
             "lle" := "l", "nne" := "n", "sse" := "s"],
    4 := map["ions" := "er", "eons" := "er", "ssez" := "ir", "eaux" := "eau"],
    5 := map["aient" := "er", "ssons" := "ir", "ssent" := "ir"]]

  /** `_max`: the largest suffix length. */
  const FrenchMax: nat := 5

  /** `_french_morphology[length]`: the defaultdict yields an empty table for other lengths. */
  function FrenchTable(length: nat): map<string, string>
  {
    if length in FrenchMorphology then FrenchMorphology[length] else map[]
  }

  /** One table's keys all have the given length and its replacements have no `_`. */
  ghost predicate TableShaped(table: map<string, string>, length: nat)
  {
    forall k | k in table :: |k| == length && '_' !in table[k]
  }

  /** Every table holds suffixes of its own length, between 1 and `_max`, and no replacement has `_`. */
  lemma FrenchTableShape()
    ensures forall length: nat, k | k in FrenchTable(length) :: 1 <= length <= FrenchMax && |k| == length
    ensures forall length: nat, k | k in FrenchTable(length) :: '_' !in FrenchTable(length)[k]
  {
    forall length: nat | true
      ensures TableShaped(FrenchTable(length), length)
      ensures FrenchTable(length) != map[] ==> 1 <= length <= FrenchMax
    {
      if length == 1 { assert TableShaped(FrenchMorphology[1], 1); }
      else if length == 2 { assert TableShaped(FrenchMorphology[2], 2); }
      else if length == 3 { assert TableShaped(FrenchMorphology[3], 3); }
      else if length == 4 { assert TableShaped(FrenchMorphology[4], 4); }
      else if length == 5 { assert TableShaped(FrenchMorphology[5], 5); }
      else { assert length !in FrenchMorphology; }
    }
  }

  /** A one-character key is only ever found in the length-1 table. */
  lemma SingleCharMisses(key: string, length: nat)
    requires |key| == 1 && length >= 2
    ensures key !in FrenchTable(length)
  {
    FrenchTableShape();
  }

  /** The first length tried: `min(len(string)-1, _max) - 1`, or 0 when the range is empty. */
  function FrTop(s: string): (top: nat)
    ensures top < |s| || top == 0
  {
    var m := if |s| - 1 < FrenchMax then |s| - 1 else FrenchMax;
    if m <= 1 then 0 else m - 1
  }

  /** The search from `length` down to 1, looking up the single character `string[-length]`. */
  function FrSearch(s: string, length: nat): string
    requires length < |s| || length == 0
  {
    if length == 0 then s
    else
      var key := [s[|s| - length]];
      if key in FrenchTable(length) then s[..|s| - length] + FrenchTable(length)[key]
      else FrSearch(s, length - 1)
  }

  /** `_fr_morphy` on one chunk. */
  function FrRoot(s: string): string
  {
    FrSearch(s, FrTop(s))
  }

  /** Lines 36-40: the loop over lengths with its early return. */
  method FrRootOfChunk(s: string) returns (r: string)
    ensures r == FrRoot(s)
  {
    var length: nat := FrTop(s);
    while length > 0
      invariant length < |s| || length == 0
      invariant FrSearch(s, length) == FrRoot(s)
    {
      var key := [s[|s| - length]];
      var table := FrenchTable(length);
      if key in table {
        return s[..|s| - length] + table[key];
      }
      length := length - 1;
    }
    return s;
  }

  lemma {:induction false} FrSearchEffect(s: string, length: nat)
    requires length < |s| || length == 0
    ensures FrSearch(s, length) ==
      if length >= 1 && [s[|s| - 1]] in FrenchTable(1) then s[..|s| - 1] + FrenchTable(1)[[s[|s| - 1]]] else s
  {
    if length >= 2 {
      SingleCharMisses([s[|s| - length]], length);
      FrSearchEffect(s, length - 1);
    }
  }

  /**
   * Because only the single character `string[-length]` is looked up, only the length-1
   * entries can match: the root is the chunk with a final `é`, `s` or `e` replaced by
   * `er`, `` or `` when the chunk has at least 3 characters, and the chunk itself otherwise.
   */
  lemma FrRootEffect(s: string)
    ensures |s| < 3 ==> FrRoot(s) == s
    ensures |s| >= 3 && s[|s| - 1] == 'é' ==> FrRoot(s) == s[..|s| - 1] + "er"
    ensures |s| >= 3 && (s[|s| - 1] == 's' || s[|s| - 1] == 'e') ==> FrRoot(s) == s[..|s| - 1]
    ensures |s| >= 3 && s[|s| - 1] !in {'é', 's', 'e'} ==> FrRoot(s) == s
  {
    FrSearchEffect(s, FrTop(s));
    if |s| >= 3 {
      var c := s[|s| - 1];
      assert [c] in FrenchTable(1) <==> c in {'é', 's', 'e'};
    }
  }

  /** `_fr_morphy` on a whole string. */
  function FrMorphy(s: string): string
  {
    SplitWrapper(FrRoot, s)
  }

  /** The French root-finder keeps the `_`-separated chunks: same count, each replaced by its root. */
  lemma FrMorphyKeepsChunks(s: string)
    ensures Split(FrMorphy(s), '_') == MapChunks(FrRoot, Split(s, '_'))
    ensures |Split(FrMorphy(s), '_')| == |Split(s, '_')|
  {
    forall c: string | '_' !in c ensures '_' !in FrRoot(c) {
      FrRootEffect(c);
      if |c| >= 3 {
        assert '_' !in c[..|c| - 1];
        assert '_' !in "er";
      }
    }
    SplitWrapperChunks(FrRoot, s);
  }

  // --------------------------------------------------------------- Russian

  /** One candidate parse from the analyser: its normal form, score and method tags. */
  datatype Parse = Parse(normalForm: string, score: real, methods: seq<string>)

  /** `_methods` (morphy.py:22): the analysers whose parses are ignored. */
  const IgnoredMethods: set<string> :=
    {"<FakeDictionary>", "<HyphenatedWordsAnalyzer>", "<PunctuationAnalyzer>", "<UnknAnalyzer>", "<UnknownSuffixAnalyzer>"}

  /** A parse is kept when no tag of its method stack is ignored (line 48). */
  predicate Kept(p: Parse)
  {
    forall k | 0 <= k < |p.methods| :: p.methods[k] !in IgnoredMethods
  }

  /** The kept parses of `ps`, in order: the only ones the policy looks at. */
  function KeptParses(ps: seq<Parse>): (ks: seq<Parse>)
    ensures |ks| <= |ps|
    ensures forall k | 0 <= k < |ks| :: Kept(ks[k])
  {
    if ps == [] then []
    else
      var p := ps[|ps| - 1];
      KeptParses(ps[..|ps| - 1]) + (if Kept(p) then [p] else [])
  }

  lemma {:induction false} KeptParsesAppend(a: seq<Parse>, b: seq<Parse>)
    ensures KeptParses(a + b) == KeptParses(a) + KeptParses(b)
  {
    if b != [] {
      var n := |b| - 1;
      assert (a + b)[..|a + b| - 1] == a + b[..n];
      KeptParsesAppend(a, b[..n]);
    } else {
      assert a + b == a;
    }
  }

  /** A parse is selected from exactly when it is a kept parse of the analyser's output. */
  lemma {:induction false} KeptParsesSpec(ps: seq<Parse>)
    ensures forall p :: p in KeptParses(ps) <==> p in ps && Kept(p)
  {
    if ps != [] {
      var n := |ps| - 1;
      KeptParsesSpec(ps[..n]);
      assert ps == ps[..n] + [ps[n]];
    }
  }

  /** The score accumulated for `form` over `ks`. */
  function Total(ks: seq<Parse>, form: string): real
  {
    if ks == [] then 0.0
    else
      var p := ks[|ks| - 1];
      Total(ks[..|ks| - 1], form) + (if p.normalForm == form then p.score else 0.0)
  }

  /** The keys of `scores` in insertion order: the distinct normal forms of `ks`. */
  function Forms(ks: seq<Parse>): seq<string>
  {
    if ks == [] then []
    else
      var p := ks[|ks| - 1];
      var init := Forms(ks[..|ks| - 1]);
      if p.normalForm !in init then init + [p.normalForm] else init
  }

  /** The forms are exactly the normal forms occurring in `ks`, each once. */
  lemma {:induction false} FormsSpec(ks: seq<Parse>)
    ensures forall i | 0 <= i < |ks| :: ks[i].normalForm in Forms(ks)
    ensures forall f | f in Forms(ks) :: exists i :: 0 <= i < |ks| && ks[i].normalForm == f
    ensures forall a, b | 0 <= a < b < |Forms(ks)| :: Forms(ks)[a] != Forms(ks)[b]
  {
    if ks != [] {
      var init := ks[..|ks| - 1];
      FormsSpec(init);
      forall f | f in Forms(ks) ensures exists i :: 0 <= i < |ks| && ks[i].normalForm == f {
        if f in Forms(init) {
          var i :| 0 <= i < |init| && init[i].normalForm == f;
          assert ks[i] == init[i];
        } else {
          assert ks[|ks| - 1].normalForm == f;
        }
      }
      forall i | 0 <= i < |ks| ensures ks[i].normalForm in Forms(ks) {
        if i < |init| { assert init[i] == ks[i]; }
      }
    }
  }

  /** Kept parse `i` makes the loop return: it reaches 0.5 alone or accumulated (lines 51-55). */
  predicate Fires(ks: seq<Parse>, i: nat)
    requires i < |ks|
  {
    ks[i].score >= 0.5 || Total(ks[..i + 1], ks[i].normalForm) >= 0.5
  }

  lemma FiresPrefix(ks: seq<Parse>, n: nat, i: nat)
    requires i < n <= |ks|
    ensures Fires(ks[..n], i) == Fires(ks, i)
  {
    assert ks[..n][..i + 1] == ks[..i + 1];
  }

  /** The index of the first kept parse that fires, if any. */
  function FirstFiring(ks: seq<Parse>): (r: Option<nat>)
    ensures r.Some? ==> r.value < |ks| && Fires(ks, r.value)
    ensures r.Some? ==> forall j | 0 <= j < r.value :: !Fires(ks, j)
    ensures r.None? ==> forall j | 0 <= j < |ks| :: !Fires(ks, j)
  {
    if ks == [] then None
    else
      var n := |ks| - 1;
      var init := FirstFiring(ks[..n]);
      FiringPrefix(ks, n, init);
      if init.Some? then init
      else if Fires(ks, n) then Some(n)
      else None
  }

  lemma FiringPrefix(ks: seq<Parse>, n: nat, r: Option<nat>)
    requires n <= |ks|
    requires r.Some? ==> r.value < n && Fires(ks[..n], r.value) && forall j | 0 <= j < r.value :: !Fires(ks[..n], j)
    requires r.None? ==> forall j | 0 <= j < n :: !Fires(ks[..n], j)
    ensures r.Some? ==> r.value < n && Fires(ks, r.value) && forall j | 0 <= j < r.value :: !Fires(ks, j)
    ensures r.None? ==> forall j | 0 <= j < n :: !Fires(ks, j)
  {
    forall j | 0 <= j < n ensures Fires(ks[..n], j) == Fires(ks, j) {
      FiresPrefix(ks, n, j);
    }
  }

  /** The first index of a maximal total among `forms`, as Python's `max` picks it. */
  function BestIndex(forms: seq<string>, ks: seq<Parse>): (b: nat)
    requires |forms| > 0
    ensures b < |forms|
    ensures forall j | 0 <= j < |forms| :: Total(ks, forms[j]) <= Total(ks, forms[b])
    ensures forall j | 0 <= j < b :: Total(ks, forms[j]) < Total(ks, forms[b])
  {
    if |forms| == 1 then 0
    else
      var n := |forms| - 1;
      var b := BestIndex(forms[..n], ks);
      assert forms[..n][b] == forms[b];
      assert forall j | 0 <= j < n :: forms[..n][j] == forms[j];
      if Total(ks, forms[n]) > Total(ks, forms[b]) then n else b
  }

  /** The policy on the kept parses `ks` of chunk `s`. */
  function Choose(ks: seq<Parse>, s: string): string
  {
    match FirstFiring(ks)
    case Some(i) => ks[i].normalForm
    case None =>
      var forms := Forms(ks);
      if forms == [] then s else forms[BestIndex(forms, ks)]
  }

  /** What `_ru_morphy` returns for one chunk `s` given the analyser's parses of it. */
  function RuChoice(ps: seq<Parse>, s: string): string
  {
    Choose(KeptParses(ps), s)
  }

  /** The first firing index is unique: any firing index with nothing firing before it is it. */
  lemma FirstFiringUnique(ks: seq<Parse>, i: nat)
    requires i < |ks| && Fires(ks, i)
    requires forall j | 0 <= j < i :: !Fires(ks, j)
    ensures FirstFiring(ks) == Some(i)
  {
  }

  /** Appending one kept parse to a prefix where nothing fired. */
  lemma FiringStep(ks: seq<Parse>, p: Parse)
    requires FirstFiring(ks).None?
    ensures Fires(ks + [p], |ks|) ==> FirstFiring(ks + [p]) == Some(|ks|)
    ensures !Fires(ks + [p], |ks|) ==> FirstFiring(ks + [p]).None?
  {
    assert (ks + [p])[..|ks|] == ks;
  }

  /** The accumulated scores after appending kept parse `p` (lines 53-54). */
  lemma ScoresStep(ks: seq<Parse>, p: Parse, scores: map<string, real>, order: seq<string>)
    requires order == Forms(ks)
    requires forall f :: f in scores <==> f in order
    requires forall f | f in scores :: scores[f] == Total(ks, f)
    ensures Forms(ks + [p]) == if p.normalForm in scores then order else order + [p.normalForm]
    ensures forall f | f != p.normalForm :: Total(ks + [p], f) == Total(ks, f)
    ensures Total(ks + [p], p.normalForm) == (if p.normalForm in scores then scores[p.normalForm] else 0.0) + p.score
  {
    assert (ks + [p])[..|ks|] == ks;
    if p.normalForm !in scores {
      TotalAbsent(ks, p.normalForm);
    }
  }

  /** A form that is not among the forms has accumulated nothing. */
  lemma {:induction false} TotalAbsent(ks: seq<Parse>, f: string)
    requires f !in Forms(ks)
    ensures Total(ks, f) == 0.0
  {
    if ks != [] {
      var init := ks[..|ks| - 1];
      assert f !in Forms(init);
      TotalAbsent(init, f);
    }
  }

  lemma KeptStep(ps: seq<Parse>, i: nat)
    requires i < |ps|
    ensures Kept(ps[i]) ==> KeptParses(ps[..i + 1]) == KeptParses(ps[..i]) + [ps[i]]
    ensures !Kept(ps[i]) ==> KeptParses(ps[..i + 1]) == KeptParses(ps[..i])
  {
    assert ps[..i + 1][..i] == ps[..i];
    assert KeptParses(ps[..i]) + [] == KeptParses(ps[..i]);
  }

  /** A firing index of a prefix stays the first firing index of any extension. */
  lemma FiringExtends(ks: seq<Parse>, rest: seq<Parse>)
    requires FirstFiring(ks).Some?
    ensures FirstFiring(ks + rest) == FirstFiring(ks)
  {
    var k := FirstFiring(ks).value;
    var all := ks + rest;
    assert all[..|ks|] == ks;
    forall j | 0 <= j <= k ensures Fires(all, j) == Fires(ks, j) {
      FiresPrefix(all, |ks|, j);
    }
    FirstFiringUnique(all, k);
  }

  /** Once the kept parses up to `ps[i]` have fired, the rest of `ps` cannot change the choice. */
  lemma RuChoiceSettled(ps: seq<Parse>, i: nat, s: string)
    requires i < |ps|
    requires FirstFiring(KeptParses(ps[..i + 1])).Some?
    ensures RuChoice(ps, s) == KeptParses(ps[..i + 1])[FirstFiring(KeptParses(ps[..i + 1])).value].normalForm
  {
    assert ps == ps[..i + 1] + ps[i + 1..];
    KeptParsesAppend(ps[..i + 1], ps[i + 1..]);
    FiringExtends(KeptParses(ps[..i + 1]), KeptParses(ps[i + 1..]));
  }

  lemma RuChoiceFires(ps: seq<Parse>, i: nat, ks: seq<Parse>, s: string)
    requires i < |ps| && ks == KeptParses(ps[..i]) && Kept(ps[i])
    requires KeptParses(ps[..i + 1]) == ks + [ps[i]]
    requires FirstFiring(ks + [ps[i]]) == Some(|ks|)
    ensures RuChoice(ps, s) == ps[i].normalForm
  {
    RuChoiceSettled(ps, i, s);
    assert (ks + [ps[i]])[|ks|] == ps[i];
  }

  /**
   * Lines 50-55 for one kept parse `p` after the kept parses `ks`: either `p` fires, or the
   * accumulated scores and their insertion order now describe `ks + [p]`.
   */
  method Accumulate(ghost ks: seq<Parse>, p: Parse, scores: map<string, real>, order: seq<string>)
    returns (fired: bool, scores': map<string, real>, order': seq<string>)
    requires FirstFiring(ks).None?
    requires order == Forms(ks)
    requires forall f :: f in scores <==> f in order
    requires forall f | f in scores :: scores[f] == Total(ks, f)
    ensures fired ==> FirstFiring(ks + [p]) == Some(|ks|)
    ensures !fired ==> FirstFiring(ks + [p]).None?
    ensures !fired ==> order' == Forms(ks + [p])
    ensures !fired ==> forall f :: f in scores' <==> f in order'
    ensures !fired ==> forall f | f in scores' :: scores'[f] == Total(ks + [p], f)
  {
    ScoresStep(ks, p, scores, order);
    FiringStep(ks, p);
    assert (ks + [p])[..|ks| + 1] == ks + [p];
    scores', order' := scores, order;
    if p.score >= 0.5 {
      return true, scores', order';
    }
    var before := if p.normalForm in scores then scores[p.normalForm] else 0.0;
    if p.normalForm !in scores {
      order' := order + [p.normalForm];
    }
    scores' := scores[p.normalForm := before + p.score];
    fired := scores'[p.normalForm] >= 0.5;
  }

  /** `_ru_morphy` on one chunk (lines 45-58): filter, accumulate, return early on a threshold, else argmax. */
  method RuRootOfChunk(ps: seq<Parse>, s: string) returns (r: string)
    ensures r == RuChoice(ps, s)
  {
    var scores: map<string, real> := map[];
    var order: seq<string> := [];
    ghost var ks: seq<Parse> := [];
    var i := 0;
    while i < |ps|
      invariant 0 <= i <= |ps|
      invariant ks == KeptParses(ps[..i])
      invariant FirstFiring(ks).None?
      invariant order == Forms(ks)
      invariant forall f :: f in scores <==> f in order
      invariant forall f | f in scores :: scores[f] == Total(ks, f)
    {
      var p := ps[i];
      KeptStep(ps, i);
      if Kept(p) {
        var fired;
        fired, scores, order := Accumulate(ks, p, scores, order);
        if fired {
          RuChoiceFires(ps, i, ks, s);
          return p.normalForm;
        }
        ks := ks + [p];
      }
      i := i + 1;
    }
    assert ps[..i] == ps;
    if |order| == 0 {
      return s;
    }
    var best := Argmax(order, scores, KeptParses(ps));
    return order[best];
  }

  /** `max(scores.items(), key=itemgetter(1))` (line 57): the first index of a maximal score. */
  method Argmax(order: seq<string>, scores: map<string, real>, ks: seq<Parse>) returns (best: nat)
    requires |order| > 0
    requires forall f | f in order :: f in scores && scores[f] == Total(ks, f)
    ensures best == BestIndex(order, ks)
  {
    best := 0;
    var j := 1;
    while j < |order|
      invariant 1 <= j <= |order|
      invariant best == BestIndex(order[..j], ks)
    {
      assert order[..j + 1][..j] == order[..j];
      assert order[..j][best] == order[best];
      if scores[order[j]] > scores[order[best]] {
        best := j;
      }
      j := j + 1;
    }
    assert order[..j] == order;
  }

  /** `_ru_morphy` on a whole string, given the analyser as a function from chunk to parses. */
  function RuMorphy(analyse: string -> seq<Parse>, s: string): string
  {
    SplitWrapper(c => RuChoice(analyse(c), c), s)
  }

  /** Parses carrying an ignored method tag never influence the result, wherever they occur. */
  lemma RuChoiceIgnoresTagged(a: seq<Parse>, q: Parse, b: seq<Parse>, s: string)
    requires !Kept(q)
    ensures RuChoice(a + [q] + b, s) == RuChoice(a + b, s)
  {
    KeptParsesSkip(a, q, b);
  }

  lemma KeptParsesSkip(a: seq<Parse>, q: Parse, b: seq<Parse>)
    requires !Kept(q)
    ensures KeptParses(a + [q] + b) == KeptParses(a + b)
  {
    KeptParsesAppend(a + [q], b);
    KeptParsesAppend(a, [q]);
    KeptParsesAppend(a, b);
    assert KeptParses([q]) == [] by {
      assert [q][..0] == [];
    }
  }

  /**
   * The first kept parse that reaches the threshold decides: in particular a kept parse of
   * score at least 0.5 when no earlier kept parse fired.
   */
  lemma ChooseFirstFiring(ks: seq<Parse>, s: string, i: nat)
    requires i < |ks| && Fires(ks, i)
    requires forall j | 0 <= j < i :: !Fires(ks, j)
    ensures Choose(ks, s) == ks[i].normalForm
  {
    FirstFiringUnique(ks, i);
  }

  /** Without a threshold reached, every accumulated total stays below 0.5. */
  lemma {:induction false} NoFiringTotals(ks: seq<Parse>, f: string)
    requires FirstFiring(ks).None?
    ensures Total(ks, f) < 0.5
  {
    if ks != [] {
      var n := |ks| - 1;
      var init := ks[..n];
      assert forall j | 0 <= j < n :: !Fires(init, j) by {
        forall j | 0 <= j < n ensures !Fires(init, j) {
          FiresPrefix(ks, n, j);
        }
      }
      NoFiringTotals(init, f);
      assert !Fires(ks, n);
      assert ks[..n + 1] == ks;
    }
  }

  /**
   * Without a threshold reached, the result is a form of maximal accumulated score, the
   * first such in insertion order, and that score is below 0.5.
   */
  lemma ChooseArgmax(ks: seq<Parse>, s: string)
    requires FirstFiring(ks).None? && Forms(ks) != []
    ensures Choose(ks, s) in Forms(ks)
    ensures forall f | f in Forms(ks) :: Total(ks, f) <= Total(ks, Choose(ks, s)) < 0.5
    ensures forall j | 0 <= j < |Forms(ks)| && Forms(ks)[j] == Choose(ks, s) ::
      forall k | 0 <= k < j :: Total(ks, Forms(ks)[k]) < Total(ks, Choose(ks, s))
  {
    var forms := Forms(ks);
    var b := BestIndex(forms, ks);
    FormsSpec(ks);
    NoFiringTotals(ks, forms[b]);
  }

  /** The result is the chunk itself or the normal form of a kept parse. */
  lemma RuChoiceIsCandidate(ps: seq<Parse>, s: string)
    ensures RuChoice(ps, s) == s || exists p :: p in ps && Kept(p) && p.normalForm == RuChoice(ps, s)
  {
    var ks := KeptParses(ps);
    KeptParsesSpec(ps);
    FormsSpec(ks);
    var r := RuChoice(ps, s);
    match FirstFiring(ks)
    case Some(i) =>
      assert ks[i] in ks;
    case None =>
      if Forms(ks) != [] {
        assert r in Forms(ks);
        var i :| 0 <= i < |ks| && ks[i].normalForm == r;
        assert ks[i] in ks;
      }
  }

  /** With no kept parse, the chunk is returned unchanged. */
  lemma RuChoiceNothingKept(ps: seq<Parse>, s: string)
    requires forall p | p in ps :: !Kept(p)
    ensures RuChoice(ps, s) == s
  {
    KeptParsesSpec(ps);
  }

  // ------------------------------------------------------------- selection

  /** The languages with a custom root-finder: `_fr_morphy` and `_ru_morphy`. */
  const CustomLanguages: set<string> := {"fr", "ru"}

  /** `_langmap` (morphy.py:8): the Snowball stemmer name of each language. */
  const SnowballNames: map<string, string> := map["fr" := "french", "ru" := "russian"]

  /** What `self.morphy` is bound to. */
  datatype Backend =
    | TreeTaggerMorphy(tagLanguage: string)
    | SnowballMorphy(stemmerName: string)
    | CustomMorphy(language: string)

  /**
   * The external analysers, seen only through their results: the TreeTagger languages
   * that initialise, TreeTagger's root for a token, and the Russian analyser's parses.
   */
  datatype Tools = Tools(
    treeTagger: set<string>,
    tagRoot: (string, string) -> string,
    parse: string -> seq<Parse>)

  /**
   * The analyser `Morphy(language, analyzer)` ends up with (morphy.py:98-109), or the
   * exception its construction raises: `auto` prefers TreeTagger and falls back to the
   * custom root-finder, an explicit name selects that backend, anything else is refused.
   * A selected backend always serves the requested language.
   */
  function Selected(language: string, analyzer: string, tools: Tools): (r: Result<Backend, Error>)
    ensures r.Success? ==>
      || (r.value == TreeTaggerMorphy(language) && language in tools.treeTagger
          && analyzer in {"auto", "treetagger"})
      || (r.value == CustomMorphy(language) && language in CustomLanguages && analyzer in {"auto", "morphy"})
      || (language in SnowballNames && r.value == SnowballMorphy(SnowballNames[language]) && analyzer == "snowball")
    ensures r.Success? <==>
      || (analyzer == "auto" && language in tools.treeTagger + CustomLanguages)
      || (analyzer == "treetagger" && language in tools.treeTagger)
      || (analyzer == "snowball" && language in SnowballNames)
      || (analyzer == "morphy" && language in CustomLanguages)
    ensures analyzer == "auto" && language in tools.treeTagger ==> r == Success(TreeTaggerMorphy(language))
  {
    if analyzer == "auto" then
      if language in tools.treeTagger then Success(TreeTaggerMorphy(language))
      else if language in CustomLanguages then Success(CustomMorphy(language))
      else Failure(WordNetError("no custom morphology analyzer for " + language + " avaialable"))
    else if analyzer == "treetagger" then
      if language in tools.treeTagger then Success(TreeTaggerMorphy(language)) else Failure(ImportError)
    else if analyzer == "snowball" then
      if language in SnowballNames then Success(SnowballMorphy(SnowballNames[language])) else Failure(KeyError(language))
    else if analyzer == "morphy" then
      if language in CustomLanguages then Success(CustomMorphy(language))
      else Failure(WordNetError("no custom morphology analyzer for " + language + " avaialable"))
    else Failure(WordNetError("no morphology analyzer " + analyzer + "available"))
  }

  /** `set_language`'s default analyser `'morphy'` always succeeds in French and Russian, with the custom root-finder. */
  lemma DefaultAnalyserSelected(language: string, tools: Tools)
    requires language in CustomLanguages
    ensures Selected(language, "morphy", tools) == Success(CustomMorphy(language))
  {
  }

  /** A `Morphy` object: the selected analyser and the tagger or stemmer it uses. */
  class Morphy {
    var morphy: Option<Backend>
    var tagger: Option<string>
    var stemmer: Option<string>

    /** The object before `__init__` has assigned anything. */
    constructor ()
      ensures morphy == None && tagger == None && stemmer == None
    {
      morphy := None;
      tagger := None;
      stemmer := None;
    }

    /** `_set_treetagger` (lines 75-81): a TreeTagger that fails to start becomes `ImportError`. */
    method SetTreetagger(language: string, tools: Tools) returns (err: Option<Error>)
      modifies this
      ensures language in tools.treeTagger ==>
        err == None && tagger == Some(language) && morphy == Some(TreeTaggerMorphy(language)) && stemmer == old(stemmer)
      ensures language !in tools.treeTagger ==> err == Some(ImportError) && unchanged(this)
    {
      if language !in tools.treeTagger {
        return Some(ImportError);
      }
      tagger := Some(language);
      morphy := Some(TreeTaggerMorphy(language));
      return None;
    }

    /** `_set_snowball` (lines 84-87): `_langmap[language]` raises `KeyError` before any change. */
    method SetSnowball(language: string) returns (err: Option<Error>)
      modifies this
      ensures language in SnowballNames ==>
        err == None && stemmer == Some(SnowballNames[language]) && morphy == Some(SnowballMorphy(SnowballNames[language]))
        && tagger == old(tagger)
      ensures language !in SnowballNames ==> err == Some(KeyError(language)) && unchanged(this)
    {
      if language !in SnowballNames {
        return Some(KeyError(language));
      }
      stemmer := Some(SnowballNames[language]);
      morphy := Some(SnowballMorphy(SnowballNames[language]));
      return None;
    }

    /** `_set_morphy` (lines 90-94): only `_fr_morphy` and `_ru_morphy` exist. */
    method SetMorphy(language: string) returns (err: Option<Error>)
      modifies this
      ensures language in CustomLanguages ==>
        err == None && morphy == Some(CustomMorphy(language)) && tagger == old(tagger) && stemmer == old(stemmer)
      ensures language !in CustomLanguages ==>
        err == Some(WordNetError("no custom morphology analyzer for " + language + " avaialable")) && unchanged(this)
    {
      if language !in CustomLanguages {
        return Some(WordNetError("no custom morphology analyzer for " + language + " avaialable"));
      }
      morphy := Some(CustomMorphy(language));
      return None;
    }

    /**
     * `__init__` (lines 98-109): `auto` tries TreeTagger and falls back to the custom
     * root-finder; an explicit name dispatches to `_set_<name>`; anything else is refused.
     * A failure leaves the object as it was.
     */
    method Init(language: string, analyzer: string, tools: Tools) returns (err: Option<Error>)
      modifies this
      ensures err.Some? ==> unchanged(this)
      ensures analyzer == "auto" && language in tools.treeTagger ==>
        err == None && morphy == Some(TreeTaggerMorphy(language))
      ensures analyzer == "auto" && language !in tools.treeTagger && language in CustomLanguages ==>
        err == None && morphy == Some(CustomMorphy(language))
      ensures analyzer == "auto" && language !in tools.treeTagger && language !in CustomLanguages ==>
        err == Some(WordNetError("no custom morphology analyzer for " + language + " avaialable"))
      ensures analyzer == "treetagger" && language in tools.treeTagger ==>
        err == None && morphy == Some(TreeTaggerMorphy(language))
      ensures analyzer == "treetagger" && language !in tools.treeTagger ==> err == Some(ImportError)
      ensures analyzer == "snowball" && language in SnowballNames ==>
        err == None && morphy == Some(SnowballMorphy(SnowballNames[language]))
      ensures analyzer == "snowball" && language !in SnowballNames ==> err == Some(KeyError(language))
      ensures analyzer == "morphy" && language in CustomLanguages ==>
        err == None && morphy == Some(CustomMorphy(language))
      ensures analyzer == "morphy" && language !in CustomLanguages ==>
        err == Some(WordNetError("no custom morphology analyzer for " + language + " avaialable"))
      ensures analyzer !in {"auto", "treetagger", "snowball", "morphy"} ==>
        err == Some(WordNetError("no morphology analyzer " + analyzer + "available"))
      ensures err.None? <==> Selected(language, analyzer, tools).Success?
      ensures err.None? ==> morphy == Some(Selected(language, analyzer, tools).value)
      ensures err.Some? ==> err == Some(Selected(language, analyzer, tools).error)
    {
      if analyzer == "auto" {
        err := SetTreetagger(language, tools);
        if err == Some(ImportError) {
          err := SetMorphy(language);
        }
      } else if analyzer == "treetagger" {
        err := SetTreetagger(language, tools);
      } else if analyzer == "snowball" {
        err := SetSnowball(language);
      } else if analyzer == "morphy" {
        err := SetMorphy(language);
      } else {
        err := Some(WordNetError("no morphology analyzer " + analyzer + "available"));
      }
    }
  }

  /**
   * Calling the selected `morphy` on a token. The Snowball backend fails with `TypeError`:
   * the one-argument `_`-splitting wrapper around a method cannot take the call.
   */
  function Analyse(b: Backend, tools: Tools, token: string): (r: Result<string, Error>)
    ensures r.Failure? <==> b.SnowballMorphy?
    ensures r.Failure? ==> r.error == TypeError
    ensures b == CustomMorphy("fr") ==> r.Success? && |Split(r.value, '_')| == |Split(token, '_')|
  {
    match b
    case TreeTaggerMorphy(l) => Success(tools.tagRoot(l, token))
    case SnowballMorphy(_) => Failure(TypeError)
    case CustomMorphy(l) =>
      if l == "fr" then
        FrMorphyKeepsChunks(token);
        Success(FrMorphy(token))
      else Success(RuMorphy(tools.parse, token))
  }
}
