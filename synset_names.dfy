/**
 * The synset-name registry built by `_set_synsetmaps` (pawn/load.py:50-74).
 *
 * The word index `_word2synsets` (word -> raw WordNet synset ids) is inverted into
 * raw id -> member words; the raw ids are then processed in ascending string order,
 * each getting the canonical name `<top lemma>.<pos>.<NN>` with the smallest free
 * index, and the qualified lemma list `<name>.<word>` for every member word.
 */
module SynsetNames {
  import opened Wrappers
  import opened Strings
  import opened Sorting

  /** `_word2synsets` as loaded from JSON: its keys in file order, and the dict itself. */
  datatype WordIndex = WordIndex(words: seq<string>, synsets: map<string, seq<string>>)
  {
    /** What a JSON object guarantees: distinct keys, and the key list is the dict's key set. */
    ghost predicate Valid()
    {
      && (forall i, j | 0 <= i < j < |words| :: words[i] != words[j])
      && (forall w :: w in synsets <==> w in words)
    }
  }

  /** The raw ids occurring anywhere in the values of the index. */
  ghost function IndexIds(ix: WordIndex): set<string>
  {
    set w, s | w in ix.synsets && s in ix.synsets[w] :: s
  }

  /** The (word, raw id) pairs in the order the two nested loops of load.py:55-56 visit them. */
  function Tag(w: string, ss: seq<string>): (r: seq<(string, string)>)
    ensures |r| == |ss|
    ensures forall i | 0 <= i < |ss| :: r[i] == (w, ss[i])
  {
    seq(|ss|, i requires 0 <= i < |ss| => (w, ss[i]))
  }

  function Pairs(words: seq<string>, synsets: map<string, seq<string>>): seq<(string, string)>
    requires forall w | w in words :: w in synsets
  {
    if words == [] then []
    else Pairs(words[..|words| - 1], synsets) + Tag(words[|words| - 1], synsets[words[|words| - 1]])
  }

  function IndexPairs(ix: WordIndex): seq<(string, string)>
    requires ix.Valid()
  {
    Pairs(ix.words, ix.synsets)
  }

  /** The words appended to the list of raw id `s`, in order (one per occurrence). */
  function Members(pairs: seq<(string, string)>, s: string): seq<string>
  {
    if pairs == [] then []
    else Members(pairs[..|pairs| - 1], s) + (if pairs[|pairs| - 1].1 == s then [pairs[|pairs| - 1].0] else [])
  }

  ghost function RawIds(pairs: seq<(string, string)>): set<string>
  {
    set p | p in pairs :: p.1
  }

  lemma MembersSnoc(pairs: seq<(string, string)>, p: (string, string), s: string)
    ensures Members(pairs + [p], s) == Members(pairs, s) + (if p.1 == s then [p.0] else [])
    ensures RawIds(pairs + [p]) == RawIds(pairs) + {p.1}
  {
    assert (pairs + [p])[..|pairs|] == pairs;
  }

  lemma {:induction false} MembersNonEmpty(pairs: seq<(string, string)>, s: string)
    requires s in RawIds(pairs)
    ensures |Members(pairs, s)| > 0
  {
    var last := pairs[|pairs| - 1];
    if last.1 != s {
      var p: (string, string) :| p in pairs && p.1 == s;
      var k :| 0 <= k < |pairs| && pairs[k] == p;
      assert pairs[..|pairs| - 1][k] == p;
      MembersNonEmpty(pairs[..|pairs| - 1], s);
    }
  }

  lemma {:induction false} PairsCover(words: seq<string>, synsets: map<string, seq<string>>)
    requires forall w | w in words :: w in synsets
    ensures RawIds(Pairs(words, synsets)) == set w, s | w in words && s in synsets[w] :: s
  {
    if words != [] {
      var init, last := words[..|words| - 1], words[|words| - 1];
      PairsCover(init, synsets);
      var t := Tag(last, synsets[last]);
      assert RawIds(Pairs(words, synsets)) == RawIds(Pairs(init, synsets)) + RawIds(t) by {
        var a := Pairs(init, synsets);
        assert Pairs(words, synsets) == a + t;
        forall x | x in RawIds(a + t) ensures x in RawIds(a) + RawIds(t) {
          var p: (string, string) :| p in a + t && p.1 == x;
        }
      }
      assert RawIds(t) == set s | s in synsets[last];
      assert words == init + [last];
    }
  }

  /** The raw ids the inversion collects are exactly those occurring in the index. */
  lemma IndexPairsCover(ix: WordIndex)
    requires ix.Valid()
    ensures RawIds(IndexPairs(ix)) == IndexIds(ix)
  {
    PairsCover(ix.words, ix.synsets);
  }

  ghost predicate Distinct(s: seq<string>)
  {
    forall i, j | 0 <= i < j < |s| :: s[i] != s[j]
  }

  /** `inv`/`order` are the inversion of `pairs`: defaultdict contents and its key order. */
  ghost predicate Inverted(inv: map<string, seq<string>>, order: seq<string>, pairs: seq<(string, string)>)
  {
    && inv.Keys == RawIds(pairs)
    && (forall s | s in inv :: inv[s] == Members(pairs, s))
    && (forall s :: s in inv <==> s in order)
    && Distinct(order)
  }

  lemma InvertedStep(inv: map<string, seq<string>>, order: seq<string>, pairs: seq<(string, string)>, p: (string, string))
    requires Inverted(inv, order, pairs)
    ensures p.1 in inv ==> Inverted(inv[p.1 := inv[p.1] + [p.0]], order, pairs + [p])
    ensures p.1 !in inv ==> Inverted(inv[p.1 := [p.0]], order + [p.1], pairs + [p])
  {
    forall s ensures Members(pairs + [p], s) == Members(pairs, s) + (if p.1 == s then [p.0] else []) {
      MembersSnoc(pairs, p, s);
    }
    RawIdsSnoc(pairs, p);
    if p.1 in inv {
      InvertedKnown(inv, order, pairs, p);
    } else {
      assert Members(pairs, p.1) == [] by {
        if Members(pairs, p.1) != [] {
          MembersInRawIds(pairs, p.1);
        }
      }
      InvertedNew(inv, order, pairs, p);
    }
  }

  lemma RawIdsSnoc(pairs: seq<(string, string)>, p: (string, string))
    ensures RawIds(pairs + [p]) == RawIds(pairs) + {p.1}
  {
  }

  lemma InvertedKnown(inv: map<string, seq<string>>, order: seq<string>, pairs: seq<(string, string)>, p: (string, string))
    requires Inverted(inv, order, pairs) && p.1 in inv
    requires RawIds(pairs + [p]) == RawIds(pairs) + {p.1}
    requires forall s :: Members(pairs + [p], s) == Members(pairs, s) + (if p.1 == s then [p.0] else [])
    ensures Inverted(inv[p.1 := inv[p.1] + [p.0]], order, pairs + [p])
  {
  }

  lemma InvertedNew(inv: map<string, seq<string>>, order: seq<string>, pairs: seq<(string, string)>, p: (string, string))
    requires Inverted(inv, order, pairs) && p.1 !in inv && Members(pairs, p.1) == []
    requires RawIds(pairs + [p]) == RawIds(pairs) + {p.1}
    requires forall s :: Members(pairs + [p], s) == Members(pairs, s) + (if p.1 == s then [p.0] else [])
    ensures Inverted(inv[p.1 := [p.0]], order + [p.1], pairs + [p])
  {
    NewMembers(inv, pairs, p);
    NewOrder(inv, order, p.1, [p.0]);
    DistinctSnoc(order, p.1);
  }

  lemma NewMembers(inv: map<string, seq<string>>, pairs: seq<(string, string)>, p: (string, string))
    requires forall s | s in inv :: inv[s] == Members(pairs, s)
    requires Members(pairs, p.1) == []
    requires forall s :: Members(pairs + [p], s) == Members(pairs, s) + (if p.1 == s then [p.0] else [])
    ensures forall s | s in inv[p.1 := [p.0]] :: inv[p.1 := [p.0]][s] == Members(pairs + [p], s)
  {
  }

  lemma NewOrder(inv: map<string, seq<string>>, order: seq<string>, s: string, v: seq<string>)
    requires forall t :: t in inv <==> t in order
    ensures forall t :: t in inv[s := v] <==> t in order + [s]
  {
    forall t ensures t in inv[s := v] <==> t in order + [s] {
      assert t in order + [s] <==> t in order || t == s;
    }
  }

  lemma DistinctSnoc(order: seq<string>, s: string)
    requires Distinct(order) && s !in order
    ensures Distinct(order + [s])
  {
    var order' := order + [s];
    forall i, j | 0 <= i < j < |order'|
      ensures order'[i] != order'[j]
    {
      if j == |order| {
        assert order'[i] == order[i] && order[i] in order;
      } else {
        assert order'[i] == order[i] && order'[j] == order[j];
      }
    }
  }

  lemma {:induction false} MembersInRawIds(pairs: seq<(string, string)>, s: string)
    requires Members(pairs, s) != []
    ensures s in RawIds(pairs)
  {
    var last := pairs[|pairs| - 1];
    if last.1 != s {
      MembersInRawIds(pairs[..|pairs| - 1], s);
      var p: (string, string) :| p in pairs[..|pairs| - 1] && p.1 == s;
      assert p in pairs;
    }
  }

  /** Lines 54-57: `synset2lemmas[synset].append(word)` for every word and raw id. */
  method Invert(ix: WordIndex) returns (inv: map<string, seq<string>>, order: seq<string>)
    requires ix.Valid()
    ensures Inverted(inv, order, IndexPairs(ix))
  {
    inv, order := map[], [];
    var i := 0;
    assert ix.words[..0] == [];
    while i < |ix.words|
      invariant 0 <= i <= |ix.words|
      invariant Inverted(inv, order, Pairs(ix.words[..i], ix.synsets))
    {
      var w := ix.words[i];
      assert ix.words[..i + 1] == ix.words[..i] + [w];
      assert ix.words[..i + 1][..i] == ix.words[..i];
      inv, order := InvertWord(inv, order, Pairs(ix.words[..i], ix.synsets), w, ix.synsets[w]);
      i := i + 1;
    }
    assert ix.words[..i] == ix.words;
  }

  /** Line 57 for one word: its raw ids appended to the inversion in order. */
  method InvertWord(inv0: map<string, seq<string>>, order0: seq<string>, ghost before: seq<(string, string)>,
                    w: string, ss: seq<string>)
    returns (inv: map<string, seq<string>>, order: seq<string>)
    requires Inverted(inv0, order0, before)
    ensures Inverted(inv, order, before + Tag(w, ss))
  {
    inv, order := inv0, order0;
    var j := 0;
    ghost var done := before;
    assert before + Tag(w, ss[..0]) == before;
    while j < |ss|
      invariant 0 <= j <= |ss|
      invariant done == before + Tag(w, ss[..j])
      invariant Inverted(inv, order, done)
    {
      var s := ss[j];
      InvertedStep(inv, order, done, (w, s));
      TagSnoc(before, w, ss, j);
      if s in inv {
        inv := inv[s := inv[s] + [w]];
      } else {
        inv := inv[s := [w]];
        order := order + [s];
      }
      done := done + [(w, s)];
      j := j + 1;
    }
    assert ss[..j] == ss;
  }

  lemma TagSnoc(before: seq<(string, string)>, w: string, ss: seq<string>, j: nat)
    requires j < |ss|
    ensures before + Tag(w, ss[..j + 1]) == before + Tag(w, ss[..j]) + [(w, ss[j])]
  {
    assert Tag(w, ss[..j + 1]) == Tag(w, ss[..j]) + [(w, ss[j])];
  }

  /** Python's `str` comparison as a sort order. */
  lemma LexLeqIsTotalPreorder()
    ensures TotalPreorder(LexLeq)
  {
    forall a, b ensures LexLeq(a, b) || LexLeq(b, a) {
      LexLeqTotal(a, b);
    }
    forall a, b, c | LexLeq(a, b) && LexLeq(b, c) ensures LexLeq(a, c) {
      LexLeqTransitive(a, b, c);
    }
  }

  function CountOf(counts: map<string, int>, w: string): int
  {
    if w in counts then counts[w] else 0
  }

  /** `key=_wordcounts.__getitem__, reverse=True`: a word may precede another of lower or equal count. */
  function ByCount(counts: map<string, int>): (string, string) -> bool
  {
    (a: string, b: string) => CountOf(counts, a) >= CountOf(counts, b)
  }

  /** The first word, in list order, that has no count: the key that raises KeyError. */
  function FirstMissing(ws: seq<string>, counts: map<string, int>): Option<string>
  {
    if ws == [] then None
    else if ws[0] !in counts then Some(ws[0])
    else FirstMissing(ws[1..], counts)
  }

  /** Lines 61-66: the order of a synset's member words. */
  function LemmaOrder(ws: seq<string>, counts: map<string, int>): (r: Result<seq<string>, Error>)
    ensures r.Success? ==> |r.value| == |ws|
  {
    if |counts| == 0 then Success(Sort(ws, LexLeq))
    else match FirstMissing(ws, counts)
      case Some(w) => Failure(KeyError(w))
      case None => Success(Sort(ws, ByCount(counts)))
  }

  lemma {:induction false} FirstMissingSpec(ws: seq<string>, counts: map<string, int>)
    ensures FirstMissing(ws, counts).None? <==> forall i | 0 <= i < |ws| :: ws[i] in counts
    ensures FirstMissing(ws, counts).Some? ==>
      exists i | 0 <= i < |ws| :: ws[i] == FirstMissing(ws, counts).value && ws[i] !in counts
                                  && forall j | 0 <= j < i :: ws[j] in counts
  {
    if ws != [] && ws[0] in counts {
      FirstMissingSpec(ws[1..], counts);
      if FirstMissing(ws, counts).Some? {
        var i :| 0 <= i < |ws[1..]| && ws[1..][i] == FirstMissing(ws, counts).value && ws[1..][i] !in counts
                 && forall j | 0 <= j < i :: ws[1..][j] in counts;
        assert forall j | 0 <= j < i + 1 :: ws[j] in counts by {
          forall j | 0 <= j < i + 1 ensures ws[j] in counts {
            if j > 0 { assert ws[j] == ws[1..][j - 1]; }
          }
        }
      } else {
        forall i | 0 <= i < |ws| ensures ws[i] in counts {
          if i > 0 { assert ws[i] == ws[1..][i - 1]; }
        }
      }
    }
  }

  /** Without counts the member words are sorted lexicographically (a permutation). */
  lemma LemmaOrderLexicographic(ws: seq<string>, counts: map<string, int>)
    requires |counts| == 0
    ensures LemmaOrder(ws, counts).Success?
    ensures multiset(LemmaOrder(ws, counts).value) == multiset(ws)
    ensures forall i, j | 0 <= i < j < |ws| :: LexLeq(LemmaOrder(ws, counts).value[i], LemmaOrder(ws, counts).value[j])
  {
    LexLeqIsTotalPreorder();
    SortSorted(ws, LexLeq);
    SortPermutes(ws, LexLeq);
  }

  /**
   * With counts the member words are sorted by descending count, stably: words of equal
   * count keep their inversion order.
   */
  lemma LemmaOrderByCount(ws: seq<string>, counts: map<string, int>)
    requires |counts| > 0
    requires forall i | 0 <= i < |ws| :: ws[i] in counts
    ensures LemmaOrder(ws, counts).Success?
    ensures multiset(LemmaOrder(ws, counts).value) == multiset(ws)
    ensures forall i | 0 <= i < |ws| :: LemmaOrder(ws, counts).value[i] in counts
    ensures forall i, j | 0 <= i < j < |ws| ::
      counts[LemmaOrder(ws, counts).value[i]] >= counts[LemmaOrder(ws, counts).value[j]]
    ensures forall z :: Ties(LemmaOrder(ws, counts).value, z, ByCount(counts)) == Ties(ws, z, ByCount(counts))
  {
    FirstMissingSpec(ws, counts);
    var le := ByCount(counts);
    assert TotalPreorder(le);
    SortSorted(ws, le);
    SortPermutes(ws, le);
    var r := Sort(ws, le);
    forall i | 0 <= i < |r| ensures r[i] in counts {
      assert r[i] in multiset(ws);
    }
    forall z ensures Ties(r, z, le) == Ties(ws, z, le) {
      SortStable(ws, z, le);
    }
  }

  /** With counts, the first word without a count raises KeyError. */
  lemma LemmaOrderMissingCount(ws: seq<string>, counts: map<string, int>)
    requires |counts| > 0
    requires exists i | 0 <= i < |ws| :: ws[i] !in counts
    ensures exists i | 0 <= i < |ws| :: && LemmaOrder(ws, counts) == Failure(KeyError(ws[i]))
                                        && ws[i] !in counts
                                        && forall j | 0 <= j < i :: ws[j] in counts
  {
    FirstMissingSpec(ws, counts);
  }

  /** `'.'.join(...)` of the name's three fields, with `name[:-2] + (index<10)*'0' + str(index)` on collisions. */
  function Candidate(stem: string, k: nat): (name: string)
    requires k >= 1
    ensures |name| >= |stem| + 3
    ensures name[..|stem| + 1] == stem + "."
    ensures forall i | |stem| + 1 <= i < |name| :: '0' <= name[i] <= '9'
    ensures k <= 99 ==> |name| == |stem| + 3
    ensures k >= 100 ==> |name| >= |stem| + k - 96
  {
    if k == 1 then stem + ".01"
    else
      var prev := Candidate(stem, k - 1);
      DecimalLength(k);
      prev[..|prev| - 2] + (if k < 10 then "0" else "") + Decimal(k)
  }

  function TwoDigits(k: nat): string
  {
    (if k < 10 then "0" else "") + Decimal(k)
  }

  /** Below 100 the index is written as two digits. */
  lemma {:induction false} CandidateTwoDigits(stem: string, k: nat)
    requires 1 <= k <= 99
    ensures Candidate(stem, k) == stem + "." + TwoDigits(k)
  {
    if k > 1 {
      CandidateTwoDigits(stem, k - 1);
      DecimalLength(k - 1);
      var prev := Candidate(stem, k - 1);
      assert prev[..|prev| - 2] == stem + ".";
    }
  }

  lemma {:induction false} CandidateGrows(stem: string, j: nat, k: nat)
    requires 99 <= j < k
    ensures |Candidate(stem, j)| < |Candidate(stem, k)|
    decreases k
  {
    DecimalLength(k);
    if j < k - 1 {
      CandidateGrows(stem, j, k - 1);
    }
  }

  lemma TwoDigitsChars(k: nat)
    requires 1 <= k <= 99
    ensures |TwoDigits(k)| == 2
    ensures TwoDigits(k)[0] as int == 48 + k / 10 && TwoDigits(k)[1] as int == 48 + k % 10
  {
    if k >= 10 {
      assert Decimal(k / 10) == [DigitChar(k / 10)];
      assert Decimal(k) == [DigitChar(k / 10), DigitChar(k % 10)];
    } else {
      assert Decimal(k) == [DigitChar(k)];
      assert TwoDigits(k) == ['0', DigitChar(k)];
    }
  }

  lemma TwoDigitsInjective(j: nat, k: nat)
    requires 1 <= j <= 99 && 1 <= k <= 99
    requires TwoDigits(j) == TwoDigits(k)
    ensures j == k
  {
    TwoDigitsChars(j);
    TwoDigitsChars(k);
    assert j / 10 == k / 10 && j % 10 == k % 10;
  }

  /** Different indices give different names. */
  lemma CandidateInjective(stem: string, j: nat, k: nat)
    requires 1 <= j && 1 <= k
    requires Candidate(stem, j) == Candidate(stem, k)
    ensures j == k
  {
    if j <= 99 && k <= 99 {
      CandidateTwoDigits(stem, j);
      CandidateTwoDigits(stem, k);
      assert TwoDigits(j) == Candidate(stem, j)[|stem| + 1..];
      assert TwoDigits(k) == Candidate(stem, k)[|stem| + 1..];
      TwoDigitsInjective(j, k);
    } else if 100 <= j < k {
      CandidateGrows(stem, j, k);
    } else if 100 <= k < j {
      CandidateGrows(stem, k, j);
    }
  }

  /** Names in `taken` at least `n` characters long. */
  ghost function LongNames(taken: set<string>, n: nat): set<string>
  {
    set x | x in taken && |x| >= n
  }

  lemma MintProgress(stem: string, taken: set<string>, index: nat)
    requires index >= 1 && Candidate(stem, index) in taken
    ensures var prev := Candidate(stem, index);
      Candidate(stem, index + 1) == prev[..|prev| - 2] + (if index + 1 < 10 then "0" else "") + Decimal(index + 1)
    ensures index < 99 ==> |Candidate(stem, index + 1)| == |Candidate(stem, index)|
    ensures index >= 99 ==>
      LongNames(taken, |Candidate(stem, index + 1)|) < LongNames(taken, |Candidate(stem, index)|)
  {
    var name := Candidate(stem, index);
    if index >= 99 {
      CandidateGrows(stem, index, index + 1);
      assert name in LongNames(taken, |name|);
      assert name !in LongNames(taken, |Candidate(stem, index + 1)|);
    }
  }

  /** Lines 67-71: the collision loop, taking the first candidate name not in `taken`. */
  method Mint(stem: string, taken: set<string>) returns (name: string, index: nat)
    ensures index >= 1 && name == Candidate(stem, index)
    ensures name !in taken
    ensures forall k | 1 <= k < index :: Candidate(stem, k) in taken
  {
    name := stem + ".01";
    index := 1;
    while name in taken
      invariant index >= 1 && name == Candidate(stem, index)
      invariant forall k | 1 <= k < index :: Candidate(stem, k) in taken
      decreases LongNames(taken, |name|), if index < 100 then 100 - index else 0
    {
      MintProgress(stem, taken, index);
      index := index + 1;
      name := name[..|name| - 2] + (if index < 10 then "0" else "") + Decimal(index);
    }
  }

  /** `synset.split('.')[-2]`: the part-of-speech field of a raw id, or None when the id has no dot. */
  function PosOf(raw: string): Option<string>
  {
    var fields := Split(raw, '.');
    if |fields| >= 2 then Some(fields[|fields| - 2]) else None
  }

  /** The first two fields of a canonical name. */
  function Stem(top: string, pos: string): string
  {
    Join([top, pos], '.')
  }

  /** The exception processing raw id `s` raises, if any: the sort's KeyError, else the IndexError of `[-2]`. */
  function Raises(pairs: seq<(string, string)>, counts: map<string, int>, s: string): Option<Error>
  {
    match LemmaOrder(Members(pairs, s), counts)
    case Failure(e) => Some(e)
    case Success(_) => if PosOf(s).None? then Some(IndexError) else None
  }

  function SortedMembers(pairs: seq<(string, string)>, counts: map<string, int>, s: string): seq<string>
    requires Raises(pairs, counts, s).None?
  {
    LemmaOrder(Members(pairs, s), counts).value
  }

  /** `sortedlemmas[0]`: the word the canonical name is built from. */
  ghost function TopWord(pairs: seq<(string, string)>, counts: map<string, int>, s: string): string
    requires s in RawIds(pairs) && Raises(pairs, counts, s).None?
  {
    MembersNonEmpty(pairs, s);
    SortedMembers(pairs, counts, s)[0]
  }

  /** `_synset2lemmas`, `_synset2pwn` and `_synset2lang`. */
  datatype Registry = Registry(
    synset2lemmas: map<string, seq<string>>,
    synset2pwn: map<string, string>,
    synset2lang: map<string, string>)

  /** `_synset2pwn` and `_synset2lang` are inverse maps, and `_synset2lemmas` is keyed by the same names. */
  ghost predicate Bijective(reg: Registry)
  {
    && (forall n | n in reg.synset2pwn ::
          reg.synset2pwn[n] in reg.synset2lang && reg.synset2lang[reg.synset2pwn[n]] == n)
    && (forall s | s in reg.synset2lang ::
          reg.synset2lang[s] in reg.synset2pwn && reg.synset2pwn[reg.synset2lang[s]] == s)
    && reg.synset2lemmas.Keys == reg.synset2pwn.Keys
  }

  /** The names given to the raw ids that sort before `s`. */
  ghost function NamesBefore(synset2lang: map<string, string>, s: string): set<string>
  {
    set t | t in synset2lang && LexLt(t, s) :: synset2lang[t]
  }

  /** `name` is the candidate of smallest index that is not in `taken`. */
  ghost predicate LeastFree(name: string, stem: string, taken: set<string>)
  {
    exists k: nat :: && 1 <= k && name == Candidate(stem, k) && name !in taken
                     && forall j | 1 <= j < k :: Candidate(stem, j) in taken
  }

  /** Every named raw id got the least free candidate among the names of the raw ids before it. */
  ghost predicate NamedInOrder(pairs: seq<(string, string)>, counts: map<string, int>, reg: Registry)
  {
    forall s | s in reg.synset2lang ::
      && s in RawIds(pairs) && Raises(pairs, counts, s).None?
      && LeastFree(reg.synset2lang[s], Stem(TopWord(pairs, counts, s), PosOf(s).value),
                   NamesBefore(reg.synset2lang, s))
  }

  /** `['.'.join([name, lemma]) for lemma in sortedlemmas]` */
  function Qualify(name: string, words: seq<string>): (r: seq<string>)
    ensures |r| == |words|
    ensures forall i | 0 <= i < |words| :: r[i] == name + "." + words[i]
  {
    seq(|words|, i requires 0 <= i < |words| => name + "." + words[i])
  }

  /** Every name's lemma list qualifies the sorted member words of its raw id. */
  ghost predicate ListsQualified(pairs: seq<(string, string)>, counts: map<string, int>, reg: Registry)
  {
    forall n | n in reg.synset2lemmas ::
      && n in reg.synset2pwn && Raises(pairs, counts, reg.synset2pwn[n]).None?
      && reg.synset2lemmas[n] == Qualify(n, SortedMembers(pairs, counts, reg.synset2pwn[n]))
  }

  /** The raw ids reached before any exception: none at or before them (in string order) raises. */
  ghost function Processed(pairs: seq<(string, string)>, counts: map<string, int>): set<string>
  {
    set s | s in RawIds(pairs) && forall t | t in RawIds(pairs) && LexLeq(t, s) :: Raises(pairs, counts, t).None?
  }

  /** Processing stops at the first raw id, in string order, that raises, and reports its exception. */
  ghost predicate StopsAtFirstFailure(pairs: seq<(string, string)>, counts: map<string, int>, reg: Registry, err: Option<Error>)
  {
    && reg.synset2lang.Keys == Processed(pairs, counts)
    && (err.None? <==> forall s | s in RawIds(pairs) :: Raises(pairs, counts, s).None?)
    && (err.Some? ==>
          exists s | s in RawIds(pairs) ::
            && Raises(pairs, counts, s) == err
            && forall t | t in RawIds(pairs) && LexLt(t, s) :: Raises(pairs, counts, t).None?)
  }

  ghost predicate Ascending(ids: seq<string>)
  {
    forall i, j | 0 <= i < j < |ids| :: LexLt(ids[i], ids[j])
  }

  lemma {:induction false} DistinctCount(s: seq<string>)
    requires Distinct(s)
    ensures forall x :: multiset(s)[x] <= 1
  {
    if s != [] {
      var init, last := s[..|s| - 1], s[|s| - 1];
      assert s == init + [last];
      DistinctCount(init);
      assert last !in init;
    }
  }

  lemma RepeatCount(s: seq<string>, i: nat, j: nat)
    requires i < j < |s| && s[i] == s[j]
    ensures multiset(s)[s[i]] >= 2
  {
    assert s == s[..i] + [s[i]] + s[i + 1..j] + [s[j]] + s[j + 1..];
  }

  /** `sorted(synset2lemmas.items())`: the distinct raw ids in strictly ascending order. */
  lemma SortedIds(order: seq<string>)
    requires Distinct(order)
    ensures Ascending(Sort(order, LexLeq))
    ensures forall s :: s in Sort(order, LexLeq) <==> s in order
  {
    var ids := Sort(order, LexLeq);
    LexLeqIsTotalPreorder();
    SortSorted(order, LexLeq);
    SortPermutes(order, LexLeq);
    DistinctCount(order);
    forall i, j | 0 <= i < j < |ids| ensures LexLt(ids[i], ids[j]) {
      if ids[i] == ids[j] {
        RepeatCount(ids, i, j);
        assert false;
      }
    }
    forall s ensures s in ids <==> s in order {
      assert s in ids <==> s in multiset(ids);
      assert s in order <==> s in multiset(order);
    }
  }

  /** The registry built so far stops, in the declarative sense, where the loop stopped. */
  /** Every raw id the loop named lies before the first failure. */
  lemma NamedAreProcessed(pairs: seq<(string, string)>, counts: map<string, int>, ids: seq<string>, i: nat, s: string)
    requires Ascending(ids) && forall t :: t in ids <==> t in RawIds(pairs)
    requires i <= |ids|
    requires forall j | 0 <= j < i :: Raises(pairs, counts, ids[j]).None?
    requires s in ids[..i]
    ensures s in Processed(pairs, counts)
  {
    var m :| 0 <= m < i && ids[..i][m] == s;
    forall t | t in RawIds(pairs) && LexLeq(t, s) ensures Raises(pairs, counts, t).None? {
      var n :| 0 <= n < |ids| && ids[n] == t;
      if n > m {
        LexLtAsymmetric(s, t);
      }
    }
  }

  /** Every raw id before the first failure was named by the loop. */
  lemma ProcessedAreNamed(pairs: seq<(string, string)>, counts: map<string, int>, ids: seq<string>, i: nat, s: string)
    requires Ascending(ids) && forall t :: t in ids <==> t in RawIds(pairs)
    requires i <= |ids|
    requires i < |ids| ==> Raises(pairs, counts, ids[i]).Some?
    requires s in Processed(pairs, counts)
    ensures s in ids[..i]
  {
    var m :| 0 <= m < |ids| && ids[m] == s;
    if m == i {
      LexLeqTotal(s, s);
      assert false;
    } else if m > i {
      assert false;
    }
    assert ids[..i][m] == s;
  }

  /** Before the raw id the loop stopped at, nothing raises. */
  lemma NothingBeforeRaises(pairs: seq<(string, string)>, counts: map<string, int>, ids: seq<string>, i: nat)
    requires Ascending(ids) && forall t :: t in ids <==> t in RawIds(pairs)
    requires i < |ids|
    requires forall j | 0 <= j < i :: Raises(pairs, counts, ids[j]).None?
    ensures forall t | t in RawIds(pairs) && LexLt(t, ids[i]) :: Raises(pairs, counts, t).None?
  {
    forall t | t in RawIds(pairs) && LexLt(t, ids[i]) ensures Raises(pairs, counts, t).None? {
      var n :| 0 <= n < |ids| && ids[n] == t;
      if n > i {
        LexLtAsymmetric(ids[i], t);
      }
    }
  }

  lemma NothingRaisesAll(pairs: seq<(string, string)>, counts: map<string, int>, ids: seq<string>)
    requires forall t :: t in ids <==> t in RawIds(pairs)
    requires forall j | 0 <= j < |ids| :: Raises(pairs, counts, ids[j]).None?
    ensures forall s | s in RawIds(pairs) :: Raises(pairs, counts, s).None?
  {
    forall s | s in RawIds(pairs) ensures Raises(pairs, counts, s).None? {
      var n :| 0 <= n < |ids| && ids[n] == s;
    }
  }

  lemma StopsWhereLoopStops(pairs: seq<(string, string)>, counts: map<string, int>, ids: seq<string>, i: nat, reg: Registry, err: Option<Error>)
    requires Ascending(ids) && forall s :: s in ids <==> s in RawIds(pairs)
    requires i <= |ids|
    requires forall s :: s in reg.synset2lang <==> s in ids[..i]
    requires forall j | 0 <= j < i :: Raises(pairs, counts, ids[j]).None?
    requires i == |ids| ==> err.None?
    requires i < |ids| ==> err.Some? && Raises(pairs, counts, ids[i]) == err
    ensures StopsAtFirstFailure(pairs, counts, reg, err)
  {
    forall s | s in reg.synset2lang ensures s in Processed(pairs, counts) {
      NamedAreProcessed(pairs, counts, ids, i, s);
    }
    forall s | s in Processed(pairs, counts) ensures s in reg.synset2lang {
      ProcessedAreNamed(pairs, counts, ids, i, s);
    }
    if i < |ids| {
      NothingBeforeRaises(pairs, counts, ids, i);
      assert ids[i] in RawIds(pairs);
    } else {
      assert ids[..i] == ids;
      NothingRaisesAll(pairs, counts, ids);
    }
  }


  lemma KeysOfPrefixStep(keys: set<string>, ids: seq<string>, i: nat)
    requires i < |ids|
    requires forall x :: x in keys <==> x in ids[..i]
    ensures forall x :: x in keys + {ids[i]} <==> x in ids[..i + 1]
  {
    assert ids[..i + 1] == ids[..i] + [ids[i]];
  }

  lemma AscendingPrefix(ids: seq<string>, i: nat)
    requires Ascending(ids) && i < |ids|
    ensures forall t | t in ids[..i] :: LexLt(t, ids[i])
  {
    forall t | t in ids[..i] ensures LexLt(t, ids[i]) {
      var m :| 0 <= m < i && ids[..i][m] == t;
    }
  }

  /** The registry after naming raw id `s` as `name`. */
  function Extend(reg: Registry, s: string, name: string, lemmas: seq<string>): Registry
  {
    Registry(reg.synset2lemmas[name := lemmas], reg.synset2pwn[name := s], reg.synset2lang[s := name])
  }

  lemma ExtendBijective(reg: Registry, s: string, name: string, lemmas: seq<string>)
    requires Bijective(reg) && s !in reg.synset2lang && name !in reg.synset2pwn
    ensures Bijective(Extend(reg, s, name, lemmas))
  {
  }

  lemma ExtendKeys(reg: Registry, s: string, name: string, lemmas: seq<string>)
    ensures Extend(reg, s, name, lemmas).synset2lang.Keys == reg.synset2lang.Keys + {s}
  {
  }

  lemma ExtendNamesBefore(reg: Registry, s: string, name: string, lemmas: seq<string>)
    requires Bijective(reg)
    requires forall t | t in reg.synset2lang :: LexLt(t, s)
    ensures NamesBefore(Extend(reg, s, name, lemmas).synset2lang, s) == reg.synset2pwn.Keys
    ensures forall t | t in reg.synset2lang ::
      NamesBefore(Extend(reg, s, name, lemmas).synset2lang, t) == NamesBefore(reg.synset2lang, t)
  {
    var s2l := Extend(reg, s, name, lemmas).synset2lang;
    forall t | t in reg.synset2lang ensures NamesBefore(s2l, t) == NamesBefore(reg.synset2lang, t) {
      LexLtAsymmetric(t, s);
      assert !LexLt(s, t);
    }
    forall n | n in reg.synset2pwn ensures n in NamesBefore(s2l, s) {
      var t := reg.synset2pwn[n];
      assert t in reg.synset2lang && LexLt(t, s);
      assert s2l[t] == n;
    }
  }

  lemma ExtendLists(pairs: seq<(string, string)>, counts: map<string, int>, reg: Registry, s: string, name: string)
    requires ListsQualified(pairs, counts, reg)
    requires Raises(pairs, counts, s).None?
    ensures ListsQualified(pairs, counts, Extend(reg, s, name, Qualify(name, SortedMembers(pairs, counts, s))))
  {
  }

  lemma ExtendNamed(pairs: seq<(string, string)>, counts: map<string, int>, reg: Registry,
                    s: string, name: string, lemmas: seq<string>)
    requires NamedInOrder(pairs, counts, reg)
    requires s in RawIds(pairs) && Raises(pairs, counts, s).None?
    requires s !in reg.synset2lang
    requires LeastFree(name, Stem(TopWord(pairs, counts, s), PosOf(s).value), reg.synset2pwn.Keys)
    requires NamesBefore(Extend(reg, s, name, lemmas).synset2lang, s) == reg.synset2pwn.Keys
    requires forall t | t in reg.synset2lang ::
      NamesBefore(Extend(reg, s, name, lemmas).synset2lang, t) == NamesBefore(reg.synset2lang, t)
    ensures NamedInOrder(pairs, counts, Extend(reg, s, name, lemmas))
  {
    var s2l := Extend(reg, s, name, lemmas).synset2lang;
    forall t | t in s2l
      ensures && t in RawIds(pairs) && Raises(pairs, counts, t).None?
              && LeastFree(s2l[t], Stem(TopWord(pairs, counts, t), PosOf(t).value), NamesBefore(s2l, t))
    {
      if t != s {
        assert s2l[t] == reg.synset2lang[t];
      }
    }
  }

  /** Adding the next raw id in ascending order keeps the registry's invariants. */
  lemma RegistryExtend(pairs: seq<(string, string)>, counts: map<string, int>, reg: Registry,
                       s: string, name: string, index: nat)
    requires Bijective(reg) && NamedInOrder(pairs, counts, reg) && ListsQualified(pairs, counts, reg)
    requires s in RawIds(pairs) && Raises(pairs, counts, s).None?
    requires forall t | t in reg.synset2lang :: LexLt(t, s)
    requires index >= 1 && name == Candidate(Stem(TopWord(pairs, counts, s), PosOf(s).value), index)
    requires name !in reg.synset2pwn
    requires forall k | 1 <= k < index :: Candidate(Stem(TopWord(pairs, counts, s), PosOf(s).value), k) in reg.synset2pwn
    ensures var reg' := Extend(reg, s, name, Qualify(name, SortedMembers(pairs, counts, s)));
      Bijective(reg') && NamedInOrder(pairs, counts, reg') && ListsQualified(pairs, counts, reg')
  {
    var lemmas := Qualify(name, SortedMembers(pairs, counts, s));
    assert s !in reg.synset2lang by {
      if s in reg.synset2lang {
        LexLtAsymmetric(s, s);
        assert false;
      }
    }
    ExtendBijective(reg, s, name, lemmas);
    ExtendNamesBefore(reg, s, name, lemmas);
    ExtendLists(pairs, counts, reg, s, name);
    ExtendNamed(pairs, counts, reg, s, name, lemmas);
  }

  /** The three invariants `_set_synsetmaps` keeps while naming raw ids. */
  ghost predicate WellNamed(pairs: seq<(string, string)>, counts: map<string, int>, reg: Registry)
  {
    Bijective(reg) && NamedInOrder(pairs, counts, reg) && ListsQualified(pairs, counts, reg)
  }

  /** Lines 61-74 for one raw id `s`, larger than every raw id named so far. */
  method NameRawId(ghost pairs: seq<(string, string)>, counts: map<string, int>, reg: Registry,
                   s: string, members: seq<string>)
    returns (reg': Registry, err: Option<Error>)
    requires WellNamed(pairs, counts, reg)
    requires s in RawIds(pairs) && members == Members(pairs, s)
    requires forall t | t in reg.synset2lang :: LexLt(t, s)
    ensures err == Raises(pairs, counts, s)
    ensures err.None? ==> WellNamed(pairs, counts, reg')
    ensures err.None? ==> reg'.synset2lang.Keys == reg.synset2lang.Keys + {s}
  {
    reg' := reg;
    var sorted := LemmaOrder(members, counts);
    if sorted.Failure? {
      return reg', Some(sorted.error);
    }
    var pos := PosOf(s);
    if pos.None? {
      return reg', Some(IndexError);
    }
    MembersNonEmpty(pairs, s);
    var stem := Stem(sorted.value[0], pos.value);
    assert stem == Stem(TopWord(pairs, counts, s), PosOf(s).value);
    var name, index := Mint(stem, reg.synset2pwn.Keys);
    RegistryExtend(pairs, counts, reg, s, name, index);
    reg' := Extend(reg, s, name, Qualify(name, sorted.value));
    ExtendKeys(reg, s, name, Qualify(name, sorted.value));
    err := None;
  }

  /**
   * Lines 50-74: invert the index, then name every raw id in ascending string order.
   * On an exception the registry holds the raw ids processed before it.
   */
  method SetSynsetMaps(ix: WordIndex, counts: map<string, int>) returns (reg: Registry, err: Option<Error>)
    requires ix.Valid()
    ensures Built(ix, counts, reg, err)
  {
    ghost var pairs := IndexPairs(ix);
    var inv, order := Invert(ix);
    var ids := Sort(order, LexLeq);
    SortedIds(order);
    ghost var i;
    reg, err, i := NameAll(pairs, counts, inv, ids);
    StopsWhereLoopStops(pairs, counts, ids, i, reg, err);
  }

  /**
   * The loop of lines 62-74 over the sorted raw ids: it stops at the first raw id that
   * raises, after naming `ids[..i]`.
   */
  method NameAll(ghost pairs: seq<(string, string)>, counts: map<string, int>, inv: map<string, seq<string>>,
                 ids: seq<string>)
    returns (reg: Registry, err: Option<Error>, ghost i: nat)
    requires Ascending(ids) && forall s :: s in ids <==> s in RawIds(pairs)
    requires forall s | s in RawIds(pairs) :: s in inv && inv[s] == Members(pairs, s)
    ensures i <= |ids|
    ensures WellNamed(pairs, counts, reg)
    ensures forall s :: s in reg.synset2lang <==> s in ids[..i]
    ensures forall j | 0 <= j < i :: Raises(pairs, counts, ids[j]).None?
    ensures i == |ids| ==> err.None?
    ensures i < |ids| ==> err.Some? && Raises(pairs, counts, ids[i]) == err
  {
    reg := Registry(map[], map[], map[]);
    i := 0;
    var k := 0;
    while k < |ids|
      invariant i == k <= |ids|
      invariant forall s :: s in reg.synset2lang <==> s in ids[..k]
      invariant forall j | 0 <= j < k :: Raises(pairs, counts, ids[j]).None?
      invariant WellNamed(pairs, counts, reg)
    {
      var next, e := NameNext(pairs, counts, inv, ids, k, reg);
      if e.Some? {
        return reg, e, k;
      }
      reg := next;
      k := k + 1;
      i := k;
    }
    err := None;
  }

  /** One turn of the loop of lines 62-74: name `ids[i]`, the next raw id in string order. */
  method NameNext(ghost pairs: seq<(string, string)>, counts: map<string, int>, inv: map<string, seq<string>>,
                  ids: seq<string>, i: nat, reg: Registry)
    returns (next: Registry, err: Option<Error>)
    requires Ascending(ids) && forall s :: s in ids <==> s in RawIds(pairs)
    requires forall s | s in RawIds(pairs) :: s in inv && inv[s] == Members(pairs, s)
    requires i < |ids|
    requires forall s :: s in reg.synset2lang <==> s in ids[..i]
    requires WellNamed(pairs, counts, reg)
    ensures err == Raises(pairs, counts, ids[i])
    ensures err.None? ==> WellNamed(pairs, counts, next)
    ensures err.None? ==> forall s :: s in next.synset2lang <==> s in ids[..i + 1]
  {
    AscendingPrefix(ids, i);
    next, err := NameRawId(pairs, counts, reg, ids[i], inv[ids[i]]);
    if err.None? {
      KeysOfPrefixStep(reg.synset2lang.Keys, ids, i);
    }
  }

  /** Everything `SetSynsetMaps` promises about its results. */
  ghost predicate Built(ix: WordIndex, counts: map<string, int>, reg: Registry, err: Option<Error>)
    requires ix.Valid()
  {
    && WellNamed(IndexPairs(ix), counts, reg)
    && StopsAtFirstFailure(IndexPairs(ix), counts, reg, err)
  }

  /**
   * Two raw ids whose names are built from the same top word and part of speech: the one
   * that sorts first gets the smaller index.
   */
  lemma CollisionOrder(pairs: seq<(string, string)>, counts: map<string, int>, reg: Registry,
                       s1: string, s2: string, stem: string)
    requires Bijective(reg) && NamedInOrder(pairs, counts, reg)
    requires s1 in reg.synset2lang && s2 in reg.synset2lang && LexLt(s1, s2)
    requires Stem(TopWord(pairs, counts, s1), PosOf(s1).value) == stem
    requires Stem(TopWord(pairs, counts, s2), PosOf(s2).value) == stem
    ensures exists k1: nat, k2: nat :: && 1 <= k1 < k2
                                       && reg.synset2lang[s1] == Candidate(stem, k1)
                                       && reg.synset2lang[s2] == Candidate(stem, k2)
  {
    var s2l := reg.synset2lang;
    var k1 :| && 1 <= k1 && s2l[s1] == Candidate(stem, k1) && s2l[s1] !in NamesBefore(s2l, s1)
              && forall j | 1 <= j < k1 :: Candidate(stem, j) in NamesBefore(s2l, s1);
    var k2 :| && 1 <= k2 && s2l[s2] == Candidate(stem, k2) && s2l[s2] !in NamesBefore(s2l, s2)
              && forall j | 1 <= j < k2 :: Candidate(stem, j) in NamesBefore(s2l, s2);
    assert s2l[s1] in NamesBefore(s2l, s2);
    if k2 < k1 {
      assert Candidate(stem, k2) in NamesBefore(s2l, s1);
      var t :| t in s2l && LexLt(t, s1) && s2l[t] == Candidate(stem, k2);
      assert reg.synset2pwn[s2l[t]] == t && reg.synset2pwn[s2l[s2]] == s2;
      LexLtAsymmetric(s1, s2);
      assert false;
    } else if k2 == k1 {
      assert false;
    }
  }

  /** Without an exception every raw id of the index is named, and by a name of its own. */
  lemma NamesEveryRawId(ix: WordIndex, counts: map<string, int>, reg: Registry)
    requires ix.Valid() && Built(ix, counts, reg, None)
    ensures reg.synset2lang.Keys == IndexIds(ix)
    ensures forall s, t | s in reg.synset2lang && t in reg.synset2lang && s != t ::
      reg.synset2lang[s] != reg.synset2lang[t]
  {
    AllProcessed(IndexPairs(ix), counts);
    IndexPairsCover(ix);
    NamesDistinct(reg);
  }

  lemma AllProcessed(pairs: seq<(string, string)>, counts: map<string, int>)
    requires forall s | s in RawIds(pairs) :: Raises(pairs, counts, s).None?
    ensures Processed(pairs, counts) == RawIds(pairs)
  {
  }

  lemma NamesDistinct(reg: Registry)
    requires Bijective(reg)
    ensures forall s, t | s in reg.synset2lang && t in reg.synset2lang && s != t ::
      reg.synset2lang[s] != reg.synset2lang[t]
  {
    forall s, t | s in reg.synset2lang && t in reg.synset2lang && s != t
      ensures reg.synset2lang[s] != reg.synset2lang[t]
    {
      assert reg.synset2pwn[reg.synset2lang[s]] == s;
      assert reg.synset2pwn[reg.synset2lang[t]] == t;
    }
  }

  lemma LemmaOrderPermutes(ws: seq<string>, counts: map<string, int>)
    requires LemmaOrder(ws, counts).Success?
    ensures multiset(LemmaOrder(ws, counts).value) == multiset(ws)
  {
    if |counts| == 0 {
      SortPermutes(ws, LexLeq);
    } else {
      SortPermutes(ws, ByCount(counts));
    }
  }

  /**
   * A name's lemma list: one entry `<name>.<word>` per member word of its raw id (a
   * permutation of them), led by the top word, and the name itself is
   * `<top word>.<pos>.<digits>`.
   */
  lemma LemmaListShape(pairs: seq<(string, string)>, counts: map<string, int>, reg: Registry, n: string)
    requires WellNamed(pairs, counts, reg)
    requires n in reg.synset2lemmas
    ensures var s := reg.synset2pwn[n];
            && s in RawIds(pairs) && Raises(pairs, counts, s).None?
            && |reg.synset2lemmas[n]| == |Members(pairs, s)| > 0
            && multiset(SortedMembers(pairs, counts, s)) == multiset(Members(pairs, s))
            && (forall i | 0 <= i < |reg.synset2lemmas[n]| ::
                  reg.synset2lemmas[n][i] == n + "." + SortedMembers(pairs, counts, s)[i])
            && StartsWith(n, Stem(TopWord(pairs, counts, s), PosOf(s).value) + ".")
  {
    var s := reg.synset2pwn[n];
    assert s in reg.synset2lang && reg.synset2lang[s] == n;
    MembersNonEmpty(pairs, s);
    LemmaOrderPermutes(Members(pairs, s), counts);
    var stem := Stem(TopWord(pairs, counts, s), PosOf(s).value);
    var k :| 1 <= k && n == Candidate(stem, k);
    CandidateStartsWith(stem, k);
  }

  lemma CandidateStartsWith(stem: string, k: nat)
    requires 1 <= k
    ensures StartsWith(Candidate(stem, k), stem + ".")
  {
  }

  /** The part of speech of a raw id `<word>.<pos>.<number>`. */
  lemma PosOfRawId(word: string, pos: string, number: string)
    requires '.' !in word && '.' !in pos && '.' !in number
    ensures PosOf(word + "." + pos + "." + number) == Some(pos)
  {
    JoinTwo(pos, number, '.');
    assert [word, pos, number][1..] == [pos, number];
    assert Join([word, pos, number], '.') == word + "." + pos + "." + number;
    JoinSplit([word, pos, number], '.');
  }

  /** French `chien` listed under two English synsets. */
  function ChienIndex(): WordIndex
  {
    WordIndex(["chien"], map["chien" := ["dog.n.01", "frump.n.01"]])
  }

  lemma ChienPairs()
    ensures ChienIndex().Valid()
    ensures IndexPairs(ChienIndex()) == [("chien", "dog.n.01"), ("chien", "frump.n.01")]
  {
    var ix := ChienIndex();
    assert ix.words[..0] == [];
    assert Pairs(ix.words, ix.synsets) == Pairs([], ix.synsets) + Tag("chien", ["dog.n.01", "frump.n.01"]);
  }

  lemma ChienMembers(pairs: seq<(string, string)>)
    requires pairs == [("chien", "dog.n.01"), ("chien", "frump.n.01")]
    ensures RawIds(pairs) == {"dog.n.01", "frump.n.01"}
    ensures Members(pairs, "dog.n.01") == ["chien"] && Members(pairs, "frump.n.01") == ["chien"]
  {
    var p1, p2 := ("chien", "dog.n.01"), ("chien", "frump.n.01");
    assert pairs == [p1] + [p2] && [p1] == [] + [p1];
    assert "dog.n.01"[0] != "frump.n.01"[0];
    MembersSnoc([], p1, "dog.n.01");
    MembersSnoc([], p1, "frump.n.01");
    MembersSnoc([p1], p2, "dog.n.01");
    MembersSnoc([p1], p2, "frump.n.01");
  }

  lemma ChienRaisesNothing(pairs: seq<(string, string)>, s: string)
    requires Members(pairs, s) == ["chien"]
    requires s == "dog.n.01" || s == "frump.n.01"
    ensures Raises(pairs, map[], s).None?
    ensures SortedMembers(pairs, map[], s) == ["chien"]
    ensures PosOf(s) == Some("n")
  {
    assert LemmaOrder(["chien"], map[]) == Success(["chien"]);
    if s == "dog.n.01" {
      assert s == "dog" + "." + "n" + "." + "01";
      PosOfRawId("dog", "n", "01");
    } else {
      assert s == "frump" + "." + "n" + "." + "01";
      PosOfRawId("frump", "n", "01");
    }
  }

  lemma ChienOrder()
    ensures LexLt("dog.n.01", "frump.n.01") && !LexLeq("frump.n.01", "dog.n.01")
  {
    assert LexLt("dog.n.01", "frump.n.01");
    LexLtAsymmetric("dog.n.01", "frump.n.01");
  }

  /** The first two candidates of stem `chien.n`. */
  lemma ChienCandidates()
    ensures Stem("chien", "n") == "chien.n"
    ensures Candidate("chien.n", 1) == "chien.n.01" && Candidate("chien.n", 2) == "chien.n.02"
    ensures "chien.n.01" != "chien.n.02"
  {
    JoinTwo("chien", "n", '.');
    assert "chien" + ['.'] + "n" == "chien.n";
    assert "chien.n.01"[9] != "chien.n.02"[9];
    CandidateTwoDigits("chien.n", 2);
    assert TwoDigits(2) == "02";
  }

  lemma MapOfTwo(m: map<string, string>, a: string, b: string)
    requires m.Keys == {a, b}
    ensures m == map[a := m[a], b := m[b]]
  {
  }

  /** The only raw id of a two-id registry sorting before the larger one is the smaller one. */
  lemma OnlyBefore(s2l: map<string, string>, a: string, b: string, t: string)
    requires s2l.Keys == {a, b} && !LexLeq(b, a)
    requires t in s2l
    ensures LexLt(t, a) ==> false
    ensures LexLt(t, b) ==> t == a
  {
  }

  /** When no raw id raises, every raw id is processed and no error is reported. */
  lemma NothingRaises(pairs: seq<(string, string)>, counts: map<string, int>, reg: Registry, err: Option<Error>)
    requires StopsAtFirstFailure(pairs, counts, reg, err)
    requires forall s | s in RawIds(pairs) :: Raises(pairs, counts, s).None?
    ensures err == None && reg.synset2lang.Keys == RawIds(pairs)
  {
  }

  lemma OneOfTwo(ids: set<string>, a: string, b: string, s: string)
    requires ids == {a, b} && s in ids
    ensures s == a || s == b
  {
  }

  lemma NothingRaisesOfTwo(pairs: seq<(string, string)>, counts: map<string, int>, reg: Registry,
                           err: Option<Error>, a: string, b: string)
    requires StopsAtFirstFailure(pairs, counts, reg, err)
    requires RawIds(pairs) == {a, b}
    requires Raises(pairs, counts, a).None? && Raises(pairs, counts, b).None?
    ensures err == None && reg.synset2lang.Keys == {a, b}
  {
    forall s | s in RawIds(pairs) ensures Raises(pairs, counts, s).None? {
      OneOfTwo(RawIds(pairs), a, b, s);
    }
    NothingRaises(pairs, counts, reg, err);
  }

  /** A registry of two raw ids sharing a stem: the first gets index 1, the second index 2. */
  lemma TwoNames(s2l: map<string, string>, a: string, b: string, stem: string)
    requires s2l.Keys == {a, b} && LexLt(a, b) && !LexLeq(b, a)
    requires LeastFree(s2l[a], stem, NamesBefore(s2l, a))
    requires LeastFree(s2l[b], stem, NamesBefore(s2l, b))
    ensures s2l == map[a := Candidate(stem, 1), b := Candidate(stem, 2)]
  {
    var k1 :| && 1 <= k1 && s2l[a] == Candidate(stem, k1) && s2l[a] !in NamesBefore(s2l, a)
              && forall j | 1 <= j < k1 :: Candidate(stem, j) in NamesBefore(s2l, a);
    if k1 > 1 {
      assert Candidate(stem, 1) in NamesBefore(s2l, a);
      var t :| t in s2l && LexLt(t, a) && s2l[t] == Candidate(stem, 1);
      OnlyBefore(s2l, a, b, t);
      assert false;
    }
    var k2 :| && 1 <= k2 && s2l[b] == Candidate(stem, k2) && s2l[b] !in NamesBefore(s2l, b)
              && forall j | 1 <= j < k2 :: Candidate(stem, j) in NamesBefore(s2l, b);
    assert s2l[a] in NamesBefore(s2l, b);
    if k2 > 2 {
      assert Candidate(stem, 2) in NamesBefore(s2l, b);
      var t :| t in s2l && LexLt(t, b) && s2l[t] == Candidate(stem, 2);
      OnlyBefore(s2l, a, b, t);
      CandidateInjective(stem, 1, 2);
      assert false;
    }
    assert k2 == 2;
    MapOfTwo(s2l, a, b);
  }

  /**
   * Two raw ids with the same top word and part of speech, without word counts: the one
   * sorting first is `chien.n.01`, the other `chien.n.02`.
   */
  lemma CollisionExample(reg: Registry, err: Option<Error>)
    requires ChienIndex().Valid() && Built(ChienIndex(), map[], reg, err)
    ensures err == None
    ensures reg.synset2lang == map["dog.n.01" := "chien.n.01", "frump.n.01" := "chien.n.02"]
  {
    ChienPairs();
    var pairs := IndexPairs(ChienIndex());
    ChienMembers(pairs);
    ChienStem(pairs, "dog.n.01");
    ChienStem(pairs, "frump.n.01");
    NothingRaisesOfTwo(pairs, map[], reg, err, "dog.n.01", "frump.n.01");
    ChienOrder();
    ChienCandidates();
    TwoNames(reg.synset2lang, "dog.n.01", "frump.n.01", "chien.n");
  }

  lemma ChienStem(pairs: seq<(string, string)>, s: string)
    requires Members(pairs, s) == ["chien"] && s in RawIds(pairs)
    requires s == "dog.n.01" || s == "frump.n.01"
    ensures Raises(pairs, map[], s).None?
    ensures Stem(TopWord(pairs, map[], s), PosOf(s).value) == "chien.n"
  {
    ChienRaisesNothing(pairs, s);
    ChienCandidates();
  }
}
