/**
 * The `<lang>_vocab.txt` word-count source (pawn/load.py:40-45): every line is split on
 * whitespace with `str.split()`, must give exactly a word and an integer, and the
 * counts are gathered into a dict where a repeated word keeps its last count.
 */
module Vocabulary {
  import opened Wrappers
  import opened Strings

  /** `str.isspace()` for one code point: the separators `str.split()` drops. */
  predicate IsSpace(c: char)
  {
    var n := c as int;
    || 9 <= n <= 13 || 28 <= n <= 32 || n == 0x85 || n == 0xA0 || n == 0x1680
    || 0x2000 <= n <= 0x200A || n == 0x2028 || n == 0x2029 || n == 0x202F
    || n == 0x205F || n == 0x3000
  }

  predicate SpaceFree(s: string)
  {
    forall i | 0 <= i < |s| :: !IsSpace(s[i])
  }

  /** Length of the leading run of non-space characters. */
  function WordLength(s: string): (k: nat)
    ensures k <= |s|
    ensures SpaceFree(s[..k])
    ensures k < |s| ==> IsSpace(s[k])
  {
    if s == [] || IsSpace(s[0]) then 0
    else
      var k := 1 + WordLength(s[1..]);
      assert s[..k] == [s[0]] + s[1..][..k - 1];
      k
  }

  /** `s.split()`: the maximal runs of non-space characters, in order. */
  function Fields(s: string): (r: seq<string>)
    ensures forall i | 0 <= i < |r| :: r[i] != [] && SpaceFree(r[i])
    decreases |s|
  {
    if s == [] then []
    else if IsSpace(s[0]) then Fields(s[1..])
    else
      var k := WordLength(s);
      [s[..k]] + Fields(s[k..])
  }

  /** A word followed by a separator has the word's length as its leading run. */
  lemma {:induction false} WordLengthBeforeSpace(a: string, c: char, b: string)
    requires IsSpace(c)
    ensures WordLength(a + [c] + b) == WordLength(a)
  {
    if a != [] && !IsSpace(a[0]) {
      assert (a + [c] + b)[1..] == a[1..] + [c] + b;
      WordLengthBeforeSpace(a[1..], c, b);
    }
  }

  /** A separator splits the fields: those before it, then those after it. */
  lemma {:induction false} FieldsAtSpace(a: string, c: char, b: string)
    requires IsSpace(c)
    ensures Fields(a + [c] + b) == Fields(a) + Fields(b)
    decreases |a|
  {
    var s := a + [c] + b;
    if a == [] {
      assert s[1..] == b;
    } else if IsSpace(a[0]) {
      assert s[1..] == a[1..] + [c] + b;
      FieldsAtSpace(a[1..], c, b);
    } else {
      var k := WordLength(a);
      WordLengthBeforeSpace(a, c, b);
      assert s[..k] == a[..k];
      assert s[k..] == a[k..] + [c] + b;
      FieldsAtSpace(a[k..], c, b);
    }
  }

  /** A non-empty run of non-space characters is a single field. */
  lemma {:induction false} FieldsOfSingleWord(w: string)
    requires w != [] && SpaceFree(w)
    ensures Fields(w) == [w]
  {
    assert !IsSpace(w[0]);
    WordLengthWhole(w);
    assert w[..|w|] == w && w[|w|..] == [];
  }

  lemma {:induction false} WordLengthWhole(w: string)
    requires SpaceFree(w)
    ensures WordLength(w) == |w|
  {
    if w != [] {
      assert !IsSpace(w[0]);
      assert SpaceFree(w[1..]) by {
        forall i | 0 <= i < |w[1..]| ensures !IsSpace(w[1..][i]) {
          assert w[1..][i] == w[i + 1];
        }
      }
      WordLengthWhole(w[1..]);
    }
  }

  predicate IsDigit(c: char)
  {
    '0' <= c <= '9'
  }

  /** Digits, with single underscores allowed between two digits, as `int()` accepts. */
  predicate DigitPart(t: string)
  {
    && |t| > 0 && IsDigit(t[0]) && IsDigit(t[|t| - 1])
    && forall i | 0 <= i < |t| :: IsDigit(t[i]) || (t[i] == '_' && i + 1 < |t| && IsDigit(t[i + 1]))
  }

  /** The value of a digit string, underscores ignored. */
  function DigitsValue(t: string): nat
  {
    if t == [] then 0
    else if t[|t| - 1] == '_' then DigitsValue(t[..|t| - 1])
    else DigitsValue(t[..|t| - 1]) * 10 + (if IsDigit(t[|t| - 1]) then t[|t| - 1] as int - 48 else 0)
  }

  /** `int(t)` for a space-free token: an optional sign and a digit part. */
  function ParseInt(t: string): Option<int>
  {
    if |t| > 0 && (t[0] == '+' || t[0] == '-') then
      if DigitPart(t[1..]) then
        var v: int := DigitsValue(t[1..]);
        Some(if t[0] == '-' then -v else v)
      else None
    else if DigitPart(t) then Some(DigitsValue(t))
    else None
  }

  /** One line of the vocabulary file: `word, count = line.split()` then `int(count)`. */
  function ParseLine(line: string): Result<(string, int), Error>
  {
    var f := Fields(line);
    if |f| != 2 then Failure(ValueError)
    else match ParseInt(f[1])
      case None => Failure(ValueError)
      case Some(n) => Success((f[0], n))
  }

  predicate AllParse(lines: seq<string>)
  {
    forall j | 0 <= j < |lines| :: ParseLine(lines[j]).Success?
  }

  /** The (word, count) pairs of lines that all parse. */
  function Entries(lines: seq<string>): (es: seq<(string, int)>)
    requires AllParse(lines)
    ensures |es| == |lines|
    ensures forall j | 0 <= j < |lines| :: es[j] == ParseLine(lines[j]).value
  {
    seq(|lines|, j requires 0 <= j < |lines| && AllParse(lines) => ParseLine(lines[j]).value)
  }

  /** `m` holds exactly the words of `es`, each with the count of its last pair. */
  ghost predicate LastWins(es: seq<(string, int)>, m: map<string, int>)
  {
    && (forall w :: w in m <==> exists j | 0 <= j < |es| :: es[j].0 == w)
    && (forall j | 0 <= j < |es| ::
          (forall k | j < k < |es| :: es[k].0 != es[j].0) ==> es[j].0 in m && m[es[j].0] == es[j].1)
  }

  /** `m` holds exactly the words of `lines`, each with the count of its last line. */
  ghost predicate LastCounts(lines: seq<string>, m: map<string, int>)
    requires AllParse(lines)
  {
    LastWins(Entries(lines), m)
  }

  lemma LastWinsStep(es: seq<(string, int)>, m: map<string, int>, e: (string, int))
    requires LastWins(es, m)
    ensures LastWins(es + [e], m[e.0 := e.1])
  {
    var es' := es + [e];
    var m' := m[e.0 := e.1];
    forall v ensures v in m' <==> exists j | 0 <= j < |es'| :: es'[j].0 == v {
      if v in m && v != e.0 {
        var j :| 0 <= j < |es| && es[j].0 == v;
        assert es'[j].0 == v;
      }
      if v == e.0 {
        assert es'[|es|].0 == v;
      }
    }
    forall j | 0 <= j < |es'| && (forall k | j < k < |es'| :: es'[k].0 != es'[j].0)
      ensures es'[j].0 in m' && m'[es'[j].0] == es'[j].1
    {
      if j < |es| {
        assert es'[|es|].0 != es'[j].0;
        forall k | j < k < |es| ensures es[k].0 != es[j].0 {
          assert es'[k] == es[k];
        }
      }
    }
  }

  lemma LastCountsStep(lines: seq<string>, m: map<string, int>, line: string)
    requires AllParse(lines) && LastCounts(lines, m)
    requires ParseLine(line).Success?
    ensures AllParse(lines + [line])
    ensures LastCounts(lines + [line], m[ParseLine(line).value.0 := ParseLine(line).value.1])
  {
    var e := ParseLine(line).value;
    assert AllParse(lines + [line]) by {
      forall j | 0 <= j < |lines| + 1 ensures ParseLine((lines + [line])[j]).Success? {
        if j < |lines| { assert (lines + [line])[j] == lines[j]; }
      }
    }
    assert Entries(lines + [line]) == Entries(lines) + [e];
    LastWinsStep(Entries(lines), m, e);
  }

  lemma LinesPrefixStep(lines: seq<string>, i: nat)
    requires i < |lines|
    ensures lines[..i + 1] == lines[..i] + [lines[i]]
  {
  }

  lemma ParseLineError(line: string)
    requires ParseLine(line).Failure?
    ensures ParseLine(line).error == ValueError
  {
  }

  /**
   * The dict comprehension of `_load_wordcounts`: fails with ValueError as soon as one line
   * does not parse, and otherwise maps every word to its last count.
   */
  method LoadWordCounts(lines: seq<string>) returns (r: Result<map<string, int>, Error>)
    ensures r.Success? <==> AllParse(lines)
    ensures r.Failure? ==> r.error == ValueError
    ensures r.Success? ==> LastCounts(lines, r.value)
  {
    var counts: map<string, int> := map[];
    var i := 0;
    while i < |lines|
      invariant 0 <= i <= |lines|
      invariant AllParse(lines[..i])
      invariant LastCounts(lines[..i], counts)
    {
      var parsed := ParseLine(lines[i]);
      if parsed.Failure? {
        ParseLineError(lines[i]);
        return Failure(parsed.error);
      }
      LastCountsStep(lines[..i], counts, lines[i]);
      LinesPrefixStep(lines, i);
      counts := counts[parsed.value.0 := parsed.value.1];
      i := i + 1;
    }
    assert lines[..i] == lines;
    return Success(counts);
  }

  /** Python's `str(n)` for any integer. */
  function IntText(n: int): string
  {
    if n < 0 then "-" + Decimal(-n) else Decimal(n)
  }

  lemma {:induction false} DecimalValue(n: nat)
    ensures DigitPart(Decimal(n)) && DigitsValue(Decimal(n)) == n
  {
    if n >= 10 {
      DecimalValue(n / 10);
      var d := Decimal(n);
      assert d[..|d| - 1] == Decimal(n / 10);
    }
  }

  lemma {:induction false} WordLengthOfWord(w: string, rest: string)
    requires SpaceFree(w)
    requires rest != [] && IsSpace(rest[0])
    ensures WordLength(w + rest) == |w|
  {
    if w != [] {
      WordLengthOfWord(w[1..], rest);
      assert (w + rest)[1..] == w[1..] + rest;
    }
  }

  lemma {:induction false} FieldsOfWord(w: string, rest: string)
    requires w != [] && SpaceFree(w)
    requires rest != [] && IsSpace(rest[0])
    ensures Fields(w + rest) == [w] + Fields(rest)
  {
    WordLengthOfWord(w, rest);
    assert (w + rest)[..|w|] == w && (w + rest)[|w|..] == rest;
  }

  lemma ParseNegative(d: string)
    requires DigitPart(d)
    ensures ParseInt("-" + d) == Some(0 - DigitsValue(d) as int)
  {
    assert ("-" + d)[1..] == d;
  }

  lemma ParseUnsigned(d: string)
    requires DigitPart(d)
    ensures ParseInt(d) == Some(DigitsValue(d))
  {
  }

  lemma ParseIntText(n: int)
    ensures ParseInt(IntText(n)) == Some(n)
  {
    if n < 0 {
      ParseIntTextNegative(-n);
      assert IntText(n) == "-" + Decimal(-n);
    } else {
      ParseIntTextNatural(n);
    }
  }

  lemma ParseIntTextNegative(m: nat)
    ensures ParseInt("-" + Decimal(m)) == Some(0 - m)
  {
    DecimalValue(m);
    ParseNegative(Decimal(m));
  }

  lemma ParseIntTextNatural(n: nat)
    ensures ParseInt(Decimal(n)) == Some(n as int)
  {
    DecimalValue(n);
    ParseUnsigned(Decimal(n));
  }

  lemma IntTextSpaceFree(n: int)
    ensures IntText(n) != [] && SpaceFree(IntText(n))
  {
  }

  lemma FieldsOfCount(c: string)
    requires c != [] && SpaceFree(c)
    ensures Fields(" " + c + "\n") == [c]
  {
    var tail := " " + c + "\n";
    assert tail[1..] == c + "\n";
    assert IsSpace(tail[0]);
    assert Fields(tail) == Fields(c + "\n");
    FieldsOfWord(c, "\n");
    assert Fields("\n") == [];
  }

  lemma FieldsOfLine(word: string, c: string)
    requires word != [] && SpaceFree(word)
    requires c != [] && SpaceFree(c)
    ensures Fields(word + " " + c + "\n") == [word, c]
  {
    var tail := " " + c + "\n";
    assert word + " " + c + "\n" == word + tail;
    FieldsOfWord(word, tail);
    FieldsOfCount(c);
  }

  /** Writing `word count` as a file line and parsing it back gives the pair back. */
  lemma LineRoundTrip(word: string, count: int)
    requires word != [] && SpaceFree(word)
    ensures ParseLine(word + " " + IntText(count) + "\n") == Success((word, count))
  {
    var c := IntText(count);
    IntTextSpaceFree(count);
    FieldsOfLine(word, c);
    ParseIntText(count);
  }
}
