/**
 * Math-span extraction (`LatexToEmailConverter.extract_latex_expressions`).
 *
 * The text is scanned left to right. At each position the four delimiter pairs
 * are tried in priority order: `$$ … $$` and `\[ … \]` (display), then
 * `\( … \)` and `$ … $` (inline). The first pair whose opener stands at the
 * position and whose closer occurs somewhere after the opener wins; the span
 * ends at the NEAREST such closer and the scan resumes right after it. A
 * position where no pair can open is skipped.
 */
module Extractor {
  import opened Wrappers
  import opened Text

  datatype Delim = DisplayDollar | DisplayBracket | InlineParen | InlineDollar

  function Open(d: Delim): (s: string)
    ensures 0 < |s| <= 2
  {
    match d
    case DisplayDollar => "$$"
    case DisplayBracket => "\\["
    case InlineParen => "\\("
    case InlineDollar => "$"
  }

  function Close(d: Delim): (s: string)
    ensures 0 < |s| <= 2
  {
    match d
    case DisplayDollar => "$$"
    case DisplayBracket => "\\]"
    case InlineParen => "\\)"
    case InlineDollar => "$"
  }

  predicate IsDisplay(d: Delim)
  {
    d == DisplayDollar || d == DisplayBracket
  }

  /** The order in which the pairs are tried at one position: `$$` before `$`. */
  const Priority: seq<Delim> := [DisplayDollar, DisplayBracket, InlineParen, InlineDollar]

  /** Rank of a pair in the priority order. */
  function Rank(d: Delim): (j: nat)
    ensures j < |Priority| && Priority[j] == d
  {
    match d
    case DisplayDollar => 0
    case DisplayBracket => 1
    case InlineParen => 2
    case InlineDollar => 3
  }

  /**
   * One extracted expression: the half-open range [start, end) of the source
   * text it occupies, delimiters included; the text between the delimiters;
   * and whether it is display math. Python returns the triple
   * (text[start..end], content, isDisplay).
   */
  datatype Span = Span(start: nat, end: nat, content: string, isDisplay: bool)

  /** Character `c` stands at index `i` of `s`. */
  predicate CharAt(s: string, i: nat, c: char)
  {
    i < |s| && s[i] == c
  }

  /** The opener of `d` stands at `i`. */
  predicate OpenerAt(text: string, i: nat, d: Delim)
  {
    match d
    case DisplayDollar => CharAt(text, i, '$') && CharAt(text, i + 1, '$')
    case DisplayBracket => CharAt(text, i, '\\') && CharAt(text, i + 1, '[')
    case InlineParen => CharAt(text, i, '\\') && CharAt(text, i + 1, '(')
    case InlineDollar => CharAt(text, i, '$')
  }

  /** The closer of `d` stands at `k`. */
  predicate CloserAt(text: string, k: nat, d: Delim)
  {
    match d
    case DisplayDollar => CharAt(text, k, '$') && CharAt(text, k + 1, '$')
    case DisplayBracket => CharAt(text, k, '\\') && CharAt(text, k + 1, ']')
    case InlineParen => CharAt(text, k, '\\') && CharAt(text, k + 1, ')')
    case InlineDollar => CharAt(text, k, '$')
  }

  /** OpenerAt and CloserAt are occurrences of the delimiter strings. */
  lemma DelimiterAt(text: string, i: nat, d: Delim)
    ensures OpenerAt(text, i, d) <==> StartsAt(text, i, Open(d))
    ensures CloserAt(text, i, d) <==> StartsAt(text, i, Close(d))
  {
    if i + 2 <= |text| {
      assert text[i..i + 2] == [text[i], text[i + 1]];
    }
    if i + 1 <= |text| {
      assert text[i..i + 1] == [text[i]];
    }
  }

  /** The nearest position at or after `from` where the closer of `d` stands. */
  function FindCloser(text: string, d: Delim, from: nat): (r: Option<nat>)
    ensures r.Some? ==> from <= r.value && r.value + |Close(d)| <= |text|
    decreases |text| - from
  {
    if from >= |text| then None
    else if CloserAt(text, from, d) then Some(from)
    else FindCloser(text, d, from + 1)
  }

  /** FindCloser yields the nearest closer at or after `from`, or None when there is none. */
  lemma {:induction false} FindCloserSpec(text: string, d: Delim, from: nat)
    ensures var r := FindCloser(text, d, from);
      (r.Some? ==> CloserAt(text, r.value, d) && forall k :: from <= k < r.value ==> !CloserAt(text, k, d)) &&
      (r.None? ==> forall k :: from <= k ==> !CloserAt(text, k, d))
    decreases |text| - from
  {
    if from < |text| && !CloserAt(text, from, d) {
      FindCloserSpec(text, d, from + 1);
    }
  }

  /**
   * FindCloser is the substring search for the closer's text, specialised to
   * the delimiter characters.
   */
  lemma FindCloserFind(text: string, d: Delim, from: nat)
    ensures FindCloser(text, d, from) == FindFrom(text, Close(d), from)
  {
    FindCloserSpec(text, d, from);
    forall k | from <= k
      ensures CloserAt(text, k, d) <==> StartsAt(text, k, Close(d))
    {
      DelimiterAt(text, k, d);
    }
    var f := FindFrom(text, Close(d), from);
    if f.Some? {
      FindFromFirst(text, Close(d), from, f.value);
    }
    var r := FindCloser(text, d, from);
    if r.Some? {
      FindFromFirst(text, Close(d), from, r.value);
    }
  }

  /** Pair `d` can open a span at `i`: its opener stands at `i` and its closer occurs after the opener. */
  predicate Opens(text: string, i: nat, d: Delim)
  {
    OpenerAt(text, i, d) &&
    exists k: nat | k <= |text| :: i + |Open(d)| <= k && CloserAt(text, k, d)
  }

  /**
   * `m` is the span that pair `d` delimits: the opener at the start, the
   * content verbatim, the closer at the end, and no closer of `d` anywhere
   * inside the content (the nearest closer ends the span).
   */
  predicate Delimits(text: string, m: Span, d: Delim)
  {
    m.start + |Open(d)| + |m.content| + |Close(d)| == m.end <= |text| &&
    OpenerAt(text, m.start, d) && CloserAt(text, m.end - |Close(d)|, d) &&
    m.content == text[m.start + |Open(d)|..m.end - |Close(d)|] &&
    m.isDisplay == IsDisplay(d) &&
    forall k :: m.start + |Open(d)| <= k < m.end - |Close(d)| ==> !CloserAt(text, k, d)
  }

  /** The text a delimited span occupies is the opener, the content and the closer. */
  lemma DelimitsText(text: string, m: Span, d: Delim)
    requires Delimits(text, m, d)
    ensures text[m.start..m.end] == Open(d) + m.content + Close(d)
  {
    DelimiterAt(text, m.start, d);
    DelimiterAt(text, m.end - |Close(d)|, d);
    Framed(text, m.start, m.end, Open(d), m.content, Close(d));
  }

  /** A stretch that begins with `open` and ends with `close` is `open`, the middle, and `close`. */
  lemma Framed(text: string, start: nat, end: nat, open: string, middle: string, close: string)
    requires start + |open| + |middle| + |close| == end <= |text|
    requires StartsAt(text, start, open) && StartsAt(text, end - |close|, close)
    requires middle == text[start + |open|..end - |close|]
    ensures text[start..end] == open + middle + close
  {
    SliceSplit(text, start, start + |open|, end - |close|, end);
  }

  lemma SliceSplit(s: string, a: nat, b: nat, c: nat, e: nat)
    requires a <= b <= c <= e <= |s|
    ensures s[a..e] == s[a..b] + s[b..c] + s[c..e]
  {
  }

  /** The span pair `d` yields at `i`, if it can open there. */
  function TryDelim(text: string, i: nat, d: Delim): (r: Option<Span>)
    ensures r.Some? ==> r.value.start == i && i + |Open(d)| + |Close(d)| <= r.value.end <= |text|
  {
    var body := i + |Open(d)|;
    if !OpenerAt(text, i, d) then None
    else match FindCloser(text, d, body)
      case None => None
      case Some(k) => Some(Span(i, k + |Close(d)|, text[body..k], IsDisplay(d)))
  }

  /** TryDelim finds a span exactly when the pair can open there, and that span is the one the pair delimits. */
  lemma TryDelimSpec(text: string, i: nat, d: Delim)
    ensures TryDelim(text, i, d).Some? <==> Opens(text, i, d)
    ensures TryDelim(text, i, d).Some? ==> Delimits(text, TryDelim(text, i, d).value, d)
  {
    var body := i + |Open(d)|;
    if OpenerAt(text, i, d) {
      FindCloserSpec(text, d, body);
      var f := FindCloser(text, d, body);
      if f.Some? {
        assert f.value <= |text| && body <= f.value && CloserAt(text, f.value, d);
      }
    }
  }

  /** The span that starts at `i`, if any: the first pair in priority order that can open there. */
  function MatchAt(text: string, i: nat): (r: Option<Span>)
    ensures r.Some? ==> r.value.start == i < r.value.end <= |text|
  {
    var a := TryDelim(text, i, DisplayDollar);
    if a.Some? then a else
    var b := TryDelim(text, i, DisplayBracket);
    if b.Some? then b else
    var c := TryDelim(text, i, InlineParen);
    if c.Some? then c else
    TryDelim(text, i, InlineDollar)
  }

  /** No span starts at `i` exactly when no pair can open there. */
  lemma MatchAtNone(text: string, i: nat)
    ensures MatchAt(text, i).None? <==> forall d :: !Opens(text, i, d)
  {
    TryDelimSpec(text, i, DisplayDollar);
    TryDelimSpec(text, i, DisplayBracket);
    TryDelimSpec(text, i, InlineParen);
    TryDelimSpec(text, i, InlineDollar);
  }

  /**
   * A span found at `i` is the one delimited by the highest-priority pair that
   * can open there; in particular `$$` followed by a `$$` closer is never read
   * as an empty `$` span.
   */
  lemma MatchAtSome(text: string, i: nat)
    requires MatchAt(text, i).Some?
    ensures exists d :: (Delimits(text, MatchAt(text, i).value, d) &&
      Opens(text, i, d) && forall e :: Rank(e) < Rank(d) ==> !Opens(text, i, e))
  {
    TryDelimSpec(text, i, DisplayDollar);
    TryDelimSpec(text, i, DisplayBracket);
    TryDelimSpec(text, i, InlineParen);
    TryDelimSpec(text, i, InlineDollar);
    var m := MatchAt(text, i).value;
    if TryDelim(text, i, DisplayDollar).Some? {
      assert Delimits(text, m, DisplayDollar);
    } else if TryDelim(text, i, DisplayBracket).Some? {
      assert Delimits(text, m, DisplayBracket);
    } else if TryDelim(text, i, InlineParen).Some? {
      assert Delimits(text, m, InlineParen);
    } else {
      assert Delimits(text, m, InlineDollar);
    }
  }

  /** The spans found by scanning from position `i` on. */
  function Scan(text: string, i: nat): seq<Span>
    decreases |text| - i
  {
    if i >= |text| then []
    else match MatchAt(text, i)
      case None => Scan(text, i + 1)
      case Some(m) => [m] + Scan(text, m.end)
  }

  /** Reference definition of `extract_latex_expressions`. */
  function Extract(text: string): seq<Span>
  {
    Scan(text, 0)
  }

  /**
   * `extract_latex_expressions`: walks the text once with a position that
   * either skips one character or jumps past the closer of the span found.
   */
  method ExtractLatexExpressions(text: string) returns (spans: seq<Span>)
    ensures spans == Extract(text)
  {
    spans := [];
    var pos := 0;
    while pos < |text|
      invariant spans + Scan(text, pos) == Extract(text)
      decreases |text| - pos
    {
      match MatchAt(text, pos)
      case None =>
        pos := pos + 1;
      case Some(m) =>
        spans := spans + [m];
        pos := m.end;
    }
  }

  /** Spans lie inside the text, in strictly increasing order, and never overlap. */
  predicate Ordered(text: string, spans: seq<Span>)
  {
    (forall a :: 0 <= a < |spans| ==> spans[a].start < spans[a].end <= |text|) &&
    (forall a, b :: 0 <= a < b < |spans| ==> spans[a].end <= spans[b].start)
  }

  /** Position `p` lies inside one of the spans. */
  predicate Covered(spans: seq<Span>, p: nat)
  {
    exists a :: 0 <= a < |spans| && spans[a].start <= p < spans[a].end
  }

  /** The spans found from `i` on are ordered, disjoint and start no earlier than `i`. */
  lemma {:induction false} ScanOrdered(text: string, i: nat)
    ensures Ordered(text, Scan(text, i))
    ensures forall a :: 0 <= a < |Scan(text, i)| ==> i <= Scan(text, i)[a].start
    decreases |text| - i
  {
    if i < |text| {
      match MatchAt(text, i)
      case None =>
        ScanOrdered(text, i + 1);
      case Some(m) =>
        var rest := Scan(text, m.end);
        ScanOrdered(text, m.end);
        ConsOrdered(text, m, rest);
        assert Scan(text, i) == [m] + rest;
    }
  }

  /** Each span found from `i` on is the one the matcher yields at its start. */
  lemma {:induction false} ScanMatches(text: string, i: nat)
    ensures forall a :: 0 <= a < |Scan(text, i)| ==> MatchAt(text, Scan(text, i)[a].start) == Some(Scan(text, i)[a])
    decreases |text| - i
  {
    if i < |text| {
      match MatchAt(text, i)
      case None =>
        ScanMatches(text, i + 1);
        assert Scan(text, i) == Scan(text, i + 1);
      case Some(m) =>
        var rest := Scan(text, m.end);
        ScanMatches(text, m.end);
        assert Scan(text, i) == [m] + rest;
        forall a | 1 <= a < |rest| + 1
          ensures MatchAt(text, ([m] + rest)[a].start) == Some(([m] + rest)[a])
        {
          var r := rest[a - 1];
          assert MatchAt(text, r.start) == Some(r);
          assert ([m] + rest)[a] == r;
        }
    }
  }

  /**
   * Soundness of the scan: the spans are ordered and disjoint, start no earlier
   * than `i`, and each is exactly the span the matcher yields at its start.
   */
  lemma ScanSound(text: string, i: nat)
    ensures var spans := Scan(text, i);
      Ordered(text, spans) &&
      (forall a :: 0 <= a < |spans| ==> i <= spans[a].start && MatchAt(text, spans[a].start) == Some(spans[a]))
  {
    ScanOrdered(text, i);
    ScanMatches(text, i);
  }

  /** A span in front of ordered spans that start after it keeps them ordered. */
  lemma ConsOrdered(text: string, m: Span, rest: seq<Span>)
    requires m.start < m.end <= |text| && Ordered(text, rest)
    requires forall a :: 0 <= a < |rest| ==> m.end <= rest[a].start
    ensures Ordered(text, [m] + rest)
  {
    var s := [m] + rest;
    forall a, b | 0 <= a < b < |s|
      ensures s[a].end <= s[b].start
    {
      assert s[b] == rest[b - 1];
      if a > 0 {
        assert s[a] == rest[a - 1];
      }
    }
  }

  /** The extracted spans are ordered, disjoint and inside the text. */
  lemma ExtractOrdered(text: string)
    ensures Ordered(text, Extract(text))
  {
    ScanOrdered(text, 0);
  }

  /**
   * Completeness of the scan: every position from `i` on where a span could
   * start lies inside one of the spans found (possibly one that began earlier).
   */
  lemma {:induction false} ScanComplete(text: string, i: nat, p: nat)
    requires i <= p && MatchAt(text, p).Some?
    ensures Covered(Scan(text, i), p)
    decreases |text| - i
  {
    if MatchAt(text, i).None? {
      if p == i {
        assert false;
      }
      ScanComplete(text, i + 1, p);
      ScanSkip(text, i);
    } else {
      var m := MatchAt(text, i).value;
      if m.end <= p {
        ScanComplete(text, m.end, p);
      }
      ScanTake(text, i, p);
    }
  }

  /** Where no span starts at `i`, the scan from `i` is the scan from `i + 1`. */
  lemma ScanSkip(text: string, i: nat)
    requires i < |text| && MatchAt(text, i).None?
    ensures Scan(text, i) == Scan(text, i + 1)
  {
  }

  /** Where a span starts at `i`, it covers the positions up to its end, and later positions are covered as in the rest. */
  lemma ScanTake(text: string, i: nat, p: nat)
    requires i <= p && MatchAt(text, i).Some?
    requires MatchAt(text, i).value.end <= p ==> Covered(Scan(text, MatchAt(text, i).value.end), p)
    ensures Covered(Scan(text, i), p)
  {
    var m := MatchAt(text, i).value;
    var rest := Scan(text, m.end);
    assert Scan(text, i) == [m] + rest;
    if p < m.end {
      assert Scan(text, i)[0] == m;
    } else {
      var a :| 0 <= a < |rest| && rest[a].start <= p < rest[a].end;
      assert Scan(text, i)[a + 1] == rest[a];
    }
  }

  /** Extraction finds nothing exactly when no pair can open anywhere in the text. */
  lemma ExtractEmpty(text: string)
    ensures Extract(text) == [] <==> forall p: nat, d :: !Opens(text, p, d)
  {
    if Extract(text) == [] {
      forall p: nat, d | Opens(text, p, d) ensures false {
        MatchAtNone(text, p);
        ScanComplete(text, 0, p);
      }
    } else {
      ScanSound(text, 0);
      var m := Extract(text)[0];
      MatchAtNone(text, m.start);
    }
  }

  /** Text with neither `$` nor a backslash holds no math: every opener starts with one of them. */
  lemma NoDelimiterCharacters(text: string)
    requires '$' !in text && '\\' !in text
    ensures Extract(text) == []
  {
    ExtractEmpty(text);
  }
}
