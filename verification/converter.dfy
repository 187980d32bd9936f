/**
 * The substitution stage of `LatexToEmailConverter`: `process_text` renders
 * every extracted span through the external LaTeX toolchain, replaces the span
 * (delimiters included) by the token `{{LATEX_IMG_<i>}}`, and collects the
 * rendered bytes under the key `LATEX_IMG_<i>`. The first rendering failure
 * aborts the whole call.
 */
module Converter {
  import opened Wrappers
  import opened Text
  import opened Placeholders
  import opened Extractor

  /**
   * What the external toolchain yields for one expression: an image, a LaTeX
   * compilation failure, or a failure of dvipng turning the compiled page
   * into a PNG.
   */
  datatype Rendered = Image(png: Bytes) | CompileFailed(log: string) | RasterFailed(log: string)

  /** The `RuntimeError` raised when an expression cannot be rendered. */
  datatype ConvertError =
    | CompilationFailed(expression: string, reason: string)
    | RasterizationFailed(expression: string, reason: string)

  const FailurePrefix: string := "LaTeX compilation failed"
  const RasterPrefix: string := "dvipng failed"
  const RasterTool: string := "dvipng"

  /**
   * The text of the raised error: a compilation failure says so, a
   * rasterization failure names dvipng instead.
   */
  function Message(e: ConvertError): (m: string)
    ensures e.CompilationFailed? ==> Contains(m, FailurePrefix)
    ensures e.RasterizationFailed? ==> Contains(m, RasterTool) && !Contains(m, FailurePrefix)
  {
    match e
    case CompilationFailed(_, reason) =>
      var m := FailurePrefix + ": " + reason;
      assert StartsAt(m, 0, FailurePrefix) by { assert m[0..|FailurePrefix|] == FailurePrefix; }
      m
    case RasterizationFailed(_, _) =>
      assert StartsAt(RasterPrefix, 0, RasterTool) by { assert RasterPrefix[0..|RasterTool|] == RasterTool; }
      MissingChar(RasterPrefix, FailurePrefix, 'L');
      RasterPrefix
  }

  /**
   * `latex_to_image`: the image bytes of one expression, or the error of the
   * stage that failed, carrying that expression.
   */
  function LatexToImage(render: string -> Rendered, expression: string): (r: Result<Bytes, ConvertError>)
    ensures r.Ok? <==> render(expression).Image?
    ensures r.Ok? ==> r.value == render(expression).png
    ensures r.Err? ==> r.error.expression == expression
    ensures render(expression).CompileFailed? ==>
      r == Err(CompilationFailed(expression, render(expression).log)) && Contains(Message(r.error), FailurePrefix)
    ensures render(expression).RasterFailed? ==>
      r == Err(RasterizationFailed(expression, render(expression).log)) && Contains(Message(r.error), RasterTool)
  {
    match render(expression)
    case Image(png) => Ok(png)
    case CompileFailed(log) => Err(CompilationFailed(expression, log))
    case RasterFailed(log) => Err(RasterizationFailed(expression, log))
  }

  /** Spans in order inside `text`, none starting before `from`. */
  predicate Fits(text: string, spans: seq<Span>, from: nat)
  {
    from <= |text| && Ordered(text, spans) &&
    forall a :: 0 <= a < |spans| ==> from <= spans[a].start
  }

  lemma FitsTail(text: string, spans: seq<Span>, from: nat)
    requires Fits(text, spans, from) && |spans| > 0
    ensures Fits(text, spans[1..], spans[0].end)
  {
    forall a | 0 <= a < |spans| - 1
      ensures spans[1..][a] == spans[a + 1] && spans[0].end <= spans[a + 1].start
    {
    }
  }

  /**
   * The processed text from `from` on: the text with each span replaced by
   * the token of its index, counting from `n`.
   */
  function Substituted(text: string, spans: seq<Span>, from: nat, n: nat): string
    requires Fits(text, spans, from)
    decreases |spans|
  {
    if spans == [] then text[from..]
    else
      FitsTail(text, spans, from);
      text[from..spans[0].start] + Token(n) + Substituted(text, spans[1..], spans[0].end, n + 1)
  }

  /** The processed text that `process_text` returns for `text`. */
  function Processed(text: string): string
  {
    ExtractOrdered(text);
    Substituted(text, Extract(text), 0, 0)
  }

  /** The stretches of `text` before, between and after the spans. */
  function Gaps(text: string, spans: seq<Span>, from: nat): (g: seq<string>)
    requires Fits(text, spans, from)
    ensures |g| == |spans| + 1
    decreases |spans|
  {
    if spans == [] then [text[from..]]
    else
      FitsTail(text, spans, from);
      [text[from..spans[0].start]] + Gaps(text, spans[1..], spans[0].end)
  }

  /** The source of each span, delimiters included. */
  function Sources(text: string, spans: seq<Span>): (s: seq<string>)
    requires Ordered(text, spans)
    ensures |s| == |spans|
    ensures forall a :: 0 <= a < |spans| ==> s[a] == text[spans[a].start..spans[a].end]
  {
    seq(|spans|, a requires 0 <= a < |spans| => text[spans[a].start..spans[a].end])
  }

  /** The processed text keeps every gap and puts the i-th token between gap i and gap i+1. */
  lemma {:induction false} SubstitutedWeave(text: string, spans: seq<Span>, from: nat, n: nat)
    requires Fits(text, spans, from)
    ensures Substituted(text, spans, from, n) == Weave(Gaps(text, spans, from), Tokens(n, |spans|))
    decreases |spans|
  {
    if spans != [] {
      FitsTail(text, spans, from);
      SubstitutedWeave(text, spans[1..], spans[0].end, n + 1);
      assert Tokens(n, |spans|)[1..] == Tokens(n + 1, |spans| - 1);
    }
  }

  /**
   * The original text has the same gaps with each span's source between them:
   * putting the sources back where the tokens stand gives the text again.
   */
  lemma {:induction false} TextWeave(text: string, spans: seq<Span>, from: nat)
    requires Fits(text, spans, from)
    ensures text[from..] == Weave(Gaps(text, spans, from), Sources(text, spans))
    decreases |spans|
  {
    if spans != [] {
      var m := spans[0];
      FitsTail(text, spans, from);
      TextWeave(text, spans[1..], m.end);
      assert Sources(text, spans)[1..] == Sources(text, spans[1..]);
      assert text[from..] == text[from..m.start] + text[m.start..m.end] + text[m.end..];
    }
  }

  /** The prose of `text`: the stretches before, between and after its spans. */
  function TextGaps(text: string): (g: seq<string>)
    ensures |g| == |Extract(text)| + 1
  {
    ExtractOrdered(text);
    Gaps(text, Extract(text), 0)
  }

  /** The processed text is the prose of `text` with the i-th token between stretches i and i+1. */
  lemma ProcessedWeave(text: string)
    ensures Processed(text) == Weave(TextGaps(text), Tokens(0, |Extract(text)|))
  {
    ExtractOrdered(text);
    SubstitutedWeave(text, Extract(text), 0, 0);
  }

  /** The processed text holds the token of every span. */
  lemma ProcessedTokens(text: string, a: nat)
    requires a < |Extract(text)|
    ensures Contains(Processed(text), Token(a))
  {
    var spans := Extract(text);
    ExtractOrdered(text);
    SubstitutedWeave(text, spans, 0, 0);
    WeaveContains(Gaps(text, spans, 0), Tokens(0, |spans|), a);
  }

  /** Text without spans comes back unchanged. */
  lemma ProcessedPlain(text: string)
    requires Extract(text) == []
    ensures Processed(text) == text
  {
  }

  /**
   * The spans of `spans` are all the spans from `from` on: at every position
   * they leave uncovered, no span could start.
   */
  ghost predicate Complete(text: string, spans: seq<Span>, from: nat)
  {
    forall p: nat :: from <= p && !Covered(spans, p) ==> MatchAt(text, p).None?
  }

  /** Completeness carries over to the spans after the first one. */
  lemma CompleteTail(text: string, spans: seq<Span>, from: nat)
    requires Fits(text, spans, from) && |spans| > 0 && Complete(text, spans, from)
    ensures Complete(text, spans[1..], spans[0].end)
  {
    forall p: nat | spans[0].end <= p && !Covered(spans[1..], p)
      ensures MatchAt(text, p).None?
    {
    }
  }

  /** No pair can open in the prose before the first span, when the spans are complete. */
  lemma GapClear(text: string, spans: seq<Span>, from: nat, p: nat, d: Delim)
    requires Fits(text, spans, from) && Complete(text, spans, from)
    ensures from <= p && (spans == [] || p < spans[0].start) ==> !Opens(text, p, d)
  {
    MatchAtNone(text, p);
  }

  /** A token holds neither `$` nor a backslash, so no opener or closer starts in one. */
  lemma NotInToken(s: string, k: nat, n: nat, r: nat, d: Delim)
    ensures r < |Token(n)| && k < |s| && s[k] == Token(n)[r] ==> !OpenerAt(s, k, d) && !CloserAt(s, k, d)
  {
    if r < |Token(n)| {
      TokenChars(n);
      assert Token(n)[r] in Token(n);
    }
  }

  /**
   * An opener or closer that starts in the prose before a token lies wholly in
   * that prose, since no delimiter has `{` as its second character.
   */
  lemma FrontDelim(text: string, from: nat, start: nat, r: string, k: nat, d: Delim)
    requires from <= start <= |text| && k < start - from && |r| > 0 && r[0] == '{'
    ensures OpenerAt(text[from..start] + r, k, d) ==> OpenerAt(text, from + k, d) && from + k + |Open(d)| <= start
    ensures CloserAt(text[from..start] + r, k, d) ==> CloserAt(text, from + k, d)
  {
    var s := text[from..start] + r;
    assert s[k] == text[from + k];
    if k + 1 < start - from {
      assert s[k + 1] == text[from + k + 1];
    } else {
      assert s[k + 1] == '{';
    }
  }

  /** Openers and closers in the rest of the text stand in the text. */
  lemma TailDelim(text: string, from: nat, k: nat, d: Delim)
    requires from <= |text|
    ensures OpenerAt(text[from..], k, d) ==> OpenerAt(text, from + k, d)
    ensures CloserAt(text[from..], k, d) ==> CloserAt(text, from + k, d)
  {
    if k < |text| - from {
      assert text[from..][k] == text[from + k];
    }
    if k + 1 < |text| - from {
      assert text[from..][k + 1] == text[from + k + 1];
    }
  }

  /** Openers and closers in the second half of a concatenation are those of the second half. */
  lemma BackDelim(a: string, b: string, k: nat, d: Delim)
    ensures OpenerAt(a + b, |a| + k, d) <==> OpenerAt(b, k, d)
    ensures CloserAt(a + b, |a| + k, d) <==> CloserAt(b, k, d)
  {
  }

  /**
   * In prose followed by a token and more text, an opener stands wholly in the
   * prose or wholly in the text after the token.
   */
  lemma OpenerInFront(text: string, from: nat, start: nat, n: nat, rest: string, q: nat, d: Delim)
    requires from <= start <= |text| && OpenerAt(text[from..start] + (Token(n) + rest), q, d)
    ensures q < start - from + |Token(n)| ==> from + q + |Open(d)| <= start && OpenerAt(text, from + q, d)
    ensures start - from + |Token(n)| <= q ==> OpenerAt(rest, q - (start - from + |Token(n)|), d)
  {
    var g, t := text[from..start], Token(n);
    var s := g + (t + rest);
    TokenDigits(n);
    if q < |g| {
      FrontDelim(text, from, start, t + rest, q, d);
    } else {
      NotInToken(s, q, n, q - |g|, d);
      if |g| + |t| <= q {
        assert s == (g + t) + rest;
        BackDelim(g + t, rest, q - |g| - |t|, d);
      }
    }
  }

  /** The same for a closer. */
  lemma CloserInFront(text: string, from: nat, start: nat, n: nat, rest: string, k: nat, d: Delim)
    requires from <= start <= |text| && CloserAt(text[from..start] + (Token(n) + rest), k, d)
    ensures k < start - from + |Token(n)| ==> from + k < start && CloserAt(text, from + k, d)
    ensures start - from + |Token(n)| <= k ==> CloserAt(rest, k - (start - from + |Token(n)|), d)
  {
    var g, t := text[from..start], Token(n);
    var s := g + (t + rest);
    TokenDigits(n);
    if k < |g| {
      FrontDelim(text, from, start, t + rest, k, d);
    } else {
      NotInToken(s, k, n, k - |g|, d);
      if |g| + |t| <= k {
        assert s == (g + t) + rest;
        BackDelim(g + t, rest, k - |g| - |t|, d);
      }
    }
  }

  /** The processed text splits into the prose before the first span, its token, and the rest. */
  lemma SubstitutedCons(text: string, spans: seq<Span>, from: nat, n: nat)
    requires Fits(text, spans, from) && |spans| > 0
    ensures Fits(text, spans[1..], spans[0].end)
    ensures Substituted(text, spans, from, n) ==
      text[from..spans[0].start] + (Token(n) + Substituted(text, spans[1..], spans[0].end, n + 1))
  {
    FitsTail(text, spans, from);
  }

  /** A closer in the processed text stands in its prose, so the original text has one too. */
  lemma {:induction false} SubstitutedCloser(text: string, spans: seq<Span>, from: nat, n: nat, k: nat, d: Delim)
    requires Fits(text, spans, from) && CloserAt(Substituted(text, spans, from, n), k, d)
    ensures exists j: nat :: from <= j && CloserAt(text, j, d)
    decreases |spans|
  {
    if spans == [] {
      TailDelim(text, from, k, d);
      assert CloserAt(text, from + k, d);
    } else {
      var m := spans[0];
      SubstitutedCons(text, spans, from, n);
      var rest := Substituted(text, spans[1..], m.end, n + 1);
      CloserInFront(text, from, m.start, n, rest, k, d);
      var off := m.start - from + |Token(n)|;
      if k < off {
        assert CloserAt(text, from + k, d);
      } else {
        SubstitutedCloser(text, spans[1..], m.end, n + 1, k - off, d);
        var j: nat :| m.end <= j && CloserAt(text, j, d);
        assert from <= j;
      }
    }
  }

  /**
   * A pair opening in the prose before the first token of the processed text,
   * with a closer after it, opens at the same place in the text.
   */
  lemma FrontOpens(text: string, spans: seq<Span>, from: nat, n: nat, q: nat, k: nat, d: Delim)
    requires Fits(text, spans, from) && |spans| > 0
    requires OpenerAt(text, from + q, d) && from + q + |Open(d)| <= spans[0].start
    requires q + |Open(d)| <= k && CloserAt(Substituted(text, spans, from, n), k, d)
    ensures Opens(text, from + q, d)
  {
    var m := spans[0];
    SubstitutedCons(text, spans, from, n);
    var rest := Substituted(text, spans[1..], m.end, n + 1);
    CloserInFront(text, from, m.start, n, rest, k, d);
    var off := m.start - from + |Token(n)|;
    if k < off {
      assert CloserAt(text, from + k, d) && from + k <= |text|;
    } else {
      SubstitutedCloser(text, spans[1..], m.end, n + 1, k - off, d);
      var j: nat :| m.end <= j && CloserAt(text, j, d);
      assert j <= |text| && from + q + |Open(d)| <= j;
    }
  }

  /** A pair opening after a prefix of a string opens at the same place after it. */
  lemma ShiftOpens(g: string, rest: string, q: nat, d: Delim)
    requires |g| <= q
    ensures Opens(g + rest, q, d) ==> Opens(rest, q - |g|, d)
  {
    if Opens(g + rest, q, d) {
      var k: nat :| k <= |g + rest| && q + |Open(d)| <= k && CloserAt(g + rest, k, d);
      BackDelim(g, rest, q - |g|, d);
      BackDelim(g, rest, k - |g|, d);
      assert k - |g| <= |rest|;
    }
  }

  /**
   * A pair that opens in the processed text before the end of the first token
   * opens in the prose before the first span, at the same place.
   */
  lemma FrontOpensBack(text: string, spans: seq<Span>, from: nat, n: nat, q: nat, d: Delim)
    requires Fits(text, spans, from) && |spans| > 0
    requires q < spans[0].start - from + |Token(n)|
    ensures Opens(Substituted(text, spans, from, n), q, d) ==> from + q < spans[0].start && Opens(text, from + q, d)
  {
    var s := Substituted(text, spans, from, n);
    if Opens(s, q, d) {
      var k: nat :| k <= |s| && q + |Open(d)| <= k && CloserAt(s, k, d);
      var m := spans[0];
      SubstitutedCons(text, spans, from, n);
      OpenerInFront(text, from, m.start, n, Substituted(text, spans[1..], m.end, n + 1), q, d);
      FrontOpens(text, spans, from, n, q, k, d);
    }
  }

  /** No pair opens in the processed text before the end of the first token. */
  lemma FrontNoOpens(text: string, spans: seq<Span>, from: nat, n: nat, q: nat, d: Delim)
    requires Fits(text, spans, from) && Complete(text, spans, from) && |spans| > 0
    requires q < spans[0].start - from + |Token(n)|
    ensures !Opens(Substituted(text, spans, from, n), q, d)
  {
    FrontOpensBack(text, spans, from, n, q, d);
    GapClear(text, spans, from, from + q, d);
  }

  /** No pair opens in the rest of the text when the spans are complete. */
  lemma PlainNoOpens(text: string, from: nat, q: nat, d: Delim)
    requires from <= |text| && Complete(text, [], from)
    ensures !Opens(text[from..], q, d)
  {
    if Opens(text[from..], q, d) {
      var k: nat :| k <= |text| - from && q + |Open(d)| <= k && CloserAt(text[from..], k, d);
      TailDelim(text, from, q, d);
      TailDelim(text, from, k, d);
      assert Opens(text, from + q, d);
      GapClear(text, [], from, from + q, d);
      assert false;
    }
  }

  /**
   * Where the spans are all the spans from `from` on, no pair can open in the
   * processed text: every `$` or backslash left there stands in prose where
   * no span could start.
   */
  lemma {:induction false} SubstitutedNoOpens(text: string, spans: seq<Span>, from: nat, n: nat, q: nat, d: Delim)
    requires Fits(text, spans, from) && Complete(text, spans, from)
    ensures !Opens(Substituted(text, spans, from, n), q, d)
    decreases |spans|
  {
    if spans == [] {
      PlainNoOpens(text, from, q, d);
    } else {
      var m := spans[0];
      SubstitutedCons(text, spans, from, n);
      var g, t, rest := text[from..m.start], Token(n), Substituted(text, spans[1..], m.end, n + 1);
      if q < |g| + |t| {
        FrontNoOpens(text, spans, from, n, q, d);
      } else {
        assert g + (t + rest) == (g + t) + rest;
        ShiftOpens(g + t, rest, q, d);
        CompleteTail(text, spans, from);
        SubstitutedNoOpens(text, spans[1..], m.end, n + 1, q - |g| - |t|, d);
      }
    }
  }

  /** The processed text holds no math any more: extracting from it again finds no span. */
  lemma ProcessedNoMath(text: string)
    ensures Extract(Processed(text)) == []
  {
    var spans := Extract(text);
    ExtractOrdered(text);
    forall p: nat | !Covered(spans, p)
      ensures MatchAt(text, p).None?
    {
      if MatchAt(text, p).Some? {
        ScanComplete(text, 0, p);
        assert false;
      }
    }
    forall q: nat, d: Delim
      ensures !Opens(Processed(text), q, d)
    {
      SubstitutedNoOpens(text, spans, 0, 0, q, d);
    }
    ExtractEmpty(Processed(text));
  }

  /** A delimited source found in a string is a place where its pair opens. */
  lemma SourceOpens(s: string, i: nat, d: Delim, content: string)
    requires StartsAt(s, i, Open(d) + content + Close(d))
    ensures Opens(s, i, d)
  {
    StartsAtParts(s, i, Open(d), content, Close(d));
    DelimiterAt(s, i, d);
    DelimiterAt(s, i + |Open(d)| + |content|, d);
  }

  /** No span's source, delimiters included, is left in the processed text. */
  lemma ProcessedDropsSources(text: string, a: nat)
    requires a < |Extract(text)|
    ensures var m := Extract(text)[a];
      m.start < m.end <= |text| && !Contains(Processed(text), text[m.start..m.end])
  {
    var m := Extract(text)[a];
    var p := Processed(text);
    ScanSound(text, 0);
    MatchAtSome(text, m.start);
    var d :| Delimits(text, m, d);
    DelimitsText(text, m, d);
    ProcessedNoMath(text);
    ExtractEmpty(p);
    if Contains(p, text[m.start..m.end]) {
      var i: nat :| i <= |p| && StartsAt(p, i, text[m.start..m.end]);
      SourceOpens(p, i, d, m.content);
      assert false;
    }
  }

  /** No brace in the prose of `text`, so nothing outside its spans reads as a token. */
  predicate PlainProse(text: string)
  {
    forall i :: 0 <= i < |TextGaps(text)| ==> '{' !in TextGaps(text)[i]
  }

  /**
   * When the prose has no `{`, the token of span `a` occurs in the processed
   * text exactly once, where the span stood, and no other token occurs there.
   */
  lemma ProcessedTokenOnce(text: string, a: nat, i: nat)
    requires PlainProse(text)
    ensures StartsAt(Processed(text), i, Token(a)) <==>
      a < |Extract(text)| && i == FillStart(TextGaps(text), Tokens(0, |Extract(text)|), a)
  {
    ProcessedWeave(text);
    TokenOnce(TextGaps(text), |Extract(text)|, a, i);
  }


  /** The image map holds the renderings of the first `i` spans, under their keys. */
  predicate Collected(images: map<string, Bytes>, spans: seq<Span>, render: string -> Rendered, i: nat)
  {
    i <= |spans| && images.Keys == KeySet(i) &&
    (forall a :: 0 <= a < i ==> render(spans[a].content).Image?) &&
    (forall a :: 0 <= a < i ==> images[Key(a)] == render(spans[a].content).png)
  }

  /** Storing the next span's image under its key extends the map by that span. */
  lemma CollectNext(images: map<string, Bytes>, spans: seq<Span>, render: string -> Rendered, i: nat)
    requires Collected(images, spans, render, i) && i < |spans| && render(spans[i].content).Image?
    ensures Collected(images[Key(i) := render(spans[i].content).png], spans, render, i + 1)
  {
    forall a | 0 <= a < i
      ensures Key(a) != Key(i)
    {
      KeyInjective(a, i);
    }
    KeySetNext(i);
  }

  lemma Regroup(a: string, b: string, c: string, d: string)
    ensures a + (b + c + d) == (a + b + c) + d
  {
  }

  /**
   * `process_text`: renders the spans in order; on success returns the
   * processed text and a map from each span's key to its image, otherwise
   * the error of the first span that failed to compile.
   */
  method ProcessText(text: string, render: string -> Rendered)
    returns (r: Result<(string, map<string, Bytes>), ConvertError>)
    ensures var spans := Extract(text);
      r.Ok? <==> forall a :: 0 <= a < |spans| ==> render(spans[a].content).Image?
    ensures r.Ok? ==> r.value.0 == Processed(text)
    ensures r.Ok? ==> r.value.1.Keys == KeySet(|Extract(text)|)
    ensures var spans := Extract(text);
      r.Ok? ==> forall a :: 0 <= a < |spans| ==> r.value.1[Key(a)] == render(spans[a].content).png
    ensures var spans := Extract(text);
      r.Err? ==> exists a :: (0 <= a < |spans| && !render(spans[a].content).Image? &&
        (forall b :: 0 <= b < a ==> render(spans[b].content).Image?) &&
        r == Err(LatexToImage(render, spans[a].content).error))
  {
    var spans := ExtractLatexExpressions(text);
    ExtractOrdered(text);
    var out := "";
    var images: map<string, Bytes> := map[];
    var pos: nat := 0;
    for i := 0 to |spans|
      invariant Fits(text, spans[i..], pos)
      invariant out + Substituted(text, spans[i..], pos, i) == Processed(text)
      invariant images.Keys == KeySet(i)
      invariant Collected(images, spans, render, i)
    {
      var m := spans[i];
      ghost var rest := spans[i..];
      assert rest[0] == m && rest[1..] == spans[i + 1..];
      FitsTail(text, rest, pos);
      ghost var tail := Substituted(text, spans[i + 1..], m.end, i + 1);
      assert Substituted(text, rest, pos, i) == text[pos..m.start] + Token(i) + tail;
      match LatexToImage(render, m.content)
      case Err(e) =>
        return Err(e);
      case Ok(png) =>
        CollectNext(images, spans, render, i);
        Regroup(out, text[pos..m.start], Token(i), tail);
        out := out + text[pos..m.start] + Token(i);
        images := images[Key(i) := png];
        pos := m.end;
    }
    return Ok((out + text[pos..], images));
  }
}
