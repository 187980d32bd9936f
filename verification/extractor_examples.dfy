/**
 * Concrete extractions: the texts of the extraction tests, scanned piece by
 * piece. Each step lemma states, for any text, what the scan does over one
 * piece: skip a stretch without `$` or backslash, or take one delimited span;
 * the examples chain them. An example's precondition spells its test text out
 * piece by piece, cut at the delimiters.
 */
module ExtractorExamples {
  import opened Wrappers
  import opened Text
  import opened Extractor

  /** A stretch with neither `$` nor a backslash yields no span and is skipped. */
  lemma {:induction false} NoOpenerSkip(text: string, i: nat, j: nat)
    requires i <= j <= |text| && '$' !in text[i..j] && '\\' !in text[i..j]
    ensures Scan(text, i) == Scan(text, j)
    decreases j - i
  {
    if i < j {
      assert text[i] == text[i..j][0];
      assert MatchAt(text, i).None?;
      assert text[i + 1..j] == text[i..j][1..];
      NoOpenerSkip(text, i + 1, j);
    }
  }

  /** A piece of plain text is skipped whole. */
  lemma PlainPiece(text: string, i: nat, j: nat, g: string)
    requires i <= j <= |text| && text[i..j] == g && '$' !in g && '\\' !in g
    ensures Scan(text, i) == Scan(text, j)
  {
    NoOpenerSkip(text, i, j);
  }

  /** The closer of `d` stands at `k`, and at no position from `from` up to `k`. */
  lemma NearestCloser(text: string, d: Delim, from: nat, k: nat)
    requires from <= k && CloserAt(text, k, d)
    requires forall p :: from <= p < k ==> !CloserAt(text, p, d)
    ensures FindCloser(text, d, from) == Some(k)
  {
    FindCloserSpec(text, d, from);
  }

  /** Where the opener of `d` stands and the search finds its closer at `k`, `d` yields the span up to that closer. */
  lemma DelimSpan(text: string, i: nat, d: Delim, k: nat)
    requires OpenerAt(text, i, d) && FindCloser(text, d, i + |Open(d)|) == Some(k)
    ensures TryDelim(text, i, d) == Some(Span(i, k + |Close(d)|, text[i + |Open(d)|..k], IsDisplay(d)))
  {
  }

  /** The span found at `i` is the one the match there yields. */
  lemma TakeMatch(text: string, i: nat, m: Span)
    requires i < |text| && MatchAt(text, i) == Some(m)
    ensures Scan(text, i) == [m] + Scan(text, m.end)
  {
  }

  /** `$`, content without `$`, `$`: the inline match. */
  lemma InlineDollarMatch(text: string, i: nat, k: nat, c: string)
    requires i < k < |text| && text[i..i + 1] == "$" && text[i + 1..k] == c && text[k..k + 1] == "$"
    requires 0 < |c| && '$' !in c
    ensures MatchAt(text, i) == Some(Span(i, k + 1, c, false))
  {
    assert text[i] == text[i..i + 1][0] && text[k] == text[k..k + 1][0];
    assert text[i + 1] == c[0];
    forall p | i + 1 <= p < k ensures !CloserAt(text, p, InlineDollar) {
      assert text[p] == c[p - (i + 1)];
    }
    NearestCloser(text, InlineDollar, i + 1, k);
    DelimSpan(text, i, InlineDollar, k);
    assert !OpenerAt(text, i, DisplayDollar) && !OpenerAt(text, i, DisplayBracket) && !OpenerAt(text, i, InlineParen);
  }

  /** `$`, content without `$`, `$`: one inline span. */
  lemma InlineDollarPiece(text: string, i: nat, k: nat, c: string)
    requires i < k < |text| && text[i..i + 1] == "$" && text[i + 1..k] == c && text[k..k + 1] == "$"
    requires 0 < |c| && '$' !in c
    ensures Scan(text, i) == [Span(i, k + 1, c, false)] + Scan(text, k + 1)
  {
    InlineDollarMatch(text, i, k, c);
    TakeMatch(text, i, Span(i, k + 1, c, false));
  }

  /** `$$`, content without `$`, `$$`: the display match. */
  lemma DisplayDollarMatch(text: string, i: nat, k: nat, c: string)
    requires i + 2 <= k && k + 2 <= |text| && text[i..i + 2] == "$$" && text[i + 2..k] == c && text[k..k + 2] == "$$"
    requires '$' !in c
    ensures MatchAt(text, i) == Some(Span(i, k + 2, c, true))
  {
    assert text[i] == text[i..i + 2][0] && text[i + 1] == text[i..i + 2][1];
    assert text[k] == text[k..k + 2][0] && text[k + 1] == text[k..k + 2][1];
    forall p | i + 2 <= p < k ensures !CloserAt(text, p, DisplayDollar) {
      assert text[p] == c[p - (i + 2)];
    }
    NearestCloser(text, DisplayDollar, i + 2, k);
    DelimSpan(text, i, DisplayDollar, k);
  }

  /** `$$`, content without `$`, `$$`: one display span, never two empty inline ones. */
  lemma DisplayDollarPiece(text: string, i: nat, k: nat, c: string)
    requires i + 2 <= k && k + 2 <= |text| && text[i..i + 2] == "$$" && text[i + 2..k] == c && text[k..k + 2] == "$$"
    requires '$' !in c
    ensures Scan(text, i) == [Span(i, k + 2, c, true)] + Scan(text, k + 2)
  {
    DisplayDollarMatch(text, i, k, c);
    TakeMatch(text, i, Span(i, k + 2, c, true));
  }

  /** `\(`, content without `)`, `\)`: the inline match. */
  lemma InlineParenMatch(text: string, i: nat, k: nat, c: string)
    requires i + 2 <= k && k + 2 <= |text| && text[i..i + 2] == "\\(" && text[i + 2..k] == c && text[k..k + 2] == "\\)"
    requires ')' !in c
    ensures MatchAt(text, i) == Some(Span(i, k + 2, c, false))
  {
    assert text[i] == text[i..i + 2][0] && text[i + 1] == text[i..i + 2][1];
    assert text[k] == text[k..k + 2][0] && text[k + 1] == text[k..k + 2][1];
    forall p | i + 2 <= p < k ensures !CloserAt(text, p, InlineParen) {
      if p + 1 < k {
        assert text[p + 1] == c[p + 1 - (i + 2)];
      }
    }
    NearestCloser(text, InlineParen, i + 2, k);
    DelimSpan(text, i, InlineParen, k);
    assert !OpenerAt(text, i, DisplayDollar) && !OpenerAt(text, i, DisplayBracket);
  }

  /** `\(`, content without `)`, `\)`: one inline span. */
  lemma InlineParenPiece(text: string, i: nat, k: nat, c: string)
    requires i + 2 <= k && k + 2 <= |text| && text[i..i + 2] == "\\(" && text[i + 2..k] == c && text[k..k + 2] == "\\)"
    requires ')' !in c
    ensures Scan(text, i) == [Span(i, k + 2, c, false)] + Scan(text, k + 2)
  {
    InlineParenMatch(text, i, k, c);
    TakeMatch(text, i, Span(i, k + 2, c, false));
  }

  /** `\[`, content without `]`, `\]`: the display match. */
  lemma DisplayBracketMatch(text: string, i: nat, k: nat, c: string)
    requires i + 2 <= k && k + 2 <= |text| && text[i..i + 2] == "\\[" && text[i + 2..k] == c && text[k..k + 2] == "\\]"
    requires ']' !in c
    ensures MatchAt(text, i) == Some(Span(i, k + 2, c, true))
  {
    assert text[i] == text[i..i + 2][0] && text[i + 1] == text[i..i + 2][1];
    assert text[k] == text[k..k + 2][0] && text[k + 1] == text[k..k + 2][1];
    forall p | i + 2 <= p < k ensures !CloserAt(text, p, DisplayBracket) {
      if p + 1 < k {
        assert text[p + 1] == c[p + 1 - (i + 2)];
      }
    }
    NearestCloser(text, DisplayBracket, i + 2, k);
    DelimSpan(text, i, DisplayBracket, k);
    assert !OpenerAt(text, i, DisplayDollar);
  }

  /** `\[`, content without `]`, `\]`: one display span. */
  lemma DisplayBracketPiece(text: string, i: nat, k: nat, c: string)
    requires i + 2 <= k && k + 2 <= |text| && text[i..i + 2] == "\\[" && text[i + 2..k] == c && text[k..k + 2] == "\\]"
    requires ']' !in c
    ensures Scan(text, i) == [Span(i, k + 2, c, true)] + Scan(text, k + 2)
  {
    DisplayBracketMatch(text, i, k, c);
    TakeMatch(text, i, Span(i, k + 2, c, true));
  }

  /** In the inline example the text between the spans holds no `$` and no backslash. */
  lemma InlineProse()
    ensures '$' !in "Here is " && '\\' !in "Here is "
    ensures '$' !in " and also " && '\\' !in " and also "
    ensures '$' !in " inline." && '\\' !in " inline."
  {
  }

  /** In the inline example the span contents hold no closer character of their delimiter. */
  lemma InlineFormulas()
    ensures '$' !in "x^2"
    ensures '$' !in "y = mx + b"
  {
  }

  /**
   * Two `$ … $` spans, in source order, both inline.
   * t == "Here is $x^2$ and also $y = mx + b$ inline."
   */
  lemma ExtractInlineExample(t: string)
    requires |t| == 43 && t[0..8] == "Here is " && t[8..9] == "$" && t[9..12] == "x^2"
    requires t[12..13] == "$" && t[13..23] == " and also " && t[23..24] == "$"
    requires t[24..34] == "y = mx + b" && t[34..35] == "$" && t[35..43] == " inline."
    ensures Extract(t) == [Span(8, 13, "x^2", false), Span(23, 35, "y = mx + b", false)]
  {
    InlineProse();
    InlineFormulas();
    PlainPiece(t, 0, 8, "Here is ");
    InlineDollarPiece(t, 8, 12, "x^2");
    PlainPiece(t, 13, 23, " and also ");
    InlineDollarPiece(t, 23, 34, "y = mx + b");
    PlainPiece(t, 35, 43, " inline.");
  }

  /** In the display example the text between the spans holds no `$` and no backslash. */
  lemma DisplayProse()
    ensures '$' !in "Display math: " && '\\' !in "Display math: "
    ensures '$' !in " and more." && '\\' !in " and more."
  {
  }

  /** In the display example the span contents hold no closer character of their delimiter. */
  lemma DisplayFormulas()
    ensures '$' !in "\\int_0^1 x^2 dx = \\frac{1}{3}"
  {
  }

  /**
   * One `$$ … $$` span, display, its content verbatim with the backslashes.
   * t == "Display math: $$\\int_0^1 x^2 dx = \\frac{1}{3}$$ and more."
   */
  lemma ExtractDisplayExample(t: string)
    requires |t| == 57 && t[0..14] == "Display math: " && t[14..16] == "$$"
    requires t[16..45] == "\\int_0^1 x^2 dx = \\frac{1}{3}" && t[45..47] == "$$"
    requires t[47..57] == " and more."
    ensures Extract(t) == [Span(14, 47, "\\int_0^1 x^2 dx = \\frac{1}{3}", true)]
  {
    DisplayProse();
    DisplayFormulas();
    PlainPiece(t, 0, 14, "Display math: ");
    DisplayDollarPiece(t, 14, 45, "\\int_0^1 x^2 dx = \\frac{1}{3}");
    PlainPiece(t, 47, 57, " and more.");
  }

  /** In the mixed example the text between the spans holds no `$` and no backslash. */
  lemma MixedProse()
    ensures '$' !in "Mix: " && '\\' !in "Mix: "
    ensures '$' !in ", " && '\\' !in ", "
    ensures '$' !in ", " && '\\' !in ", "
    ensures '$' !in ", and " && '\\' !in ", and "
  {
  }

  /** In the mixed example the span contents hold no closer character of their delimiter. */
  lemma MixedFormulas()
    ensures '$' !in "a + b"
    ensures ')' !in "c - d"
    ensures '$' !in "e \\times f"
    ensures ']' !in "g \\div h"
  {
  }

  /**
   * All four pairs: four spans left to right; the `$$` pair is one display span, not two empty inline ones.
   * t == "Mix: $a + b$, \\(c - d\\), $$e \\times f$$, and \\[g \\div h\\]"
   */
  lemma ExtractMixedExample(t: string)
    requires |t| == 57 && t[0..5] == "Mix: " && t[5..6] == "$" && t[6..11] == "a + b"
    requires t[11..12] == "$" && t[12..14] == ", " && t[14..16] == "\\(" && t[16..21] == "c - d"
    requires t[21..23] == "\\)" && t[23..25] == ", " && t[25..27] == "$$"
    requires t[27..37] == "e \\times f" && t[37..39] == "$$" && t[39..45] == ", and "
    requires t[45..47] == "\\[" && t[47..55] == "g \\div h" && t[55..57] == "\\]"
    ensures Extract(t) == [Span(5, 12, "a + b", false), Span(14, 23, "c - d", false), Span(25, 39, "e \\times f", true), Span(45, 57, "g \\div h", true)]
  {
    MixedProse();
    MixedFormulas();
    PlainPiece(t, 0, 5, "Mix: ");
    InlineDollarPiece(t, 5, 11, "a + b");
    PlainPiece(t, 12, 14, ", ");
    InlineParenPiece(t, 14, 21, "c - d");
    PlainPiece(t, 23, 25, ", ");
    DisplayDollarPiece(t, 25, 37, "e \\times f");
    PlainPiece(t, 39, 45, ", and ");
    DisplayBracketPiece(t, 45, 55, "g \\div h");
  }

  /** In the price example the text between the spans holds no `$` and no backslash. */
  lemma PriceProse()
    ensures '$' !in "Price is " && '\\' !in "Price is "
    ensures '$' !in "20, not LaTeX." && '\\' !in "20, not LaTeX."
  {
  }

  /** In the price example the span contents hold no closer character of their delimiter. */
  lemma PriceFormulas()
    ensures '$' !in "10 and "
  {
  }

  /**
   * Currency-like dollars: the first `$` closes at the nearest `$`, so there is exactly one span, and it stops before `20`.
   * t == "Price is $10 and $20, not LaTeX."
   */
  lemma ExtractPriceExample(t: string)
    requires |t| == 32 && t[0..9] == "Price is " && t[9..10] == "$" && t[10..17] == "10 and "
    requires t[17..18] == "$" && t[18..32] == "20, not LaTeX."
    ensures Extract(t) == [Span(9, 18, "10 and ", false)]
  {
    PriceProse();
    PriceFormulas();
    PlainPiece(t, 0, 9, "Price is ");
    InlineDollarPiece(t, 9, 17, "10 and ");
    PlainPiece(t, 18, 32, "20, not LaTeX.");
  }

  /** In the quadratic example the text between the spans holds no `$` and no backslash. */
  lemma QuadraticProse()
    ensures '$' !in "The quadratic formula is " && '\\' !in "The quadratic formula is "
    ensures '$' !in "." && '\\' !in "."
  {
  }

  /** In the quadratic example the span contents hold no closer character of their delimiter. */
  lemma QuadraticFormulas()
    ensures '$' !in "x = \\frac{-b \\pm \\sqrt{b^2 - 4ac}}{2a}"
  {
  }

  /**
   * One inline span holding the whole formula.
   * t == "The quadratic formula is $x = \\frac{-b \\pm \\sqrt{b^2 - 4ac}}{2a}$."
   */
  lemma ExtractQuadraticExample(t: string)
    requires |t| == 66 && t[0..25] == "The quadratic formula is " && t[25..26] == "$"
    requires t[26..64] == "x = \\frac{-b \\pm \\sqrt{b^2 - 4ac}}{2a}" && t[64..65] == "$"
    requires t[65..66] == "."
    ensures Extract(t) == [Span(25, 65, "x = \\frac{-b \\pm \\sqrt{b^2 - 4ac}}{2a}", false)]
  {
    QuadraticProse();
    QuadraticFormulas();
    PlainPiece(t, 0, 25, "The quadratic formula is ");
    InlineDollarPiece(t, 25, 64, "x = \\frac{-b \\pm \\sqrt{b^2 - 4ac}}{2a}");
    PlainPiece(t, 65, 66, ".");
  }

  /** In the three example the text between the spans holds no `$` and no backslash. */
  lemma ThreeProse()
    ensures '$' !in "First: " && '\\' !in "First: "
    ensures '$' !in ", then " && '\\' !in ", then "
    ensures '$' !in ", finally " && '\\' !in ", finally "
    ensures '$' !in "." && '\\' !in "."
  {
  }

  /** In the three example the span contents hold no closer character of their delimiter. */
  lemma ThreeFormulas()
    ensures '$' !in "a^2"
    ensures '$' !in "b^3"
    ensures '$' !in "c^4"
  {
  }

  /**
   * Three spans: inline, display, inline.
   * t == "First: $a^2$, then $$b^3$$, finally $c^4$."
   */
  lemma ExtractThreeExample(t: string)
    requires |t| == 42 && t[0..7] == "First: " && t[7..8] == "$" && t[8..11] == "a^2"
    requires t[11..12] == "$" && t[12..19] == ", then " && t[19..21] == "$$" && t[21..24] == "b^3"
    requires t[24..26] == "$$" && t[26..36] == ", finally " && t[36..37] == "$" && t[37..40] == "c^4"
    requires t[40..41] == "$" && t[41..42] == "."
    ensures Extract(t) == [Span(7, 12, "a^2", false), Span(19, 26, "b^3", true), Span(36, 41, "c^4", false)]
  {
    ThreeProse();
    ThreeFormulas();
    PlainPiece(t, 0, 7, "First: ");
    InlineDollarPiece(t, 7, 11, "a^2");
    PlainPiece(t, 12, 19, ", then ");
    DisplayDollarPiece(t, 19, 24, "b^3");
    PlainPiece(t, 26, 36, ", finally ");
    InlineDollarPiece(t, 36, 40, "c^4");
    PlainPiece(t, 41, 42, ".");
  }

  /** Plain prose without `$` or backslash yields no spans. */
  lemma ExtractPlainExample(t: string)
    requires t == "This is plain text without any math."
    ensures Extract(t) == []
  {
    NoDelimiterCharacters(t);
  }
}
