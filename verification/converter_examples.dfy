/**
 * `process_text` on the texts of the converter tests, stated about the
 * reference definitions the method is proved against.
 */
module ConverterExamples {
  import opened Text
  import opened Placeholders
  import opened Extractor
  import opened ExtractorExamples
  import opened Converter

  /**
   * One formula: the processed text is the prose around the token of span 0,
   * the delimited formula no longer occurs, and the image map has the one key
   * `LATEX_IMG_0`.
   * t == "The quadratic formula is $x = \\frac{-b \\pm \\sqrt{b^2 - 4ac}}{2a}$."
   */
  lemma ProcessQuadraticExample(t: string)
    requires |t| == 66 && t[0..25] == "The quadratic formula is " && t[25..26] == "$"
    requires t[26..64] == "x = \\frac{-b \\pm \\sqrt{b^2 - 4ac}}{2a}" && t[64..65] == "$"
    requires t[65..66] == "."
    ensures Processed(t) == "The quadratic formula is " + "{{LATEX_IMG_0}}" + "."
    ensures Contains(Processed(t), "{{LATEX_IMG_0}}")
    ensures !Contains(Processed(t), "$x = \\frac{-b \\pm \\sqrt{b^2 - 4ac}}{2a}$")
    ensures KeySet(|Extract(t)|) == {"LATEX_IMG_0"}
  {
    ExtractQuadraticExample(t);
    QuadraticProse();
    ExtractOrdered(t);
    FirstKeyNames();
    FirstTokens();
    var spans := Extract(t);
    assert spans[0].start == 25 && spans[0].end == 65 && spans[1..] == [];
    FitsTail(t, spans, 0);
    assert Substituted(t, spans[1..], 65, 1) == t[65..] == t[65..66];
    assert Processed(t) == t[0..25] + Token(0) + Substituted(t, spans[1..], 65, 1);
    ProcessedTokens(t, 0);
    TokenChars(0);
    assert '$' !in Processed(t);
    MissingChar(Processed(t), "$x = \\frac{-b \\pm \\sqrt{b^2 - 4ac}}{2a}$", '$');
    assert KeySet(1) == {Key(0)};
  }

  /**
   * Three formulas: the tokens of spans 0, 1 and 2 all occur and the map has three keys.
   * t == "First: $a^2$, then $$b^3$$, finally $c^4$."
   */
  lemma ProcessThreeExample(t: string)
    requires |t| == 42 && t[0..7] == "First: " && t[7..8] == "$" && t[8..11] == "a^2"
    requires t[11..12] == "$" && t[12..19] == ", then " && t[19..21] == "$$" && t[21..24] == "b^3"
    requires t[24..26] == "$$" && t[26..36] == ", finally " && t[36..37] == "$" && t[37..40] == "c^4"
    requires t[40..41] == "$" && t[41..42] == "."
    ensures |Extract(t)| == 3
    ensures forall a :: 0 <= a < 3 ==> Contains(Processed(t), Token(a))
    ensures |KeySet(|Extract(t)|)| == 3
    ensures KeySet(|Extract(t)|) == {"LATEX_IMG_0", "LATEX_IMG_1", "LATEX_IMG_2"}
  {
    ExtractThreeExample(t);
    FirstKeyNames();
    FirstTokens();
    forall a | 0 <= a < 3
      ensures Contains(Processed(t), Token(a))
    {
      ProcessedTokens(t, a);
    }
    KeysCard(3);
    assert KeySet(3) == {Key(0), Key(1), Key(2)} by {
      KeySetNext(0);
      KeySetNext(1);
      KeySetNext(2);
    }
  }
}
