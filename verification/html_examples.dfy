/**
 * The HTML stage of `MimeEmailBuilder` on the inputs of its examples: the
 * break sequence is the two characters backslash and `n`, as in the builder's
 * examples.
 */
module HtmlExamples {
  import opened Text
  import opened Placeholders
  import opened Base64
  import opened Html

  lemma EscapeOne(c: char)
    ensures Escape([c]) == EscapeChar(c)
  {
    assert [c][1..] == [];
  }

  /** The escapes of the pieces of the markup sample. */
  lemma XssPieces()
    ensures Escape("Test ") == "Test " && Escape("script") == "script" && Escape("alert(") == "alert("
    ensures Escape("XSS") == "XSS" && Escape(")") == ")" && Escape("/script") == "/script"
    ensures Escape(" ") == " " && Escape(" more") == " more"
    ensures Escape("<") == "&lt;" && Escape(">") == "&gt;" && Escape("&") == "&amp;"
    ensures Escape("\"") == "&quot;"
  {
    XssPlain1();
    XssPlain2();
    XssPlain3();
    XssSpecials();
  }

  /** The four special characters of the markup sample, each escaped alone. */
  lemma XssSpecials()
    ensures Escape("<") == "&lt;" && Escape(">") == "&gt;" && Escape("&") == "&amp;"
    ensures Escape("\"") == "&quot;"
  {
    EscapeOne('<');
    EscapeOne('>');
    EscapeOne('&');
    EscapeOne('"');
  }

  lemma XssPlain1()
    ensures Escape("Test ") == "Test " && Escape("script") == "script" && Escape("alert(") == "alert("
  {
    EscapeKeep("Test ");
    EscapeKeep("script");
    EscapeKeep("alert(");
  }

  lemma XssPlain2()
    ensures Escape("XSS") == "XSS" && Escape(")") == ")" && Escape("/script") == "/script"
  {
    EscapeKeep("XSS");
    EscapeKeep(")");
    EscapeKeep("/script");
  }

  lemma XssPlain3()
    ensures Escape(" ") == " " && Escape(" more") == " more"
  {
    EscapeKeep(" ");
    EscapeKeep(" more");
  }

  /**
   * The markup sample `Test <script>alert("XSS")</script> & more`, written
   * piece by piece: each special character becomes its reference, so no `<`
   * or `>` is left, while the `&` that begins each reference is.
   */
  lemma EscapeXssExample()
    ensures var e := Escape("Test " + "<" + "script" + ">" + "alert(" + "\"" + "XSS" + "\"" + ")" + "<" + "/script" + ">" + " " + "&" + " more");
      e == "Test " + "&lt;" + "script" + "&gt;" + "alert(" + "&quot;" + "XSS" + "&quot;" + ")" + "&lt;" + "/script" + "&gt;" + " " + "&amp;" + " more" &&
      '<' !in e && '>' !in e && '&' in e
  {
    XssPieces();
    var s0 := "Test ";
    var s1 := s0 + "<";
    EscapeAppend(s0, "<");
    var s2 := s1 + "script";
    EscapeAppend(s1, "script");
    var s3 := s2 + ">";
    EscapeAppend(s2, ">");
    var s4 := s3 + "alert(";
    EscapeAppend(s3, "alert(");
    var s5 := s4 + "\"";
    EscapeAppend(s4, "\"");
    var s6 := s5 + "XSS";
    EscapeAppend(s5, "XSS");
    var s7 := s6 + "\"";
    EscapeAppend(s6, "\"");
    var s8 := s7 + ")";
    EscapeAppend(s7, ")");
    var s9 := s8 + "<";
    EscapeAppend(s8, "<");
    var s10 := s9 + "/script";
    EscapeAppend(s9, "/script");
    var s11 := s10 + ">";
    EscapeAppend(s10, ">");
    var s12 := s11 + " ";
    EscapeAppend(s11, " ");
    var s13 := s12 + "&";
    EscapeAppend(s12, "&");
    var s14 := s13 + " more";
    EscapeAppend(s13, " more");
    EscapeSafe(s14);
  }

  /** The break of the examples, and the lines they join with it. */
  lemma LineFacts()
    ensures BreakOk("\\n") && forall c :: c in "\\n" ==> !Special(c)
    ensures PlainLine("Line 1", "\\n") && PlainLine("Line 2", "\\n")
    ensures PlainLine("", "\\n") && PlainLine("Paragraph 2", "\\n")
  {
  }

  lemma TwoLinesSpelt()
    ensures Join(["Line 1", "Line 2"], "\\n") == "Line 1\\nLine 2"
    ensures Join(["Line 1", "Line 2"], "<br>" + "\\n") == "Line 1<br>\\nLine 2"
  {
    var lines := ["Line 1", "Line 2"];
    assert lines[1..] == ["Line 2"];
  }

  lemma TwoLinesParts()
    ensures Contains("Line 1<br>\\nLine 2", "<br>") && Contains("Line 1<br>\\nLine 2", "Line 1<br>")
  {
    assert StartsAt("Line 1<br>\\nLine 2", 6, "<br>");
    assert StartsAt("Line 1<br>\\nLine 2", 0, "Line 1<br>");
  }

  /** Two lines: the break gets its `<br>` and the whole sits in the document shell. */
  lemma TextToHtmlBasicExample()
    ensures var html := TextToHtml("Line 1\\nLine 2", map[], "\\n");
      html == Shell("Line 1<br>\\nLine 2") &&
      Contains(html, "<br>") && Contains(html, "Line 1<br>") &&
      Contains(html, Doctype) && Contains(html, HtmlEnd)
  {
    LineFacts();
    TwoLinesSpelt();
    PlainLinesHtml(["Line 1", "Line 2"], map[], "\\n");
    TwoLinesParts();
    ShellContains("Line 1<br>\\nLine 2", "<br>");
    ShellContains("Line 1<br>\\nLine 2", "Line 1<br>");
  }

  lemma FourLinesSpelt()
    ensures Join(["Line 1", "Line 2", "", "Paragraph 2"], "\\n") == "Line 1\\nLine 2\\n\\nParagraph 2"
  {
    var lines := ["Line 1", "Line 2", "", "Paragraph 2"];
    assert lines[1..][1..][1..] == ["Paragraph 2"];
  }

  lemma JoinStep(x: string, rest: seq<string>, sep: string)
    requires |rest| > 0
    ensures Join([x] + rest, sep) == x + sep + Join(rest, sep)
  {
    assert ([x] + rest)[1..] == rest;
  }

  /** The four lines joined by `<br>` and the break, in the pieces the examples look for. */
  lemma FourLinesBroken()
    ensures Join(["Line 1", "Line 2", "", "Paragraph 2"], "<br>" + "\\n") ==
      "Line 1<br>" + "\\n" + "Line 2<br>" + "\\n" + "<br>\\nParagraph 2"
  {
    var sep := "<br>" + "\\n";
    JoinStep("", ["Paragraph 2"], sep);
    JoinStep("Line 2", ["", "Paragraph 2"], sep);
    JoinStep("Line 1", ["Line 2", "", "Paragraph 2"], sep);
    assert ["Line 1"] + ["Line 2", "", "Paragraph 2"] == ["Line 1", "Line 2", "", "Paragraph 2"];
    assert ["Line 2"] + ["", "Paragraph 2"] == ["Line 2", "", "Paragraph 2"];
    assert [""] + ["Paragraph 2"] == ["", "Paragraph 2"];
    BrokenPieces();
  }

  lemma BrokenPieces()
    ensures "Line 1" + "<br>" == "Line 1<br>" && "Line 2" + "<br>" == "Line 2<br>"
    ensures "<br>" + "\\n" + "Paragraph 2" == "<br>\\nParagraph 2"
  {
  }

  /** A string made of five pieces contains its first, third and fifth. */
  lemma OddPieces(a: string, b: string, c: string, d: string, e: string)
    ensures Contains(a + b + c + d + e, a) && Contains(a + b + c + d + e, c) && Contains(a + b + c + d + e, e)
  {
    var h := a + b + c + d + e;
    assert h == "" + a + (b + c + d + e);
    ContainsMiddle("", a, b + c + d + e);
    assert h == (a + b) + c + (d + e);
    ContainsMiddle(a + b, c, d + e);
    assert h == (a + b + c + d) + e + "";
    ContainsMiddle(a + b + c + d, e, "");
  }

  /** A blank line between two breaks: each break gets its own `<br>`. */
  lemma NewlineExample()
    ensures var html := TextToHtml("Line 1\\nLine 2\\n\\nParagraph 2", map[], "\\n");
      html == Shell("Line 1<br>" + "\\n" + "Line 2<br>" + "\\n" + "<br>\\nParagraph 2") &&
      Contains(html, "Line 1<br>") && Contains(html, "Line 2<br>") && Contains(html, "<br>\\nParagraph 2")
  {
    LineFacts();
    FourLinesSpelt();
    FourLinesBroken();
    var lines := ["Line 1", "Line 2", "", "Paragraph 2"];
    assert forall i :: 0 <= i < |lines| ==> PlainLine(lines[i], "\\n");
    PlainLinesHtml(lines, map[], "\\n");
    var a, b, c, d, e := "Line 1<br>", "\\n", "Line 2<br>", "\\n", "<br>\\nParagraph 2";
    var h := a + b + c + d + e;
    OddPieces(a, b, c, d, e);
    ShellContains(h, a);
    ShellContains(h, c);
    ShellContains(h, e);
  }

  /** `b"fake_image_1"` and `b"fake_image_2"`. */
  const FakeImage1: Bytes := [102, 97, 107, 101, 95, 105, 109, 97, 103, 101, 95, 49]
  const FakeImage2: Bytes := [102, 97, 107, 101, 95, 105, 109, 97, 103, 101, 95, 50]

  /** The prose around the two tokens. */
  lemma ImagesText()
    ensures Weave(["Math: ", " and ", ""], Tokens(0, 2)) == "Math: " + "{{LATEX_IMG_0}}" + " and " + "{{LATEX_IMG_1}}"
    ensures forall i :: 0 <= i < 3 ==> '{' !in ["Math: ", " and ", ""][i]
  {
    FirstKeyNames();
    FirstTokens();
    var gaps, toks := ["Math: ", " and ", ""], Tokens(0, 2);
    assert gaps[1..][1..] == [""] && toks[1..][1..] == [];
  }

  lemma CidSrc(key: string, png: Bytes)
    ensures SrcAttr(ContentId, key, png) == "src=\"cid:" + key + "\""
  {
  }

  lemma CidAttr0(png: Bytes)
    ensures SrcAttr(ContentId, Key(0), png) == "src=\"cid:LATEX_IMG_0\""
  {
    FirstKeyNames();
    CidSrc(Key(0), png);
  }

  lemma CidAttr1(png: Bytes)
    ensures SrcAttr(ContentId, Key(1), png) == "src=\"cid:LATEX_IMG_1\""
  {
    FirstKeyNames();
    CidSrc(Key(1), png);
  }

  /**
   * Two tokens, both mapped: each becomes an image tag with its `cid:`
   * source, unescaped, and neither token is left.
   */
  lemma TextToHtmlImagesExample()
    ensures var images := map["LATEX_IMG_0" := FakeImage1, "LATEX_IMG_1" := FakeImage2];
      var html := TextToHtml("Math: " + "{{LATEX_IMG_0}}" + " and " + "{{LATEX_IMG_1}}", images, "\\n");
      Contains(html, "src=\"cid:LATEX_IMG_0\"") && Contains(html, "src=\"cid:LATEX_IMG_1\"") &&
      !Contains(html, "{{LATEX_IMG_0}}") && !Contains(html, "{{LATEX_IMG_1}}")
  {
    var images := map["LATEX_IMG_0" := FakeImage1, "LATEX_IMG_1" := FakeImage2];
    var gaps := ["Math: ", " and ", ""];
    FirstKeyNames();
    FirstTokens();
    ImagesText();
    LineFacts();
    FragmentParts(gaps, 2, images, ContentId, "\\n");
    var f := Resolve(Breaks(Escape(Weave(gaps, Tokens(0, 2))), "\\n"), images, ContentId);
    CidAttr0(FakeImage1);
    CidAttr1(FakeImage2);
    ShellContains(f, SrcAttr(ContentId, Key(0), FakeImage1));
    ShellContains(f, SrcAttr(ContentId, Key(1), FakeImage2));
    ShellLacksBrace(f);
    MissingChar(Shell(f), "{{LATEX_IMG_0}}", '{');
    MissingChar(Shell(f), "{{LATEX_IMG_1}}", '{');
  }

  /** The eight-byte PNG signature. */
  const Signature: Bytes := [137, 80, 78, 71, 13, 10, 26, 10]

  lemma ClipboardText()
    ensures Weave(["Math: ", ""], Tokens(0, 1)) == "Math: " + "{{LATEX_IMG_0}}"
    ensures forall i :: 0 <= i < 2 ==> '{' !in ["Math: ", ""][i]
  {
    FirstKeyNames();
    FirstTokens();
    var toks := Tokens(0, 1);
    assert toks[1..] == [];
  }

  lemma DataPrefix()
    ensures "src=\"" + "data:image/png;base64," == "src=\"data:image/png;base64,"
  {
  }

  /** The inline source holds the `data:` prefix and the base64 of the bytes. */
  lemma DataAttrParts(key: string, png: Bytes)
    ensures Contains(SrcAttr(InlineData, key, png), "src=\"data:image/png;base64,")
    ensures Contains(SrcAttr(InlineData, key, png), Encode(Standard, png))
  {
    var e := Encode(Standard, png);
    var a, b := "src=\"", "data:image/png;base64,";
    assert SrcAttr(InlineData, key, png) == a + (b + e) + "\"";
    assert a + (b + e) + "\"" == "" + (a + b) + (e + "\"") == (a + b) + e + "\"";
    ContainsMiddle("", a + b, e + "\"");
    ContainsMiddle(a + b, e, "\"");
    DataPrefix();
  }

  /**
   * The clipboard fragment carries the image inline: a `data:` source
   * followed by the standard base64 of the bytes, and no token.
   */
  lemma ClipboardExample()
    ensures var html := ClipboardHtml("Math: " + "{{LATEX_IMG_0}}", map["LATEX_IMG_0" := Signature], "\\n");
      Contains(html, "src=\"data:image/png;base64,") && Contains(html, "iVBORw0KGgo=") &&
      !Contains(html, "{{LATEX_IMG_0}}")
  {
    var images := map["LATEX_IMG_0" := Signature];
    var gaps := ["Math: ", ""];
    FirstKeyNames();
    FirstTokens();
    ClipboardText();
    LineFacts();
    FragmentParts(gaps, 1, images, InlineData, "\\n");
    var f := ClipboardHtml("Math: " + "{{LATEX_IMG_0}}", images, "\\n");
    var src := SrcAttr(InlineData, Key(0), Signature);
    DataAttrParts(Key(0), Signature);
    EncodeSignatureExample();
    ContainsTrans(f, src, "src=\"data:image/png;base64,");
    ContainsTrans(f, src, Encode(Standard, Signature));
    MissingChar(f, "{{LATEX_IMG_0}}", '{');
  }
}
