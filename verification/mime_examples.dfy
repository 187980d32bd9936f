/**
 * `MimeEmailBuilder.build_html_email` and `build_raw_mime` on the inputs of
 * their examples. The examples are stated for every walked message that meets
 * the builder's contract, so they hold for whatever order the image parts
 * come in.
 */
module MimeExamples {
  import opened Wrappers
  import opened Text
  import opened Placeholders
  import opened Base64
  import opened Html
  import opened Mime
  import opened HtmlExamples

  /** A message with one image has three parts, the last being that image's. */
  lemma SingleImage(w: seq<Part>, headers: map<string, string>, html: string, key: string, png: Bytes)
    requires EmailParts(w, headers, html, map[key := png])
    ensures |w| == 3 && w[0] == Part(Related, headers, Container) && w[1] == HtmlPart(html)
    ensures w[2] == ImagePart(key, png)
  {
    assert w[2] == w[2..][0];
    assert ImageOf(w[2..][0], map[key := png]);
  }

  /** One image: the root carries the three header fields, then the document, then the image under `<LATEX_IMG_0>`. */
  lemma EmailExample(w: seq<Part>)
    requires var images := map["LATEX_IMG_0" := Signature];
      EmailParts(w, Headers(Some("Test Email"), Some("sender@example.com"), Some("recipient@example.com")),
                 TextToHtml("Test with image: {{LATEX_IMG_0}}", images, "\\n"), images)
    ensures |w| == 3
    ensures w[0].contentType == "multipart/related"
    ensures "Subject" in w[0].headers && w[0].headers["Subject"] == "Test Email"
    ensures "From" in w[0].headers && w[0].headers["From"] == "sender@example.com"
    ensures "To" in w[0].headers && w[0].headers["To"] == "recipient@example.com"
    ensures w[1].contentType == "text/html"
    ensures w[2].contentType == "image/png"
    ensures "Content-ID" in w[2].headers && w[2].headers["Content-ID"] == "<LATEX_IMG_0>"
  {
    SingleImage(w, Headers(Some("Test Email"), Some("sender@example.com"), Some("recipient@example.com")),
                TextToHtml("Test with image: {{LATEX_IMG_0}}", map["LATEX_IMG_0" := Signature], "\\n"),
                "LATEX_IMG_0", Signature);
    ThreeCids();
  }

  /** `b"img0"`, `b"img1"` and `b"img2"`. */
  const Img0: Bytes := [105, 109, 103, 48]
  const Img1: Bytes := [105, 109, 103, 49]
  const Img2: Bytes := [105, 109, 103, 50]

  lemma ThreeCids()
    ensures CidHeader("LATEX_IMG_0") == "<LATEX_IMG_0>"
    ensures CidHeader("LATEX_IMG_1") == "<LATEX_IMG_1>"
    ensures CidHeader("LATEX_IMG_2") == "<LATEX_IMG_2>"
  {
  }

  /** The image map of the three-image message. */
  const ThreeImages: map<string, Bytes> := map["LATEX_IMG_0" := Img0, "LATEX_IMG_1" := Img1, "LATEX_IMG_2" := Img2]

  lemma ThreeKeys()
    ensures ThreeImages.Keys == {"LATEX_IMG_0", "LATEX_IMG_1", "LATEX_IMG_2"} && |ThreeImages| == 3
  {
    assert ThreeImages.Keys == {"LATEX_IMG_0", "LATEX_IMG_1", "LATEX_IMG_2"};
  }

  /** Three images give five parts: the root, the document and three `image/png` parts. */
  lemma ManyImagesParts(w: seq<Part>, html: string)
    requires EmailParts(w, Headers(None, None, None), html, ThreeImages)
    ensures |w| == 5 && w[0].contentType != "image/png" && w[1].contentType != "image/png"
    ensures forall i :: 2 <= i < |w| ==> w[i].contentType == "image/png" && "Content-ID" in w[i].headers
  {
    ThreeKeys();
    EmailContentIds(w, Headers(None, None, None), html, ThreeImages);
  }

  /** The three Content-IDs are the three keys in angle brackets. */
  lemma ManyImagesIds(w: seq<Part>, html: string)
    requires EmailParts(w, Headers(None, None, None), html, ThreeImages)
    ensures var ids := ContentIds(w);
      "<LATEX_IMG_0>" in ids && "<LATEX_IMG_1>" in ids && "<LATEX_IMG_2>" in ids
  {
    EmailContentIds(w, Headers(None, None, None), html, ThreeImages);
    ThreeKeys();
    ThreeCids();
    assert CidHeader("LATEX_IMG_0") in KeyIds(ThreeImages);
    assert CidHeader("LATEX_IMG_1") in KeyIds(ThreeImages);
    assert CidHeader("LATEX_IMG_2") in KeyIds(ThreeImages);
  }

  /**
   * Three images: three `image/png` parts whose Content-IDs are the three
   * keys, whatever the document is.
   */
  lemma ManyImagesExample(w: seq<Part>, html: string)
    requires EmailParts(w, Headers(None, None, None), html, ThreeImages)
    ensures |w| == 5 && w[0].contentType != "image/png" && w[1].contentType != "image/png"
    ensures forall i :: 2 <= i < |w| ==> w[i].contentType == "image/png" && "Content-ID" in w[i].headers
    ensures var ids := ContentIds(w);
      "<LATEX_IMG_0>" in ids && "<LATEX_IMG_1>" in ids && "<LATEX_IMG_2>" in ids
  {
    ManyImagesParts(w, html);
    ManyImagesIds(w, html);
  }

  /** A single plain line: the document is that line in the shell. */
  lemma SimpleTestHtml()
    ensures TextToHtml("Simple test", map[], "\\n") == Shell("Simple test")
    ensures Contains(TextToHtml("Simple test", map[], "\\n"), "Simple test")
  {
    LineFacts();
    assert PlainLine("Simple test", "\\n");
    assert Join(["Simple test"], "\\n") == "Simple test";
    assert Join(["Simple test"], "<br>" + "\\n") == "Simple test";
    PlainLinesHtml(["Simple test"], map[], "\\n");
    ContainsSelf("Simple test");
    ShellContains("Simple test", "Simple test");
  }

  /**
   * The raw form of a message with a subject and no images decodes to the
   * serialization of a root with that subject and a document holding the text.
   */
  method RawMimeExample(serialize: seq<Part> -> Bytes) returns (raw: string)
    ensures exists w: seq<Part> :: (Decode(UrlSafe, raw) == Some(serialize(w)) && |w| == 2 &&
      "Subject" in w[0].headers && w[0].headers["Subject"] == "Test" &&
      w[1].body.Markup? && Contains(w[1].body.html, "Simple test"))
  {
    raw := BuildRawMime("Simple test", map[], Some("Test"), None, None, "\\n", serialize);
    ghost var w :| EmailParts(w, Headers(Some("Test"), None, None), TextToHtml("Simple test", map[], "\\n"), map[]) &&
      Decode(UrlSafe, raw) == Some(serialize(w));
    SimpleTestHtml();
  }
}
