/**
 * The two stages together: the HTML of `_text_to_html` and
 * `build_clipboard_html` for the processed text and image map that
 * `process_text` produces.
 */
module Pipeline {
  import opened Text
  import opened Placeholders
  import opened Extractor
  import opened Converter
  import opened Html
  import opened Mime

  /**
   * The e-mail body for a processed text is a full document that shows the
   * image of every span by its content identifier and keeps no token.
   */
  lemma EmailHtml(text: string, images: map<string, Bytes>, brk: string)
    requires BreakOk(brk) && PlainProse(text)
    requires KeySet(|Extract(text)|) <= images.Keys
    ensures var html := TextToHtml(Processed(text), images, brk);
      Contains(html, Doctype) && Contains(html, HtmlEnd) && '{' !in html &&
      forall a :: 0 <= a < |Extract(text)| ==> Contains(html, SrcAttr(ContentId, Key(a), images[Key(a)]))
  {
    var k := |Extract(text)|;
    assert forall a :: 0 <= a < k ==> Key(a) in KeySet(k);
    ProcessedWeave(text);
    FragmentParts(TextGaps(text), k, images, ContentId, brk);
    var f := Resolve(Breaks(Escape(Processed(text)), brk), images, ContentId);
    ShellLacksBrace(f);
    forall a | 0 <= a < k
      ensures Contains(Shell(f), SrcAttr(ContentId, Key(a), images[Key(a)]))
    {
      ShellContains(f, SrcAttr(ContentId, Key(a), images[Key(a)]));
    }
    ShellContains(f, "");
  }

  /**
   * The clipboard fragment for a processed text carries every span's image
   * inline as data and keeps no token.
   */
  lemma ClipboardFragment(text: string, images: map<string, Bytes>, brk: string)
    requires BreakOk(brk) && PlainProse(text)
    requires KeySet(|Extract(text)|) <= images.Keys
    ensures var f := ClipboardHtml(Processed(text), images, brk);
      '{' !in f &&
      forall a :: 0 <= a < |Extract(text)| ==> Contains(f, SrcAttr(InlineData, Key(a), images[Key(a)]))
  {
    var k := |Extract(text)|;
    assert forall a :: 0 <= a < k ==> Key(a) in KeySet(k);
    ProcessedWeave(text);
    FragmentParts(TextGaps(text), k, images, InlineData, brk);
  }

  /**
   * In the e-mail built from a processed text, every span is shown by a
   * `cid:` source in the document, and the message carries the image part
   * whose Content-ID that source names.
   */
  lemma EmailReferencesParts(text: string, images: map<string, Bytes>, brk: string,
                             w: seq<Part>, headers: map<string, string>)
    requires BreakOk(brk) && PlainProse(text)
    requires KeySet(|Extract(text)|) <= images.Keys
    requires EmailParts(w, headers, TextToHtml(Processed(text), images, brk), images)
    ensures w[1].body.Markup?
    ensures forall a :: 0 <= a < |Extract(text)| ==>
      Contains(w[1].body.html, SrcAttr(ContentId, Key(a), images[Key(a)])) &&
      exists i :: 2 <= i < |w| && w[i] == ImagePart(Key(a), images[Key(a)])
  {
    var k := |Extract(text)|;
    EmailHtml(text, images, brk);
    forall a | 0 <= a < k
      ensures exists i :: 2 <= i < |w| && w[i] == ImagePart(Key(a), images[Key(a)])
    {
      assert Key(a) in KeySet(k);
      EmailCoversKeys(w, headers, TextToHtml(Processed(text), images, brk), images, Key(a));
    }
  }
}
