/**
 * `MimeEmailBuilder.build_html_email` and `build_raw_mime`: a
 * `multipart/related` message (RFC 2387) whose root is followed by the HTML
 * part and then one `image/png` part per image. Each image part carries the
 * header `Content-ID: <KEY>`, which is what a `cid:KEY` source in the HTML
 * refers to (RFC 2392). The raw form is the URL-safe base64 (section 5 of
 * RFC 4648) of the serialized message.
 */
module Mime {
  import opened Wrappers
  import opened Text
  import opened Base64
  import opened Html

  const Related: string := "multipart/related"
  const HtmlType: string := "text/html"
  const PngType: string := "image/png"

  /** What a part holds: further parts (the root), markup, or image bytes. */
  datatype Body = Container | Markup(html: string) | Picture(png: Bytes)

  /** One node of the message as `msg.walk()` yields it. */
  datatype Part = Part(contentType: string, headers: map<string, string>, body: Body)

  /** The `Content-ID` header value of a key: the key in angle brackets. */
  function CidHeader(key: string): (h: string)
    ensures |h| == |key| + 2 && h[0] == '<' && h[|h| - 1] == '>' && h[1..|h| - 1] == key
  {
    "<" + key + ">"
  }

  /** The key an image part is filed under: its Content-ID without the angle brackets. */
  function KeyOf(p: Part): string
  {
    if "Content-ID" in p.headers && |p.headers["Content-ID"]| >= 2
    then p.headers["Content-ID"][1..|p.headers["Content-ID"]| - 1]
    else ""
  }

  /**
   * The part that carries one image; its type is `image/png` whatever the
   * bytes are, and its Content-ID gives the key back.
   */
  function ImagePart(key: string, png: Bytes): (p: Part)
    ensures p.contentType == PngType && p.body == Picture(png)
    ensures "Content-ID" in p.headers && p.headers["Content-ID"] == CidHeader(key)
    ensures KeyOf(p) == key
  {
    Part(PngType, map["Content-ID" := CidHeader(key)], Picture(png))
  }

  function HtmlPart(html: string): Part
  {
    Part(HtmlType, map[], Markup(html))
  }

  /**
   * The header fields of the root: Subject, From and To, each present exactly
   * when its argument is given.
   */
  function Headers(subject: Option<string>, from: Option<string>, to: Option<string>): (h: map<string, string>)
    ensures h.Keys <= {"Subject", "From", "To"}
    ensures "Subject" in h <==> subject.Some?
    ensures "From" in h <==> from.Some?
    ensures "To" in h <==> to.Some?
    ensures subject.Some? ==> h["Subject"] == subject.value
    ensures from.Some? ==> h["From"] == from.value
    ensures to.Some? ==> h["To"] == to.value
  {
    var h0: map<string, string> := map[];
    var h1 := if subject.Some? then h0["Subject" := subject.value] else h0;
    var h2 := if from.Some? then h1["From" := from.value] else h1;
    if to.Some? then h2["To" := to.value] else h2
  }

  /** `p` is the image part of its own key, and that key is in the map. */
  predicate ImageOf(p: Part, images: map<string, Bytes>)
  {
    KeyOf(p) in images && p == ImagePart(KeyOf(p), images[KeyOf(p)])
  }

  /** Every part of `ps` is the image part of its key in the map. */
  predicate Images(ps: seq<Part>, images: map<string, Bytes>)
  {
    forall i :: 0 <= i < |ps| ==> ImageOf(ps[i], images)
  }

  /** The keys the image parts `ps` are filed under, in order. */
  function ImageKeys(ps: seq<Part>): (ks: seq<string>)
    ensures |ks| == |ps| && forall i :: 0 <= i < |ps| ==> ks[i] == KeyOf(ps[i])
  {
    seq(|ps|, i requires 0 <= i < |ps| => KeyOf(ps[i]))
  }

  /**
   * The walked parts of a built message: the root with its header fields,
   * the HTML document, then image parts whose keys are those of the map,
   * each exactly once, in some order.
   */
  predicate EmailParts(w: seq<Part>, headers: map<string, string>, html: string, images: map<string, Bytes>)
  {
    |w| == |images| + 2 &&
    w[0] == Part(Related, headers, Container) &&
    w[1] == HtmlPart(html) &&
    Images(w[2..], images) &&
    multiset(ImageKeys(w[2..])) == multiset(images.Keys)
  }

  /** A key of the map is listed by a sequence holding each key once. */
  lemma Listed(ks: seq<string>, keys: set<string>, key: string)
    requires multiset(ks) == multiset(keys) && key in keys
    ensures exists j :: 0 <= j < |ks| && ks[j] == key
  {
    assert key in multiset(keys);
    assert key in multiset(ks);
  }

  /** A sequence holding each key of a set once repeats none. */
  lemma ListedOnce(ks: seq<string>, keys: set<string>, i: nat, j: nat)
    requires multiset(ks) == multiset(keys) && i < j < |ks|
    ensures ks[i] != ks[j]
  {
    if ks[i] == ks[j] {
      TwiceCounted(ks, i, j);
    }
  }

  /** Every image of the map has its part in a built message. */
  lemma EmailCoversKeys(w: seq<Part>, headers: map<string, string>, html: string, images: map<string, Bytes>, key: string)
    requires EmailParts(w, headers, html, images) && key in images
    ensures exists i :: 2 <= i < |w| && w[i] == ImagePart(key, images[key])
  {
    var ks := ImageKeys(w[2..]);
    Listed(ks, images.Keys, key);
    var j :| 0 <= j < |ks| && ks[j] == key;
    assert w[j + 2] == w[2..][j];
    assert ImageOf(w[2..][j], images);
  }

  /** No two image parts of a built message share a key. */
  lemma EmailKeysDistinct(w: seq<Part>, headers: map<string, string>, html: string, images: map<string, Bytes>, i: nat, j: nat)
    requires EmailParts(w, headers, html, images) && 2 <= i < j < |w|
    ensures KeyOf(w[i]) != KeyOf(w[j])
  {
    var ks := ImageKeys(w[2..]);
    ListedOnce(ks, images.Keys, i - 2, j - 2);
    assert ks[i - 2] == KeyOf(w[i]) && ks[j - 2] == KeyOf(w[j]);
  }

  /** One more image part, for a key not yet attached, keeps the parts matched with the keys. */
  lemma AttachImage(ps: seq<Part>, order: seq<string>, remaining: set<string>, images: map<string, Bytes>, key: string)
    requires Images(ps, images) && ImageKeys(ps) == order
    requires multiset(order) + multiset(remaining) == multiset(images.Keys)
    requires key in remaining && remaining <= images.Keys
    ensures Images(ps + [ImagePart(key, images[key])], images)
    ensures ImageKeys(ps + [ImagePart(key, images[key])]) == order + [key]
    ensures multiset(order + [key]) + multiset(remaining - {key}) == multiset(images.Keys)
  {
    assert multiset(remaining) == multiset(remaining - {key}) + multiset{key};
  }

  /** An element at two positions is counted at least twice. */
  lemma {:induction false} TwiceCounted(ks: seq<string>, i: nat, j: nat)
    requires i < j < |ks| && ks[i] == ks[j]
    ensures multiset(ks)[ks[i]] >= 2
  {
    var x := ks[i];
    assert ks == ks[..i] + [x] + ks[i + 1..j] + [x] + ks[j + 1..];
  }

  lemma TailAppend<T>(ps: seq<T>, p: T)
    requires |ps| >= 1
    ensures (ps + [p])[1..] == ps[1..] + [p]
  {
  }

  lemma ConsParts<T>(x: T, ps: seq<T>)
    requires |ps| >= 1
    ensures ([x] + ps)[0] == x && ([x] + ps)[1] == ps[0] && ([x] + ps)[2..] == ps[1..]
  {
  }

  /** The root, the document, then every image once, make a built message. */
  lemma Assembled(w: seq<Part>, headers: map<string, string>, html: string, images: map<string, Bytes>,
                  parts: seq<Part>, order: seq<string>)
    requires w == [Part(Related, headers, Container)] + parts
    requires |parts| >= 1 && parts[0] == HtmlPart(html)
    requires Images(parts[1..], images) && ImageKeys(parts[1..]) == order
    requires multiset(order) == multiset(images.Keys) && |order| == |images|
    ensures EmailParts(w, headers, html, images)
  {
    ConsParts(Part(Related, headers, Container), parts);
  }

  /** The message under construction: the root's header fields and its parts. */
  class Message {
    var headers: map<string, string>
    var parts: seq<Part>

    constructor ()
      ensures headers == map[] && parts == []
    {
      headers := map[];
      parts := [];
    }

    /** `msg[name] = value`. */
    method SetHeader(name: string, value: string)
      modifies this
      ensures headers == old(headers)[name := value] && parts == old(parts)
    {
      headers := headers[name := value];
    }

    /** `msg.attach(part)`. */
    method Attach(p: Part)
      modifies this
      ensures parts == old(parts) + [p] && headers == old(headers)
    {
      parts := parts + [p];
    }

    /** The root followed by its parts, as `msg.walk()` yields them. */
    function Walk(): seq<Part>
      reads this
    {
      [Part(Related, headers, Container)] + parts
    }
  }

  /**
   * `build_html_email`: sets the given header fields, attaches the HTML
   * document, then one image part per entry of `images`.
   */
  method BuildHtmlEmail(text: string, images: map<string, Bytes>,
                        subject: Option<string>, from: Option<string>, to: Option<string>, brk: string)
    returns (msg: Message)
    requires |brk| > 0
    ensures fresh(msg)
    ensures EmailParts(msg.Walk(), Headers(subject, from, to), TextToHtml(text, images, brk), images)
  {
    msg := new Message();
    if subject.Some? {
      msg.SetHeader("Subject", subject.value);
    }
    if from.Some? {
      msg.SetHeader("From", from.value);
    }
    if to.Some? {
      msg.SetHeader("To", to.value);
    }
    ghost var headers := Headers(subject, from, to);
    assert msg.headers == headers;
    var html := TextToHtml(text, images, brk);
    msg.Attach(HtmlPart(html));
    var remaining := images.Keys;
    ghost var order: seq<string> := [];
    while remaining != {}
      invariant remaining <= images.Keys && |order| + |remaining| == |images|
      invariant multiset(order) + multiset(remaining) == multiset(images.Keys)
      invariant msg.headers == headers
      invariant |msg.parts| >= 1 && msg.parts[0] == HtmlPart(html)
      invariant Images(msg.parts[1..], images) && ImageKeys(msg.parts[1..]) == order
      decreases |remaining|
    {
      var key :| key in remaining;
      AttachImage(msg.parts[1..], order, remaining, images, key);
      TailAppend(msg.parts, ImagePart(key, images[key]));
      msg.Attach(ImagePart(key, images[key]));
      remaining := remaining - {key};
      order := order + [key];
    }
    Assembled(msg.Walk(), headers, html, images, msg.parts, order);
  }

  /**
   * `build_raw_mime`: the message of `build_html_email`, serialized by
   * `serialize` and then URL-safe base64 encoded; it decodes back to that
   * serialization.
   */
  method BuildRawMime(text: string, images: map<string, Bytes>,
                      subject: Option<string>, from: Option<string>, to: Option<string>, brk: string,
                      serialize: seq<Part> -> Bytes)
    returns (raw: string)
    requires |brk| > 0
    ensures exists w :: (EmailParts(w, Headers(subject, from, to), TextToHtml(text, images, brk), images) &&
      Decode(UrlSafe, raw) == Some(serialize(w)))
    ensures '+' !in raw && '/' !in raw
  {
    var msg := BuildHtmlEmail(text, images, subject, from, to, brk);
    var w := msg.Walk();
    raw := Encode(UrlSafe, serialize(w));
    DecodeEncode(UrlSafe, serialize(w));
    UrlSafeChars(serialize(w));
  }

  /** What an image part of the map carries. */
  lemma ImageOfParts(p: Part, images: map<string, Bytes>)
    requires ImageOf(p, images)
    ensures p.contentType == PngType && "Content-ID" in p.headers
    ensures p.headers["Content-ID"] == CidHeader(KeyOf(p)) && KeyOf(p) in images
  {
  }

  /** The Content-ID header of a part, or the empty string when it has none. */
  function PartId(p: Part): string
  {
    if "Content-ID" in p.headers then p.headers["Content-ID"] else ""
  }

  /** The Content-IDs of the parts after the root and the document. */
  function ContentIds(w: seq<Part>): set<string>
  {
    set i | 2 <= i < |w| :: PartId(w[i])
  }

  /** The Content-IDs the keys of a map call for. */
  function KeyIds(images: map<string, Bytes>): set<string>
  {
    set key | key in images :: CidHeader(key)
  }

  /** Each image part of a built message is `image/png` with the Content-ID of a key of the map. */
  lemma EmailIdsWithin(w: seq<Part>, headers: map<string, string>, html: string, images: map<string, Bytes>)
    requires EmailParts(w, headers, html, images)
    ensures forall i :: 2 <= i < |w| ==> w[i].contentType == PngType && "Content-ID" in w[i].headers
    ensures ContentIds(w) <= KeyIds(images)
  {
    forall i | 2 <= i < |w|
      ensures w[i].contentType == PngType && "Content-ID" in w[i].headers
      ensures PartId(w[i]) in KeyIds(images)
    {
      assert w[i] == w[2..][i - 2];
      ImageOfParts(w[i], images);
    }
  }

  /** Every key of the map gives the Content-ID of an image part of a built message. */
  lemma EmailIdsCover(w: seq<Part>, headers: map<string, string>, html: string, images: map<string, Bytes>)
    requires EmailParts(w, headers, html, images)
    ensures KeyIds(images) <= ContentIds(w)
  {
    forall key | key in images
      ensures CidHeader(key) in ContentIds(w)
    {
      EmailCoversKeys(w, headers, html, images, key);
      var i :| 2 <= i < |w| && w[i] == ImagePart(key, images[key]);
      assert PartId(w[i]) == CidHeader(key);
    }
  }

  /** The Content-IDs of the image parts are exactly the keys, each in angle brackets. */
  lemma EmailContentIds(w: seq<Part>, headers: map<string, string>, html: string, images: map<string, Bytes>)
    requires EmailParts(w, headers, html, images)
    ensures forall i :: 2 <= i < |w| ==> w[i].contentType == PngType && "Content-ID" in w[i].headers
    ensures ContentIds(w) == KeyIds(images)
  {
    EmailIdsWithin(w, headers, html, images);
    EmailIdsCover(w, headers, html, images);
  }
}
