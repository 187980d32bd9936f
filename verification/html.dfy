/**
 * The HTML side of `MimeEmailBuilder`: escaping of the prose (`_escape_html`),
 * conversion of line breaks, the document shell, and the resolution of
 * placeholder tokens to image tags, by content identifier for the e-mail body
 * (a `cid:` URL, RFC 2392) or by inline data for the clipboard (a `data:` URL,
 * RFC 2397).
 */
module Html {
  import opened Wrappers
  import opened Text
  import opened Placeholders
  import opened Base64

  /** The characters that markup gives a meaning to. */
  predicate Special(c: char)
  {
    c == '&' || c == '<' || c == '>' || c == '"' || c == '\''
  }

  /** The character reference written for one character of prose. */
  function EscapeChar(c: char): string
  {
    if c == '&' then "&amp;"
    else if c == '<' then "&lt;"
    else if c == '>' then "&gt;"
    else if c == '"' then "&quot;"
    else if c == '\'' then "&#x27;"
    else [c]
  }

  /** `_escape_html`: every special character replaced by its reference. */
  function Escape(s: string): string
    decreases |s|
  {
    if |s| == 0 then "" else EscapeChar(s[0]) + Escape(s[1..])
  }

  /** Reads the five references back (Python's `html.unescape` restricted to them). */
  function Unescape(h: string): string
    decreases |h|
  {
    if |h| == 0 then ""
    else if StartsAt(h, 0, "&amp;") then "&" + Unescape(h[5..])
    else if StartsAt(h, 0, "&lt;") then "<" + Unescape(h[4..])
    else if StartsAt(h, 0, "&gt;") then ">" + Unescape(h[4..])
    else if StartsAt(h, 0, "&quot;") then "\"" + Unescape(h[6..])
    else if StartsAt(h, 0, "&#x27;") then "'" + Unescape(h[6..])
    else [h[0]] + Unescape(h[1..])
  }

  /** Text that does not begin with `&` begins with no reference. */
  lemma NoReference(h: string)
    requires |h| > 0 && h[0] != '&'
    ensures !StartsAt(h, 0, "&amp;") && !StartsAt(h, 0, "&lt;") && !StartsAt(h, 0, "&gt;")
    ensures !StartsAt(h, 0, "&quot;") && !StartsAt(h, 0, "&#x27;")
  {
    FirstChar(h, "&amp;");
    FirstChar(h, "&lt;");
    FirstChar(h, "&gt;");
    FirstChar(h, "&quot;");
    FirstChar(h, "&#x27;");
  }

  /** The reference at the front of `h` is read back as `c`; the text after it is read on. */
  lemma UnescapeFront(h: string, e: string, c: char, rest: string)
    requires h == e + rest
    requires (c == '&' && e == "&amp;") || (c == '<' && e == "&lt;") || (c == '>' && e == "&gt;") ||
             (c == '"' && e == "&quot;") || (c == '\'' && e == "&#x27;")
    ensures Unescape(h) == [c] + Unescape(rest)
  {
    assert h[..|e|] == e && h[|e|..] == rest;
    assert StartsAt(h, 0, e);
    SecondChar(h, "&amp;");
    SecondChar(h, "&lt;");
    SecondChar(h, "&gt;");
    SecondChar(h, "&quot;");
    SecondChar(h, "&#x27;");
  }

  /** A pattern at the front of `h` fixes its second character. */
  lemma SecondChar(h: string, p: string)
    requires |p| > 1
    ensures StartsAt(h, 0, p) ==> h[1] == p[1]
  {
    if StartsAt(h, 0, p) {
      assert h[0..|p|][1] == h[1];
    }
  }

  /** Unescaping reads the reference of one character back as that character. */
  lemma UnescapeChar(c: char, rest: string)
    ensures Unescape(EscapeChar(c) + rest) == [c] + Unescape(rest)
  {
    var h := EscapeChar(c) + rest;
    if Special(c) {
      UnescapeFront(h, EscapeChar(c), c, rest);
    } else {
      assert h[0] == c && h[1..] == rest;
      NoReference(h);
    }
  }

  /** Unescaping undoes escaping. */
  lemma {:induction false} EscapeRoundTrip(s: string)
    ensures Unescape(Escape(s)) == s
    decreases |s|
  {
    if |s| > 0 {
      UnescapeChar(s[0], Escape(s[1..]));
      EscapeRoundTrip(s[1..]);
      assert s == [s[0]] + s[1..];
    }
  }

  /** Escaped text has no raw `<`, `>`, `"` or single quote left. */
  lemma {:induction false} EscapeSafe(s: string)
    ensures forall c :: c in Escape(s) ==> c != '<' && c != '>' && c != '"' && c != '\''
    decreases |s|
  {
    if |s| > 0 {
      EscapeSafe(s[1..]);
      var e := EscapeChar(s[0]);
      assert forall c :: c in e ==> c != '<' && c != '>' && c != '"' && c != '\'';
    }
  }

  /** Escaping works character by character, so it distributes over concatenation. */
  lemma {:induction false} EscapeAppend(a: string, b: string)
    ensures Escape(a + b) == Escape(a) + Escape(b)
    decreases |a|
  {
    if |a| > 0 {
      assert (a + b)[0] == a[0] && (a + b)[1..] == a[1..] + b;
      EscapeAppend(a[1..], b);
    } else {
      assert a + b == b;
    }
  }

  /** Text without special characters is left as it is. */
  lemma {:induction false} EscapeKeep(s: string)
    requires forall c :: c in s ==> !Special(c)
    ensures Escape(s) == s
    decreases |s|
  {
    if |s| > 0 {
      assert s[0] in s;
      EscapeKeep(s[1..]);
      assert s == [s[0]] + s[1..];
    }
  }

  /** Escaping introduces no brace. */
  lemma {:induction false} EscapeLacksBrace(s: string)
    requires '{' !in s
    ensures '{' !in Escape(s)
    decreases |s|
  {
    if |s| > 0 {
      assert s[0] in s;
      EscapeLacksBrace(s[1..]);
    }
  }

  /**
   * Line breaks: every occurrence of the break sequence `brk`, left to right,
   * becomes `<br>` followed by the break itself (Python's
   * `s.replace(brk, "<br>" + brk)`).
   */
  function Breaks(s: string, brk: string): string
    requires |brk| > 0
    decreases |s|
  {
    if |s| == 0 then ""
    else if StartsAt(s, 0, brk) then "<br>" + brk + Breaks(s[|brk|..], brk)
    else [s[0]] + Breaks(s[1..], brk)
  }

  /** Drops the `<br>` in front of each break again. */
  function Unbreak(h: string, brk: string): string
    requires |brk| > 0
    decreases |h|
  {
    if |h| == 0 then ""
    else if StartsAt(h, 0, "<br>" + brk) then brk + Unbreak(h[4 + |brk|..], brk)
    else [h[0]] + Unbreak(h[1..], brk)
  }

  /** On text without `<` (escaped text, say) the conversion is undone by Unbreak. */
  lemma {:induction false} BreaksRoundTrip(s: string, brk: string)
    requires |brk| > 0 && '<' !in s
    ensures Unbreak(Breaks(s, brk), brk) == s
    decreases |s|
  {
    if |s| > 0 {
      if StartsAt(s, 0, brk) {
        var rest := s[|brk|..];
        assert forall c :: c in rest ==> c in s;
        BreaksRoundTrip(rest, brk);
        var h := "<br>" + brk + Breaks(rest, brk);
        assert h[..4 + |brk|] == "<br>" + brk && h[4 + |brk|..] == Breaks(rest, brk);
        assert s == brk + rest;
      } else {
        assert s[0] in s;
        LacksTail(s, '<');
        BreaksRoundTrip(s[1..], brk);
        var h := [s[0]] + Breaks(s[1..], brk);
        assert !StartsAt(h, 0, "<br>" + brk) by {
          assert h[0] == s[0] != '<';
          FirstChar(h, "<br>" + brk);
        }
        assert h[1..] == Breaks(s[1..], brk);
        assert s == [s[0]] + s[1..];
      }
    }
  }

  /** A prefix in which no break can begin is copied unchanged. */
  lemma {:induction false} BreaksSkip(a: string, b: string, brk: string)
    requires |brk| > 0 && brk[0] !in a
    ensures Breaks(a + b, brk) == a + Breaks(b, brk)
    decreases |a|
  {
    if |a| > 0 {
      var s := a + b;
      assert s[0] == a[0] != brk[0];
      FirstChar(s, brk);
      assert s[1..] == a[1..] + b;
      LacksTail(a, brk[0]);
      BreaksSkip(a[1..], b, brk);
      assert a == [a[0]] + a[1..];
    } else {
      assert a + b == b;
    }
  }

  /** Text in which no break can begin is left as it is. */
  lemma BreaksKeep(s: string, brk: string)
    requires |brk| > 0 && brk[0] !in s
    ensures Breaks(s, brk) == s
  {
    BreaksSkip(s, "", brk);
    assert s + "" == s;
  }

  /** A break after a stretch in which no break begins gets its `<br>`. */
  lemma BreaksLine(a: string, b: string, brk: string)
    requires |brk| > 0 && brk[0] !in a
    ensures Breaks(a + brk + b, brk) == a + "<br>" + brk + Breaks(b, brk)
  {
    assert a + brk + b == a + (brk + b);
    BreaksSkip(a, brk + b, brk);
    var s := brk + b;
    assert s[..|brk|] == brk && s[|brk|..] == b;
  }

  /** `lines` joined by `sep` (Python's `sep.join(lines)`). */
  function Join(lines: seq<string>, sep: string): string
    requires |lines| > 0
    decreases |lines|
  {
    if |lines| == 1 then lines[0] else lines[0] + sep + Join(lines[1..], sep)
  }

  /** A character in no line and not in the separator is not in the joined text. */
  lemma {:induction false} JoinLacks(lines: seq<string>, sep: string, c: char)
    requires |lines| > 0 && c !in sep && forall i :: 0 <= i < |lines| ==> c !in lines[i]
    ensures c !in Join(lines, sep)
    decreases |lines|
  {
    if |lines| > 1 {
      JoinLacks(lines[1..], sep, c);
      assert c !in lines[0];
    }
  }

  /**
   * Lines in which no break can begin, joined by breaks: each break gets its
   * `<br>`, and nothing else changes.
   */
  lemma {:induction false} BreaksJoin(lines: seq<string>, brk: string)
    requires |brk| > 0 && |lines| > 0 && forall i :: 0 <= i < |lines| ==> brk[0] !in lines[i]
    ensures Breaks(Join(lines, brk), brk) == Join(lines, "<br>" + brk)
    decreases |lines|
  {
    if |lines| == 1 {
      BreaksKeep(lines[0], brk);
    } else {
      var rest := Join(lines[1..], brk);
      assert brk[0] !in lines[0];
      BreaksLine(lines[0], rest, brk);
      BreaksJoin(lines[1..], brk);
      assert lines[0] + "<br>" + brk + Join(lines[1..], "<br>" + brk) ==
             lines[0] + ("<br>" + brk) + Join(lines[1..], "<br>" + brk);
    }
  }

  /** No break can straddle a point whose next character belongs to no break. */
  lemma NoStraddle(a: string, b: string, brk: string, i: nat)
    requires |b| > 0 && b[0] !in brk && i <= |a| < i + |brk|
    ensures !StartsAt(a + b, i, brk)
  {
    if i + |brk| <= |a + b| {
      assert (a + b)[i..i + |brk|][|a| - i] == b[0];
    }
  }

  /**
   * When the text after the cut begins with a character that belongs to no
   * break, converting the whole is converting the two parts.
   */
  lemma {:induction false} BreaksAppend(a: string, b: string, brk: string)
    requires |brk| > 0 && (|b| == 0 || b[0] !in brk)
    ensures Breaks(a + b, brk) == Breaks(a, brk) + Breaks(b, brk)
    decreases |a|
  {
    var s := a + b;
    if |a| == 0 {
      assert s == b;
    } else {
      if |b| > 0 && |a| < |brk| {
        NoStraddle(a, b, brk, 0);
      }
      if StartsAt(s, 0, brk) {
        assert |brk| <= |a|;
        assert s[..|brk|] == a[..|brk|];
        assert StartsAt(a, 0, brk);
        assert s[|brk|..] == a[|brk|..] + b;
        BreaksAppend(a[|brk|..], b, brk);
      } else {
        assert !StartsAt(a, 0, brk) by {
          if |brk| <= |a| {
            assert s[..|brk|] == a[..|brk|];
          }
        }
        assert s[1..] == a[1..] + b;
        BreaksAppend(a[1..], b, brk);
      }
    }
  }

  /** The conversion introduces no brace when the break has none. */
  lemma {:induction false} BreaksLacksBrace(s: string, brk: string)
    requires |brk| > 0 && '{' !in s && '{' !in brk
    ensures '{' !in Breaks(s, brk)
    decreases |s|
  {
    if |s| > 0 {
      assert s[0] in s;
      if StartsAt(s, 0, brk) {
        assert forall c :: c in s[|brk|..] ==> c in s;
        BreaksLacksBrace(s[|brk|..], brk);
      } else {
        LacksTail(s, '{');
        BreaksLacksBrace(s[1..], brk);
      }
    }
  }

  const Doctype: string := "<!DOCTYPE html>"
  const HtmlEnd: string := "</html>"
  const Head: string := "\n<html>\n<body>\n"
  const Header: string := Doctype + Head
  const Footer: string := "\n</body>\n" + HtmlEnd

  /** The minimal standalone document around a body. */
  function Shell(body: string): string
  {
    Header + body + Footer
  }

  /** The body of a document built by Shell, or None for any other text. */
  function ShellBody(h: string): Option<string>
  {
    if |h| >= |Header| + |Footer| && h[..|Header|] == Header && h[|h| - |Footer|..] == Footer
    then Some(h[|Header|..|h| - |Footer|])
    else None
  }

  /** The body is recovered from its document. */
  lemma ShellRoundTrip(body: string)
    ensures ShellBody(Shell(body)) == Some(body)
  {
    var h := Shell(body);
    assert h[..|Header|] == Header;
    assert h[|h| - |Footer|..] == Footer;
    assert h[|Header|..|h| - |Footer|] == body;
  }

  /** A document declares its type, closes its root element and contains its body. */
  lemma ShellContains(body: string, p: string)
    ensures Contains(Shell(body), Doctype) && Contains(Shell(body), HtmlEnd)
    ensures Contains(body, p) ==> Contains(Shell(body), p)
  {
    ContainsSelf(Doctype);
    ContainsAppend(Doctype, Header[|Doctype|..] + body + Footer, Doctype);
    assert Shell(body) == Doctype + (Header[|Doctype|..] + body + Footer);
    ContainsSelf(HtmlEnd);
    ContainsAppend(HtmlEnd, Header + body + "\n</body>\n", HtmlEnd);
    assert Shell(body) == (Header + body + "\n</body>\n") + HtmlEnd;
    if Contains(body, p) {
      ContainsAppend(body, Footer, p);
      ContainsAppend(body + Footer, Header, p);
      assert Shell(body) == Header + (body + Footer);
    }
  }

  /** The shell adds no brace. */
  lemma ShellLacksBrace(body: string)
    requires '{' !in body
    ensures '{' !in Shell(body)
  {
    assert forall i :: 0 <= i < |Doctype| ==> Doctype[i] != '{';
    assert forall i :: 0 <= i < |Head| ==> Head[i] != '{';
    assert forall i :: 0 <= i < |Footer| ==> Footer[i] != '{';
  }

  /** How an image is referred to: by content identifier, or inline as data. */
  datatype Mode = ContentId | InlineData

  /** The `src` of an image: `cid:KEY`, or a `data:` URL with the standard base64 of the bytes. */
  function Source(mode: Mode, key: string, png: Bytes): string
  {
    match mode
    case ContentId => "cid:" + key
    case InlineData => "data:image/png;base64," + Encode(Standard, png)
  }

  /** The `src` attribute of an image tag, quotes included. */
  function SrcAttr(mode: Mode, key: string, png: Bytes): string
  {
    "src=\"" + Source(mode, key, png) + "\""
  }

  /** The image tag that replaces a placeholder token; its quotes are not escaped. */
  function Tag(mode: Mode, key: string, png: Bytes): string
  {
    "<img " + SrcAttr(mode, key, png) + ">"
  }

  /** The key inside the placeholder token at the start of `s`: `{{`, the key, the nearest `}}`. */
  function TokenKey(s: string): (r: Option<string>)
    ensures r.Some? ==> |r.value| + 4 <= |s| && s[..|r.value| + 4] == "{{" + r.value + "}}"
  {
    if StartsAt(s, 0, "{{") then
      match FindFrom(s, "}}", 2)
      case Some(j) =>
        assert s[..j + 2] == s[0..2] + s[2..j] + s[j..j + 2];
        Some(s[2..j])
      case None => None
    else None
  }

  /**
   * Placeholder resolution: each token whose key is in `images` becomes the
   * image tag of that key; every other character is copied.
   */
  function Resolve(s: string, images: map<string, Bytes>, mode: Mode): string
    decreases |s|
  {
    if |s| == 0 then ""
    else
      var k := TokenKey(s);
      if k.Some? && k.value in images then
        Tag(mode, k.value, images[k.value]) + Resolve(s[|k.value| + 4..], images, mode)
      else [s[0]] + Resolve(s[1..], images, mode)
  }

  /** A character other than `{` is copied. */
  lemma ResolveCopy(s: string, images: map<string, Bytes>, mode: Mode)
    requires |s| > 0 && s[0] != '{'
    ensures Resolve(s, images, mode) == [s[0]] + Resolve(s[1..], images, mode)
  {
    FirstChar(s, "{{");
  }

  /** A leading character other than `{` is copied. */
  lemma ResolveCons(c: char, u: string, images: map<string, Bytes>, mode: Mode)
    requires c != '{'
    ensures Resolve([c] + u, images, mode) == [c] + Resolve(u, images, mode)
  {
    ResolveCopy([c] + u, images, mode);
    assert ([c] + u)[1..] == u;
  }

  /** Text before which no token can begin is copied unchanged. */
  lemma {:induction false} ResolveSkip(a: string, b: string, images: map<string, Bytes>, mode: Mode)
    requires '{' !in a
    ensures Resolve(a + b, images, mode) == a + Resolve(b, images, mode)
    decreases |a|
  {
    if |a| > 0 {
      var c, t := a[0], a[1..];
      assert a == [c] + t && c in a;
      LacksTail(a, '{');
      ResolveSkip(t, b, images, mode);
      ResolveCons(c, t + b, images, mode);
      assert a + b == [c] + (t + b);
    } else {
      assert a + b == b;
    }
  }

  /** A token whose key is in the map becomes that key's image tag. */
  lemma ResolveToken(key: string, b: string, images: map<string, Bytes>, mode: Mode)
    requires key in images && '}' !in key
    ensures Resolve("{{" + key + "}}" + b, images, mode) == Tag(mode, key, images[key]) + Resolve(b, images, mode)
  {
    var s := "{{" + key + "}}" + b;
    var j := 2 + |key|;
    assert s[0..2] == "{{" && s[2..j] == key && s[j..j + 2] == "}}";
    forall p | 2 <= p < j
      ensures !StartsAt(s, p, "}}")
    {
      assert s[p] == key[p - 2];
      assert key[p - 2] in key;
      assert forall q: string :: StartsAt(s, p, q) && |q| > 0 ==> s[p] == s[p..p + |q|][0] == q[0];
    }
    FindFromFirst(s, "}}", 2, j);
    assert TokenKey(s) == Some(key);
    assert s[|key| + 4..] == b;
  }

  /** The image tags of `k` consecutive placeholders, the first with index `n`. */
  function Tags(mode: Mode, n: nat, k: nat, images: map<string, Bytes>): (t: seq<string>)
    requires forall a :: n <= a < n + k ==> Key(a) in images
    ensures |t| == k && forall a :: 0 <= a < k ==> t[a] == Tag(mode, Key(n + a), images[Key(n + a)])
  {
    seq(k, a requires 0 <= a < k => Tag(mode, Key(n + a), images[Key(n + a)]))
  }

  /** A break sequence none of whose characters can occur in a placeholder token. */
  predicate BreakOk(brk: string)
  {
    |brk| > 0 && forall c :: c in brk ==> c != '{' && c != '}' && !KeyChar(c)
  }

  /** Each stretch of prose escaped and with its breaks converted. */
  function Prose(gaps: seq<string>, brk: string): (p: seq<string>)
    requires |brk| > 0
    ensures |p| == |gaps| && forall i :: 0 <= i < |gaps| ==> p[i] == Breaks(Escape(gaps[i]), brk)
  {
    seq(|gaps|, i requires 0 <= i < |gaps| => Breaks(Escape(gaps[i]), brk))
  }

  /** Escaping a token followed by more text keeps the token and escapes the rest. */
  lemma EscapeAfterToken(g: string, n: nat, w: string)
    ensures Escape(g + Token(n) + w) == Escape(g) + Token(n) + Escape(w)
  {
    EscapeAppend(g + Token(n), w);
    EscapeAppend(g, Token(n));
    TokenChars(n);
    EscapeKeep(Token(n));
  }

  /** Converting breaks around a token leaves the token whole. */
  lemma BreaksAroundToken(p: string, n: nat, w: string, brk: string)
    requires BreakOk(brk)
    ensures Breaks(p + Token(n) + w, brk) == Breaks(p, brk) + (Token(n) + Breaks(w, brk))
  {
    var t := Token(n);
    assert t[0] == t[..2][0] == '{';
    assert p + t + w == p + (t + w);
    BreaksAppend(p, t + w, brk);
    TokenChars(n);
    assert brk[0] in brk;
    BreaksSkip(t, w, brk);
  }

  /** Resolving a stretch of prose, a token whose key is mapped, and more text. */
  lemma ResolveAroundToken(p: string, n: nat, w: string, images: map<string, Bytes>, mode: Mode)
    requires '{' !in p && Key(n) in images
    ensures Resolve(p + (Token(n) + w), images, mode) == p + Tag(mode, Key(n), images[Key(n)]) + Resolve(w, images, mode)
  {
    ResolveSkip(p, Token(n) + w, images, mode);
    var k := Key(n);
    assert '}' !in k by {
      forall c | c in k
        ensures c != '}'
      {
        var j :| 0 <= j < |k| && k[j] == c;
        assert KeyChar(k[j]);
      }
    }
    ResolveToken(k, w, images, mode);
  }

  /** Prose without braces keeps none after escaping and break conversion. */
  lemma ProseLacksBrace(g: string, brk: string)
    requires BreakOk(brk) && '{' !in g
    ensures '{' !in Breaks(Escape(g), brk)
  {
    EscapeLacksBrace(g);
    BreaksLacksBrace(Escape(g), brk);
  }

  /**
   * The HTML fragment of a processed text, token by token: each stretch of
   * prose escaped and with its breaks converted, each token replaced by its
   * image tag.
   */
  lemma {:induction false} ComposeWeave(gaps: seq<string>, n: nat, k: nat, images: map<string, Bytes>, mode: Mode, brk: string)
    requires BreakOk(brk) && |gaps| == k + 1
    requires forall i :: 0 <= i < |gaps| ==> '{' !in gaps[i]
    requires forall a :: n <= a < n + k ==> Key(a) in images
    ensures Resolve(Breaks(Escape(Weave(gaps, Tokens(n, k))), brk), images, mode) ==
            Weave(Prose(gaps, brk), Tags(mode, n, k, images))
    decreases k
  {
    var p0 := Breaks(Escape(gaps[0]), brk);
    ProseLacksBrace(gaps[0], brk);
    if k == 0 {
      ResolveSkip(p0, "", images, mode);
      assert p0 + "" == p0;
    } else {
      assert Tokens(n, k)[1..] == Tokens(n + 1, k - 1);
      var w := Weave(gaps[1..], Tokens(n + 1, k - 1));
      assert Weave(gaps, Tokens(n, k)) == gaps[0] + Token(n) + w;
      EscapeAfterToken(gaps[0], n, w);
      BreaksAroundToken(Escape(gaps[0]), n, Escape(w), brk);
      ResolveAroundToken(p0, n, Breaks(Escape(w), brk), images, mode);
      ComposeWeave(gaps[1..], n + 1, k - 1, images, mode, brk);
      assert Prose(gaps, brk)[1..] == Prose(gaps[1..], brk);
      TagsTail(mode, n, k, images);
    }
  }

  lemma TagsTail(mode: Mode, n: nat, k: nat, images: map<string, Bytes>)
    requires k > 0 && forall a :: n <= a < n + k ==> Key(a) in images
    ensures Tags(mode, n, k, images)[1..] == Tags(mode, n + 1, k - 1, images)
  {
    var t, u := Tags(mode, n, k, images)[1..], Tags(mode, n + 1, k - 1, images);
    forall a | 0 <= a < k - 1
      ensures t[a] == u[a]
    {
      assert n + (a + 1) == n + 1 + a;
    }
  }

  /** A key is spelt without braces. */
  lemma KeyLacksBraces(n: nat)
    ensures '{' !in Key(n) && '}' !in Key(n)
  {
    var k := Key(n);
    forall c | c in k
      ensures c != '{' && c != '}'
    {
      var j :| 0 <= j < |k| && k[j] == c;
      assert KeyChar(k[j]);
    }
  }

  /** The `src` of a key's image has no brace. */
  lemma SourceLacksBrace(mode: Mode, n: nat, png: Bytes)
    ensures '{' !in Source(mode, Key(n), png)
  {
    KeyLacksBraces(n);
    if mode == InlineData {
      var e := Encode(Standard, png);
      EncodeChars(Standard, png);
      forall c | c in e
        ensures c != '{'
      {
        var j :| 0 <= j < |e| && e[j] == c;
      }
    }
  }

  /** An image tag holds its `src` attribute and no brace, so no token survives resolution. */
  lemma TagParts(mode: Mode, n: nat, png: Bytes)
    ensures Contains(Tag(mode, Key(n), png), SrcAttr(mode, Key(n), png))
    ensures '{' !in Tag(mode, Key(n), png)
  {
    ContainsMiddle("<img ", SrcAttr(mode, Key(n), png), ">");
    SourceLacksBrace(mode, n, png);
  }

  /**
   * The fragment for text made of brace-free prose and tokens `0 .. k-1`
   * whose keys are all mapped: it holds the `src` of each key's image and no
   * brace, so no token is left.
   */
  lemma FragmentParts(gaps: seq<string>, k: nat, images: map<string, Bytes>, mode: Mode, brk: string)
    requires BreakOk(brk) && |gaps| == k + 1
    requires forall i :: 0 <= i < |gaps| ==> '{' !in gaps[i]
    requires forall a :: 0 <= a < k ==> Key(a) in images
    ensures var f := Resolve(Breaks(Escape(Weave(gaps, Tokens(0, k))), brk), images, mode);
      '{' !in f && forall a :: 0 <= a < k ==> Contains(f, SrcAttr(mode, Key(a), images[Key(a)]))
  {
    ComposeWeave(gaps, 0, k, images, mode, brk);
    var p, t := Prose(gaps, brk), Tags(mode, 0, k, images);
    forall i | 0 <= i < |p|
      ensures '{' !in p[i]
    {
      ProseLacksBrace(gaps[i], brk);
    }
    forall a | 0 <= a < k
      ensures '{' !in t[a] && Contains(Weave(p, t), SrcAttr(mode, Key(a), images[Key(a)]))
    {
      TagParts(mode, a, images[Key(a)]);
      WeaveContains(p, t, a);
      ContainsTrans(Weave(p, t), t[a], SrcAttr(mode, Key(a), images[Key(a)]));
    }
    WeaveLacks(p, t, '{');
  }

  /** A line that escaping, break conversion and resolution all copy unchanged. */
  predicate PlainLine(s: string, brk: string)
    requires |brk| > 0
  {
    forall c :: c in s ==> !Special(c) && c != '{' && c != brk[0]
  }

  /**
   * Plain lines joined by breaks: the document shows the same lines with a
   * `<br>` in front of each break.
   */
  lemma PlainLinesHtml(lines: seq<string>, images: map<string, Bytes>, brk: string)
    requires BreakOk(brk) && |lines| > 0 && forall i :: 0 <= i < |lines| ==> PlainLine(lines[i], brk)
    requires forall c :: c in brk ==> !Special(c)
    ensures TextToHtml(Join(lines, brk), images, brk) == Shell(Join(lines, "<br>" + brk))
  {
    var t := Join(lines, brk);
    forall c | Special(c) || c == '{'
      ensures c !in t
    {
      JoinLacks(lines, brk, c);
    }
    EscapeKeep(t);
    forall i | 0 <= i < |lines|
      ensures brk[0] !in lines[i]
    {
    }
    BreaksJoin(lines, brk);
    JoinLacks(lines, "<br>" + brk, '{');
    ResolveSkip(Join(lines, "<br>" + brk), "", images, ContentId);
    assert Join(lines, "<br>" + brk) + "" == Join(lines, "<br>" + brk);
  }

  /** `_text_to_html`: escape, convert breaks, resolve to `cid:` tags, wrap in the shell. */
  function TextToHtml(text: string, images: map<string, Bytes>, brk: string): string
    requires |brk| > 0
  {
    Shell(Resolve(Breaks(Escape(text), brk), images, ContentId))
  }

  /** `build_clipboard_html`: the same fragment with inline `data:` images and no shell. */
  function ClipboardHtml(text: string, images: map<string, Bytes>, brk: string): string
    requires |brk| > 0
  {
    Resolve(Breaks(Escape(text), brk), images, InlineData)
  }
}
