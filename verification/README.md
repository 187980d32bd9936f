# mathrender in Dafny

mathrender turns text that contains LaTeX into e-mail-ready HTML. The model
covers its two stages:

- **Extraction and substitution (`LatexToEmailConverter`).**
  - `extract_latex_expressions` scans the text for math spans delimited by
    `$$…$$`, `\[…\]`, `\(…\)` or `$…$`.
    - At each position it tries the delimiters in that order.
    - A span ends at the nearest matching closer.
    - Scanning resumes after that closer.
  - `latex_to_image` renders one expression. It fails with a
    "LaTeX compilation failed" error when LaTeX rejects the expression, and
    with an error naming dvipng when the page cannot be turned into a PNG.
  - `process_text` replaces the i-th span by the token `{{LATEX_IMG_i}}`. It
    collects the images under the keys `LATEX_IMG_i` and aborts on the first
    failure.
- **Document assembly (`MimeEmailBuilder`).**
  - `_escape_html` escapes `& < > "` and the single quote.
  - `_text_to_html` does four things:
    - escapes the prose;
    - turns each line break into `<br>` followed by the break;
    - resolves each token to an `<img>` whose source is `cid:KEY`;
    - wraps the result in an HTML document.
  - `build_clipboard_html` keeps the fragment, but with `data:image/png;base64,…`
    sources.
  - `build_html_email` builds a `multipart/related` message made of:
    - the root, carrying the Subject, From and To headers;
    - the HTML part;
    - one `image/png` part per image, with `Content-ID: <KEY>`.
  - `build_raw_mime` is the URL-safe base64 (RFC 4648, section 5) of the
    serialized message.

Modules:

| module | what it holds |
|---|---|
| `Text` | Substring search, decimal numerals, and interleaving of gaps and tokens. |
| `Placeholders` | Keys and tokens. |
| `Extractor` | The scanner: a specification function `Scan` and the loop `ExtractLatexExpressions`. |
| `Converter` | Rendering, and `ProcessText`, a loop proved against the function `Processed`. |
| `Base64` | RFC 4648 encoding and decoding, with the round trip proved. |
| `Html` | Escaping, line breaks, the document shell and token resolution. |
| `Mime` | The message as a `Message` class whose methods set headers and attach parts; `BuildHtmlEmail` and `BuildRawMime`. |
| `Pipeline` | The two stages composed. |
| `*Examples` modules | The concrete cases of the repository's tests. |

The LaTeX toolchain is a parameter `render: string -> Rendered`. Message
serialization is a parameter `serialize: seq<Part> -> Bytes`.

## Model

| member | source | states |
|---|---|---|
| Extractor.ExtractLatexExpressions | tests/test_converter.py:10-20 | The scanning loop returns exactly the spans of the scanning specification `Extract`. |
| Extractor.DelimiterAt | tests/test_converter.py:32-42 | An opener or closer of each kind is present at a position exactly when its delimiter text starts there. |
| Extractor.FindCloserSpec | tests/test_converter.py:136-146 | The search for a closer finds the nearest one at or after the content start; when it finds none, no closer follows. |
| Extractor.FindCloserFind | tests/test_converter.py:136-146 | The closer search gives the same position as a plain substring search for the closer's text from the same point. |
| Extractor.TryDelimSpec | tests/test_converter.py:32-42 | A delimiter yields a span at a position if and only if it opens there with a closer later. The span runs from the opener through the nearest closer, and its content is what lies between them. |
| Extractor.MatchAtNone | tests/test_converter.py:44-50 | Nothing matches at a position if and only if no delimiter opens there. |
| Extractor.MatchAtSome | tests/test_converter.py:32-42 | A match at a position is delimited by a delimiter that opens there, and no delimiter of higher priority opens there. |
| Extractor.DelimitsText | tests/test_converter.py:22-30 | The text of a span is its opener, then its content, then its closer. |
| Extractor.ScanOrdered | tests/test_converter.py:10-20 | Scanned spans lie inside the text, are ordered, do not overlap, and start no earlier than the scan. |
| Extractor.ScanMatches | tests/test_converter.py:32-42 | Every scanned span is exactly the match at its own start. |
| Extractor.ScanSound | tests/test_converter.py:10-42 | Scanned spans are ordered and disjoint, and each is the match at its start. |
| Extractor.ExtractOrdered | tests/test_converter.py:10-20 | The extracted spans are ordered and disjoint within the text. |
| Extractor.ScanComplete | tests/test_converter.py:136-146 | Every position at or after the scan start where a span could start lies inside a scanned span. |
| Extractor.ExtractEmpty | tests/test_converter.py:44-50 | No span is found if and only if no delimiter opens anywhere with a closer after it. |
| Extractor.NoDelimiterCharacters | tests/test_converter.py:44-50 | Text with no `$` and no backslash has no spans. |
| ExtractorExamples.ExtractInlineExample | tests/test_converter.py:13-20 | The two inline spans `x^2` and `y = mx + b`, not display. |
| ExtractorExamples.ExtractDisplayExample | tests/test_converter.py:25-30 | The single display span with the integral as content. |
| ExtractorExamples.ExtractMixedExample | tests/test_converter.py:35-42 | Four spans in order: inline, inline, display, display. |
| ExtractorExamples.ExtractPlainExample | tests/test_converter.py:47-50 | Plain prose has no spans. |
| ExtractorExamples.ExtractPriceExample | tests/test_converter.py:141-146 | Exactly one span, whose content is `10 and ` (see "Where the tests disagree"). |
| ExtractorExamples.ExtractQuadraticExample | tests/test_converter.py:87 | One inline span holding the quadratic formula. |
| ExtractorExamples.ExtractThreeExample | tests/test_converter.py:109 | Three spans, inline, display, inline, with contents `a^2`, `b^3`, `c^4`. |
| Converter.Message | tests/test_converter.py:128-134 | A compilation error's message contains "LaTeX compilation failed"; a rasterization error's message names dvipng and not the compilation failure. |
| Converter.LatexToImage | tests/test_converter.py:52-66 | The result is an image if and only if the toolchain renders one, and it is those bytes. A LaTeX failure gives a compilation error whose message contains "LaTeX compilation failed"; a dvipng failure gives a rasterization error whose message names dvipng. Both carry the expression. |
| Converter.ProcessText | tests/test_converter.py:83-126 | The call succeeds if and only if every span renders. On success, the processed text is `Processed(text)`, the map's keys are exactly the span keys, and each key holds its span's image. On failure, the error is the one `LatexToImage` gives for the first span that fails, and every earlier span rendered. |
| Converter.FitsTail | tests/test_converter.py:83-98 | Dropping the first of a run of ordered spans leaves ordered spans starting after its end. |
| Converter.Gaps | tests/test_converter.py:83-98 | There is one gap of prose more than there are spans. |
| Converter.SubstitutedWeave | tests/test_converter.py:83-98 | The substituted text interleaves the prose gaps with the tokens `{{LATEX_IMG_n}}`, … in order. |
| Converter.TextWeave | tests/test_converter.py:83-98 | The original text is those same gaps interleaved with the spans' own source text. Substitution therefore changes exactly the spans. |
| Converter.ProcessedWeave | tests/test_converter.py:83-98 | The processed text is the text's gaps interleaved with the tokens 0 … n-1. |
| Converter.ProcessedTokens | tests/test_converter.py:109-117 | The processed text contains the token of every span. |
| Converter.ProcessedPlain | tests/test_converter.py:44-50 | Text without spans is left unchanged. |
| Converter.ProcessedNoMath | tests/test_converter.py:92-94 | Extracting again from the processed text finds no span: no pair opens anywhere in it. |
| Converter.ProcessedDropsSources | tests/test_converter.py:94 | For every text and every extracted span, the span lies inside the text and its source, delimiters included, does not occur anywhere in the processed text. |
| Converter.ProcessedTokenOnce | tests/test_converter.py:113-116 | For a text whose prose has no `{`: a token occurs at a position of the processed text if and only if it is the token of one of the spans and the position is where that span stood. So each span's token occurs exactly once, and no other token occurs. |
| Converter.CollectNext | tests/test_converter.py:119-122 | Adding the next span's image keeps every earlier span's image under its own key. |
| ConverterExamples.ProcessQuadraticExample | tests/test_converter.py:87-99 | The formula is replaced by `{{LATEX_IMG_0}}` and no longer appears verbatim. The only key is `LATEX_IMG_0`. |
| ConverterExamples.ProcessThreeExample | tests/test_converter.py:109-122 | Three tokens are present. There are three keys, `LATEX_IMG_0` to `LATEX_IMG_2`. |
| Placeholders.Key | tests/test_converter.py:119-122 | A key is `LATEX_IMG_` followed by its number, in key characters only. |
| Placeholders.Token | tests/test_mime_builder.py:40-48 | A token is its key wrapped in `{{` and `}}`. |
| Placeholders.TokenChars | tests/test_mime_builder.py:40-48 | A token holds only braces and key characters. |
| Placeholders.FirstKeyNames | tests/test_converter.py:119-122 | The first three keys spelt out. |
| Placeholders.FirstTokens | tests/test_converter.py:115-117 | The first three tokens spelt out. |
| Placeholders.KeyRoundTrip | tests/test_converter.py:119-122 | A key's number can be read back from it. |
| Placeholders.KeyInjective | tests/test_converter.py:119-122 | Two spans have the same key if and only if they have the same number. |
| Placeholders.TokenAtToken | tests/test_converter.py:113-116 | A token that starts where another token starts is that same token. |
| Placeholders.TokenNotInside | tests/test_converter.py:113-116 | No token starts strictly inside another token. |
| Placeholders.TokenOnlyAt | tests/test_converter.py:113-116 | In consecutive tokens interleaved with `{`-free stretches, a token occurs only as one of those tokens, at the place it was put. |
| Placeholders.TokenOnce | tests/test_converter.py:113-116 | In tokens 0 … k-1 interleaved with `{`-free stretches, token `a` occurs at a position if and only if `a < k` and the position is where token `a` was put. |
| Placeholders.KeysCard | tests/test_converter.py:120 | n spans give exactly n distinct keys. |
| Text.DecimalRoundTrip | tests/test_converter.py:121-122 | A decimal numeral parses back to its number. |
| Text.DecimalInjective | tests/test_converter.py:121-122 | Distinct numbers have distinct numerals. |
| Text.WeaveContains | tests/test_converter.py:109-117 | An interleaving contains each of its tokens. |
| Text.WeaveAt | tests/test_converter.py:92-93 | In an interleaving, each fill stands at the index `FillStart` gives for it. |
| Text.WeaveLacks | tests/test_mime_builder.py:45-48 | An interleaving lacks a character that none of its pieces contain. |
| Html.EscapeRoundTrip | tests/test_mime_builder.py:16-22 | Unescaping the five references gives back the original text. No character is lost or altered. |
| Html.EscapeSafe | tests/test_mime_builder.py:16-22 | Escaped text contains no raw `<`, `>`, `"` or single quote (for the quote, see "## Left out"). |
| Html.EscapeAppend | tests/test_mime_builder.py:16-22 | Escaping works piece by piece. |
| Html.EscapeKeep | tests/test_mime_builder.py:28-34 | Text without special characters is unchanged by escaping. |
| Html.BreaksRoundTrip | tests/test_mime_builder.py:28-34 | Removing the inserted `<br>` gives back the text, for text without a `<`. |
| Html.BreaksJoin | tests/test_mime_builder.py:148-154 | Lines joined by the break come out joined by `<br>` plus the break. |
| Html.BreaksLine | tests/test_mime_builder.py:148-154 | A break after a line is preceded by `<br>`. |
| Html.BreaksAppend | tests/test_mime_builder.py:148-154 | Break conversion works piece by piece when no break straddles the seam. |
| Html.ShellRoundTrip | tests/test_mime_builder.py:28-34 | The body can be read back out of the document shell. |
| Html.ShellContains | tests/test_mime_builder.py:33-34 | The document contains `<!DOCTYPE html>` and `</html>`, and everything its body contains. |
| Html.TokenKey | tests/test_mime_builder.py:40-48 | A token read at the front of the text is `{{`, the key, then `}}`. |
| Html.ResolveSkip | tests/test_mime_builder.py:40-48 | Text without `{` passes through resolution unchanged. |
| Html.ResolveToken | tests/test_mime_builder.py:40-48 | A token whose key is in the map becomes that image's tag. |
| Html.ComposeWeave | tests/test_mime_builder.py:40-48 | For prose gaps without `{`: composing prose interleaved with tokens gives each gap escaped and broken, interleaved with the image tags in token order. |
| Html.FragmentParts | tests/test_mime_builder.py:40-48 | For prose gaps without `{`: the composed fragment contains each image's `src` attribute and no `{`, so no token survives. |
| Html.PlainLinesHtml | tests/test_mime_builder.py:28-34 | The document for plain lines is the shell around the lines joined by `<br>` plus the break. |
| Base64.ValueChar | tests/test_mime_builder.py:117-119 | Each sextet's character decodes back to that sextet. |
| Base64.OctetsSextets | tests/test_mime_builder.py:117-119 | Regrouping three bytes into four sextets and back gives the same three bytes. |
| Base64.EncodeLength | tests/test_mime_builder.py:94-100 | The encoding has 4·⌈n/3⌉ characters. |
| Base64.DecodeEncode | tests/test_mime_builder.py:94-102 | Decoding the encoding of any bytes, in either alphabet, gives those bytes back. |
| Base64.EncodeChars | tests/test_mime_builder.py:94-100 | The encoding holds only characters of its alphabet and `=`. |
| Base64.UrlSafeChars | tests/test_mime_builder.py:94-100 | The URL-safe encoding has no `+` and no `/`. |
| Base64.EncodeSignatureExample | tests/test_mime_builder.py:117-119 | The 8-byte PNG signature encodes to `iVBORw0KGgo=`. |
| HtmlExamples.EscapeXssExample | tests/test_mime_builder.py:16-22 | The exact escaped string of the line 22 assertion. It has no `<` and no `>`, and it does contain `&` (see "Where the tests disagree"). |
| HtmlExamples.TextToHtmlBasicExample | tests/test_mime_builder.py:28-34 | The document contains `<br>`, `Line 1<br>`, the doctype and `</html>`. |
| HtmlExamples.NewlineExample | tests/test_mime_builder.py:148-154 | The document contains `Line 1<br>`, `Line 2<br>` and `<br>\nParagraph 2`. |
| HtmlExamples.TextToHtmlImagesExample | tests/test_mime_builder.py:40-48 | Both `cid:` sources are present and neither token remains. |
| HtmlExamples.ClipboardExample | tests/test_mime_builder.py:108-119 | The fragment has a `data:image/png;base64,` source and the signature's base64, and no token. |
| Mime.CidHeader | tests/test_mime_builder.py:85 | The Content-ID is the key in angle brackets. |
| Mime.ImagePart | tests/test_mime_builder.py:82-85 | An image part is `image/png` and carries the image. Its Content-ID is `<key>` and gives the key back. |
| Mime.Headers | tests/test_mime_builder.py:57-67 | Subject, From and To are present exactly when given, each with the given value, and no other header is set. |
| Mime.Message.SetHeader | tests/test_mime_builder.py:64-67 | Sets one header and leaves the rest of the message unchanged. |
| Mime.Message.Attach | tests/test_mime_builder.py:74-85 | Appends one part and leaves the headers unchanged. |
| Mime.BuildHtmlEmail | tests/test_mime_builder.py:57-85 | The walk is the root with the given headers, then the HTML part of `TextToHtml`, then one image part per map entry, each key exactly once. |
| Mime.AttachImage | tests/test_mime_builder.py:121-142 | Attaching the image of a not-yet-attached key keeps every part an image of the map and records each key once. |
| Mime.Assembled | tests/test_mime_builder.py:70-85 | A root, the HTML part and images covering each key exactly once form the e-mail. |
| Mime.BuildRawMime | tests/test_mime_builder.py:94-102 | The raw string decodes, as URL-safe base64, to the serialization of such an e-mail. It contains no `+` and no `/`. |
| Mime.Listed | tests/test_mime_builder.py:135-142 | A key counted once is listed. |
| Mime.ListedOnce | tests/test_mime_builder.py:135-142 | A key counted once is listed once. |
| Mime.EmailCoversKeys | tests/test_mime_builder.py:121-142 | Every image of the map has its own image part in the e-mail. |
| Mime.EmailKeysDistinct | tests/test_mime_builder.py:121-142 | No two image parts carry the same key. |
| Mime.ImageOfParts | tests/test_mime_builder.py:82-85 | An image part of the map is `image/png`, and its Content-ID names a key of the map. |
| Mime.EmailIdsWithin | tests/test_mime_builder.py:134-142 | Every image part is `image/png` with a Content-ID that names a key of the map. |
| Mime.EmailIdsCover | tests/test_mime_builder.py:134-142 | Every key of the map appears as `<key>` among the Content-IDs. |
| Mime.EmailContentIds | tests/test_mime_builder.py:134-142 | The e-mail's Content-IDs are exactly `<key>` for the keys of the map. |
| MimeExamples.EmailExample | tests/test_mime_builder.py:57-85 | Three parts: the root is `multipart/related` with the three headers, then `text/html`, then `image/png` with Content-ID `<LATEX_IMG_0>`. |
| MimeExamples.ManyImagesExample | tests/test_mime_builder.py:121-142 | Five parts, of which the last three are `image/png`, with Content-IDs `<LATEX_IMG_0>` … `<LATEX_IMG_2>`. |
| MimeExamples.SimpleTestHtml | tests/test_mime_builder.py:91-102 | The document for "Simple test" contains that text. |
| MimeExamples.RawMimeExample | tests/test_mime_builder.py:87-102 | The raw string decodes to the serialization of a two-part message. Its Subject is "Test" and its HTML contains "Simple test". |
| Pipeline.EmailHtml | tests/test_mime_builder.py:36-48 | For a processed text whose prose outside the spans has no `{`, the e-mail document has the doctype and `</html>`, keeps no token, and shows every span's image by its `cid:` source. |
| Pipeline.ClipboardFragment | tests/test_mime_builder.py:104-119 | For a processed text whose prose outside the spans has no `{`, the clipboard fragment keeps no token and shows every span's image inline as data. |
| Pipeline.EmailReferencesParts | tests/test_mime_builder.py:36-85 | In the e-mail built from a processed text whose prose outside the spans has no `{`, every span's `cid:` source is in the HTML part, and an image part with that key is in the message. |

## Left out

- The LaTeX/dvipng toolchain, temporary files and subprocesses are left out. Rendering is the parameter `render`. The PNG signature check of `latex_to_image` (tests/test_converter.py:62) concerns the toolchain's output, so it is not modelled.
- The `Date` header is left out because it reads the clock.
- Byte serialization of the message (Python's `email` generator, boundaries, transfer encodings) is the parameter `serialize`. For the same reason, the text "Subject: Test" and the text "Simple test" inside the decoded bytes (tests/test_mime_builder.py:101-102) are not modelled. The model states them of the message that was serialized: its Subject header, and the HTML of its document part.
- Mime.BuildHtmlEmail: image parts are attached in an arbitrary order of the map's keys. Python attaches them in dict insertion order. The contract promises each key exactly once but no order.
- Mime.ImagePart: the content type is always `image/png`. A type derived from the image's signature is not modelled, since the repository's tests label non-PNG bytes (`b"img0"`) as `image/png` too.
- Html.Resolve: a token whose key is not in the image map is left in the text, not reported as an error. No test fixes this case.
- Html.Shell: the document shell is `<!DOCTYPE html>`, `<html>`, `<body>`, the body, `</body>` and `</html>`. Styling and any `<head>` content are left out.
- Html.Breaks: the line break is a parameter `brk`. The tests pass a literal backslash followed by `n`, and the examples use that.
- Mime.Headers: an empty string given as a header value counts as given. Python might skip it as falsy.
- The command-line interface (tests/test_cli.py) is not part of this model.
- Html.Escape: the single quote is escaped as `&#x27;`, the form Python's `html.escape` uses with `quote=True`. This keeps escaped text safe inside a quoted HTML attribute. No test fixes this; `Html.EscapeSafe` and `Html.EscapeRoundTrip` state it of the model only.
- EmailHtml (Pipeline.EmailHtml): proved only for texts whose prose outside the spans contains no `{`. Such a brace next to a token, or a `{{…}}` written in the prose, could itself read as a token during resolution, so the general case is not covered.
- ClipboardFragment (Pipeline.ClipboardFragment): proved only for texts whose prose outside the spans contains no `{`, for the same reason as EmailHtml.
- EmailReferencesParts (Pipeline.EmailReferencesParts): proved only for texts whose prose outside the spans contains no `{`, for the same reason as EmailHtml.
- Html.ComposeWeave: proved only for prose gaps that contain no `{`, for the same reason as EmailHtml.
- Html.FragmentParts: proved only for prose gaps that contain no `{`, for the same reason as EmailHtml.

## Where the tests disagree

- tests/test_converter.py:146 expects the content `10 and $20, not LaTeX.`
  for the text `Price is $10 and $20, not LaTeX.`. That content contains the
  closing `$` and runs to the end of the text. Under the nearest-closer
  rule, the single span is `$10 and $`, with content `10 and `.
  `ExtractorExamples.ExtractPriceExample` proves this result. It agrees with
  line 145: exactly one span.
- tests/test_mime_builder.py:21 asserts that `&` is absent from the escaped
  text. Line 22 expects `&lt;`, `&gt;`, `&quot;` and `&amp;` in it. The model
  follows line 22, and `HtmlExamples.EscapeXssExample` states that `&` is
  present.
