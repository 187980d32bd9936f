/**
 * Placeholders: the key `LATEX_IMG_<n>` names the n-th extracted span (counting
 * from zero) in the image map and as a MIME content identifier; the token
 * `{{LATEX_IMG_<n>}}` stands for that span in the processed text.
 */
module Placeholders {
  import opened Wrappers
  import opened Text

  const KeyPrefix: string := "LATEX_IMG_"

  /** Keys are spelt with capital letters, digits and underscores only. */
  predicate KeyChar(c: char)
  {
    'A' <= c <= 'Z' || IsDigit(c) || c == '_'
  }

  /** The image-map key of the n-th span. */
  function Key(n: nat): (k: string)
    ensures |k| > |KeyPrefix| && k[..|KeyPrefix|] == KeyPrefix
    ensures forall i :: 0 <= i < |k| ==> KeyChar(k[i])
  {
    KeyPrefix + Decimal(n)
  }

  /** The keys of the first n spans. */
  function KeySet(n: nat): set<string>
  {
    set i | 0 <= i < n :: Key(i)
  }

  /** The text token that replaces the n-th span: the key wrapped in double braces. */
  function Token(n: nat): (t: string)
    ensures |t| == |Key(n)| + 4
    ensures t[..2] == "{{" && t[2..|t| - 2] == Key(n) && t[|t| - 2..] == "}}"
  {
    "{{" + Key(n) + "}}"
  }

  /** A token is made of braces and key characters only. */
  lemma TokenChars(n: nat)
    ensures forall c :: c in Token(n) ==> c == '{' || c == '}' || KeyChar(c)
  {
    var t, k := Token(n), Key(n);
    forall c | c in t
      ensures c == '{' || c == '}' || KeyChar(c)
    {
      var j :| 0 <= j < |t| && t[j] == c;
      if 2 <= j < |t| - 2 {
        assert t[j] == t[2..|t| - 2][j - 2] == k[j - 2];
      } else if j < 2 {
        assert t[j] == t[..2][j];
      } else {
        assert t[j] == t[|t| - 2..][j - (|t| - 2)];
      }
    }
  }

  lemma FirstDecimals()
    ensures Decimal(0) == "0" && Decimal(1) == "1" && Decimal(2) == "2"
  {
  }

  /** The first keys spelt out. */
  lemma FirstKeyNames()
    ensures Key(0) == "LATEX_IMG_0" && Key(1) == "LATEX_IMG_1" && Key(2) == "LATEX_IMG_2"
  {
    FirstDecimals();
  }

  /** A token is its key spelt between double braces. */
  lemma TokenSpelt(n: nat, k: string)
    requires Key(n) == k
    ensures Token(n) == "{{" + k + "}}"
  {
  }

  /** The first tokens spelt out. */
  lemma FirstTokens()
    ensures Token(0) == "{{LATEX_IMG_0}}" && Token(1) == "{{LATEX_IMG_1}}" && Token(2) == "{{LATEX_IMG_2}}"
  {
    FirstKeyNames();
    TokenSpelt(0, "LATEX_IMG_0");
    TokenSpelt(1, "LATEX_IMG_1");
    TokenSpelt(2, "LATEX_IMG_2");
  }

  /** Recovers the index from a key, or None for a string that is not a key. */
  function ParseKey(k: string): Option<nat>
  {
    if |k| > |KeyPrefix| && k[..|KeyPrefix|] == KeyPrefix && AllDigits(k[|KeyPrefix|..])
    then Some(ParseDecimal(k[|KeyPrefix|..]))
    else None
  }

  /** Keys round-trip through ParseKey. */
  lemma KeyRoundTrip(n: nat)
    ensures ParseKey(Key(n)) == Some(n)
  {
    assert Key(n)[|KeyPrefix|..] == Decimal(n);
    DecimalRoundTrip(n);
  }

  /** Different spans get different keys, so the image map has one entry per span. */
  lemma KeyInjective(m: nat, n: nat)
    ensures Key(m) == Key(n) <==> m == n
  {
    if Key(m) == Key(n) {
      KeyRoundTrip(m);
      KeyRoundTrip(n);
    }
  }

  lemma KeySetNext(n: nat)
    ensures KeySet(n + 1) == KeySet(n) + {Key(n)}
  {
  }

  /** The set of the first n keys has exactly n elements. */
  lemma {:induction false} KeysCard(n: nat)
    ensures |KeySet(n)| == n
  {
    if n > 0 {
      var s := KeySet(n - 1);
      KeysCard(n - 1);
      KeySetNext(n - 1);
      if Key(n - 1) in s {
        var j :| 0 <= j < n - 1 && Key(j) == Key(n - 1);
        KeyInjective(j, n - 1);
      }
    }
  }

  /** The tokens of `k` consecutive placeholders, the first with index `n`. */
  function Tokens(n: nat, k: nat): (t: seq<string>)
    ensures |t| == k && forall a :: 0 <= a < k ==> t[a] == Token(n + a)
  {
    seq(k, a requires 0 <= a < k => Token(n + a))
  }

  /** A token spelt character by character: braces, the prefix, the digits, then `}}`. */
  lemma TokenDigits(n: nat)
    ensures var t, d := Token(n), Decimal(n);
      |t| == 14 + |d| && t[0] == '{' && t[1] == '{' && t[2] == 'L' &&
      (forall j :: 0 <= j < |d| ==> t[12 + j] == d[j]) && t[12 + |d|] == '}' && t[13 + |d|] == '}'
  {
    var t, d := Token(n), Decimal(n);
    assert t == "{{" + KeyPrefix + d + "}}";
  }

  /** After the prefix, the first `}` of a token ends its numeral. */
  lemma TokenBrace(n: nat, j: nat)
    requires 12 <= j < |Token(n)|
    ensures Token(n)[j] == '}' <==> 12 + |Decimal(n)| <= j
  {
    TokenDigits(n);
    if j < 12 + |Decimal(n)| {
      assert Token(n)[j] == Decimal(n)[j - 12] && IsDigit(Decimal(n)[j - 12]);
    }
  }

  /** A token read at the start of another token is that same token. */
  lemma TokenAtToken(m: nat, n: nat, w: string)
    requires StartsAt(Token(n) + w, 0, Token(m))
    ensures m == n
  {
    var s, p, t := Token(n) + w, Token(m), Token(n);
    var a, b := 12 + |Decimal(m)|, 12 + |Decimal(n)|;
    var c := if a < b then a else b;
    TokenDigits(m);
    TokenDigits(n);
    TokenBrace(m, c);
    TokenBrace(n, c);
    assert s[..|p|][c] == s[c] == t[c];
    assert a == b;
    assert p == s[..|p|] == t;
    assert Key(m) == p[2..|p| - 2] == Key(n);
    KeyInjective(m, n);
  }

  /** No token starts strictly inside another one. */
  lemma TokenNotInside(m: nat, n: nat, w: string, r: nat)
    requires 0 < r < |Token(n)|
    ensures !StartsAt(Token(n) + w, r, Token(m))
  {
    var s, t, p := Token(n) + w, Token(n), Token(m);
    TokenDigits(m);
    TokenChars(n);
    if StartsAt(s, r, p) {
      assert false;
    }
  }

  /** A character not in `x` that stands in `x + y` stands in `y`. */
  lemma CharPast(x: string, y: string, i: nat, c: char)
    ensures c !in x && i < |x + y| && (x + y)[i] == c ==> |x| <= i
  {
    if i < |x| {
      assert (x + y)[i] == x[i];
    }
  }

  /** Text without `{` holds no token. */
  lemma TokenNotInPlain(g: string, i: nat, m: nat)
    requires '{' !in g
    ensures !StartsAt(g, i, Token(m))
  {
    TokenDigits(m);
    StartsAtHead(g, i, Token(m));
    if StartsAt(g, i, Token(m)) {
      assert false;
    }
  }

  /**
   * A token found in brace-free text followed by token `n` and more text is
   * either token `n` itself, at its place, or lies wholly in the text after it.
   */
  lemma TokenInFront(g: string, n: nat, rest: string, m: nat, i: nat)
    requires '{' !in g && StartsAt(g + (Token(n) + rest), i, Token(m))
    ensures (i == |g| && m == n) || (|g| + |Token(n)| <= i && StartsAt(rest, i - |g| - |Token(n)|, Token(m)))
  {
    var w, p, t := g + (Token(n) + rest), Token(m), Token(n);
    TokenDigits(m);
    assert w[i..i + |p|][0] == w[i];
    CharPast(g, t + rest, i, '{');
    if i == |g| {
      StartsAtShift(g, t + rest, 0, p);
      TokenAtToken(m, n, rest);
    } else if i < |g| + |t| {
      StartsAtShift(g, t + rest, i - |g|, p);
      TokenNotInside(m, n, rest, i - |g|);
      assert false;
    } else {
      assert w == (g + t) + rest;
      StartsAtShift(g + t, rest, i - |g| - |t|, p);
    }
  }

  /**
   * Where the stretches woven between consecutive tokens hold no `{`, a token
   * occurs only as one of those tokens, at the place it was put.
   */
  lemma {:induction false} TokenOnlyAt(gaps: seq<string>, n: nat, k: nat, m: nat, i: nat)
    requires |gaps| == k + 1 && forall j :: 0 <= j < |gaps| ==> '{' !in gaps[j]
    requires StartsAt(Weave(gaps, Tokens(n, k)), i, Token(m))
    ensures n <= m < n + k && i == FillStart(gaps, Tokens(n, k), m - n)
    decreases k
  {
    if k == 0 {
      TokenNotInPlain(gaps[0], i, m);
      assert false;
    }
    var fills := Tokens(n, k);
    assert fills[1..] == Tokens(n + 1, k - 1);
    var rest := Weave(gaps[1..], fills[1..]);
    WeaveCons(gaps, fills);
    TokenInFront(gaps[0], n, rest, m, i);
    if i != |gaps[0]| {
      TokenOnlyAt(gaps[1..], n + 1, k - 1, m, i - |gaps[0]| - |Token(n)|);
    }
  }

  /**
   * Where the stretches woven between the tokens 0 … k-1 hold no `{`, token
   * `a` occurs exactly where it was put, and only if it is one of them.
   */
  lemma TokenOnce(gaps: seq<string>, k: nat, a: nat, i: nat)
    requires |gaps| == k + 1 && forall j :: 0 <= j < |gaps| ==> '{' !in gaps[j]
    ensures StartsAt(Weave(gaps, Tokens(0, k)), i, Token(a)) <==> a < k && i == FillStart(gaps, Tokens(0, k), a)
  {
    if StartsAt(Weave(gaps, Tokens(0, k)), i, Token(a)) {
      TokenOnlyAt(gaps, 0, k, a, i);
    }
    if a < k {
      WeaveAt(gaps, Tokens(0, k), a);
    }
  }
}
