/**
 * Base64 as RFC 4648 defines it: the standard alphabet of section 4 (used in
 * `data:` URIs) and the URL- and filename-safe alphabet of section 5 (used for
 * the raw message handed to the mail API), both with `=` padding.
 */
module Base64 {
  import opened Wrappers
  import opened Text

  datatype Alphabet = Standard | UrlSafe

  /** The character that encodes sextet `v` (Table 1 and Table 2 of RFC 4648). */
  function Char(a: Alphabet, v: bv6): (c: char)
  {
    var i := v as int;
    if i < 26 then ('A' as int + i) as char
    else if i < 52 then ('a' as int + i - 26) as char
    else if i < 62 then ('0' as int + i - 52) as char
    else if i == 62 then (if a == Standard then '+' else '-')
    else (if a == Standard then '/' else '_')
  }

  /** The sextet a character encodes, or None for a character outside the alphabet. */
  function Value(a: Alphabet, c: char): Option<bv6>
  {
    if 'A' <= c <= 'Z' then Some((c as int - 'A' as int) as bv6)
    else if 'a' <= c <= 'z' then Some((c as int - 'a' as int + 26) as bv6)
    else if '0' <= c <= '9' then Some((c as int - '0' as int + 52) as bv6)
    else if c == (if a == Standard then '+' else '-') then Some(62)
    else if c == (if a == Standard then '/' else '_') then Some(63)
    else None
  }

  /** Every sextet is encoded by a character that decodes back to it. */
  lemma ValueChar(a: Alphabet, v: bv6)
    ensures Value(a, Char(a, v)) == Some(v)
  {
  }

  /** The characters of the alphabet. */
  predicate InAlphabet(a: Alphabet, c: char)
  {
    Value(a, c).Some?
  }

  /** Three octets as four sextets, most significant first. */
  function Sextets(b0: bv8, b1: bv8, b2: bv8): (bv6, bv6, bv6, bv6)
  {
    var n: bv24 := (b0 as bv24 << 16) | (b1 as bv24 << 8) | b2 as bv24;
    ((n >> 18) as bv6, ((n >> 12) & 0x3F) as bv6, ((n >> 6) & 0x3F) as bv6, (n & 0x3F) as bv6)
  }

  /** Four sextets as three octets, most significant first. */
  function Octets(s0: bv6, s1: bv6, s2: bv6, s3: bv6): (bv8, bv8, bv8)
  {
    var n: bv24 := (s0 as bv24 << 18) | (s1 as bv24 << 12) | (s2 as bv24 << 6) | s3 as bv24;
    ((n >> 16) as bv8, ((n >> 8) & 0xFF) as bv8, (n & 0xFF) as bv8)
  }

  /** Regrouping 24 bits is lossless. */
  lemma OctetsSextets(b0: bv8, b1: bv8, b2: bv8)
    ensures var (s0, s1, s2, s3) := Sextets(b0, b1, b2); Octets(s0, s1, s2, s3) == (b0, b1, b2)
  {
  }

  /** A final group of one or two bytes is recovered from its first two or three sextets. */
  lemma OctetsSextetsPadded(b0: bv8, b1: bv8)
    ensures var (s0, s1, _, _) := Sextets(b0, 0, 0); Octets(s0, s1, 0, 0).0 == b0
    ensures var (s0, s1, s2, _) := Sextets(b0, b1, 0); Octets(s0, s1, s2, 0).0 == b0 && Octets(s0, s1, s2, 0).1 == b1
  {
  }

  /** The four characters of one complete 24-bit group. */
  function Quantum(a: Alphabet, b0: bv8, b1: bv8, b2: bv8): (q: string)
    ensures |q| == 4
  {
    var (s0, s1, s2, s3) := Sextets(b0, b1, b2);
    [Char(a, s0), Char(a, s1), Char(a, s2), Char(a, s3)]
  }

  /**
   * The encoding of `b` (Python's `base64.b64encode` / `urlsafe_b64encode`):
   * one quantum per three bytes, a final group of one or two bytes padded
   * with `==` or `=`.
   */
  function Encode(a: Alphabet, b: Bytes): (s: string)
    decreases |b|
  {
    if |b| == 0 then ""
    else if |b| < 3 then Padded(a, b)
    else Quantum(a, b[0], b[1], b[2]) + Encode(a, b[3..])
  }

  /** The final group of one or two bytes, zero-filled and padded to four characters. */
  function Padded(a: Alphabet, b: Bytes): (q: string)
    requires 1 <= |b| <= 2
    ensures |q| == 4
  {
    if |b| == 1 then
      var (s0, s1, _, _) := Sextets(b[0], 0, 0);
      [Char(a, s0), Char(a, s1), '=', '=']
    else
      var (s0, s1, s2, _) := Sextets(b[0], b[1], 0);
      [Char(a, s0), Char(a, s1), Char(a, s2), '=']
  }

  /** Decodes four characters without padding. */
  function DecodeQuantum(a: Alphabet, q: string): (r: Option<Bytes>)
    requires |q| == 4
    ensures r.Some? ==> |r.value| == 3
  {
    match (Value(a, q[0]), Value(a, q[1]), Value(a, q[2]), Value(a, q[3]))
    case (Some(s0), Some(s1), Some(s2), Some(s3)) =>
      var (b0, b1, b2) := Octets(s0, s1, s2, s3);
      Some([b0, b1, b2])
    case _ => None
  }

  /** Decodes a final group of four characters that may end in `=` or `==`. */
  function DecodeLast(a: Alphabet, q: string): (r: Option<Bytes>)
    requires |q| == 4
    ensures r.Some? ==> 1 <= |r.value| <= 3
  {
    if q[2] == '=' && q[3] == '=' then
      match (Value(a, q[0]), Value(a, q[1]))
      case (Some(s0), Some(s1)) => Some([Octets(s0, s1, 0, 0).0])
      case _ => None
    else if q[3] == '=' then
      match (Value(a, q[0]), Value(a, q[1]), Value(a, q[2]))
      case (Some(s0), Some(s1), Some(s2)) =>
        var (b0, b1, _) := Octets(s0, s1, s2, 0);
        Some([b0, b1])
      case _ => None
    else DecodeQuantum(a, q)
  }

  /**
   * The decoding of `s` (Python's `base64.b64decode` / `urlsafe_b64decode`
   * on well-formed input), or None when `s` is not a padded encoding.
   */
  function Decode(a: Alphabet, s: string): (r: Option<Bytes>)
    decreases |s|
  {
    if |s| == 0 then Some([])
    else if |s| < 4 then None
    else if |s| == 4 then DecodeLast(a, s)
    else match DecodeQuantum(a, s[..4])
      case None => None
      case Some(head) =>
        match Decode(a, s[4..])
        case None => None
        case Some(tail) => Some(head + tail)
  }

  /** Four characters per started group of three bytes. */
  lemma {:induction false} EncodeLength(a: Alphabet, b: Bytes)
    ensures |Encode(a, b)| == 4 * ((|b| + 2) / 3)
    decreases |b|
  {
    if |b| >= 3 {
      EncodeLength(a, b[3..]);
    }
  }

  /** A complete quantum decodes to its three bytes. */
  lemma DecodeQuantumOf(a: Alphabet, b0: bv8, b1: bv8, b2: bv8)
    ensures DecodeQuantum(a, Quantum(a, b0, b1, b2)) == Some([b0, b1, b2])
  {
    var (s0, s1, s2, s3) := Sextets(b0, b1, b2);
    var q := Quantum(a, b0, b1, b2);
    assert q == [Char(a, s0), Char(a, s1), Char(a, s2), Char(a, s3)];
    ValueChar(a, s0);
    ValueChar(a, s1);
    ValueChar(a, s2);
    ValueChar(a, s3);
    OctetsSextets(b0, b1, b2);
  }

  /** A final byte, padded with `==`, decodes to itself. */
  lemma DecodeLastOne(a: Alphabet, b0: bv8)
    ensures |Encode(a, [b0])| == 4 && DecodeLast(a, Encode(a, [b0])) == Some([b0])
  {
    var (s0, s1, _, _) := Sextets(b0, 0, 0);
    var e := Encode(a, [b0]);
    assert e == Padded(a, [b0]) == [Char(a, s0), Char(a, s1), '=', '='];
    ValueChar(a, s0);
    ValueChar(a, s1);
    OctetsSextetsPadded(b0, 0);
  }

  /** Two final bytes, padded with `=`, decode to themselves. */
  lemma DecodeLastTwo(a: Alphabet, b0: bv8, b1: bv8)
    ensures |Encode(a, [b0, b1])| == 4 && DecodeLast(a, Encode(a, [b0, b1])) == Some([b0, b1])
  {
    var (s0, s1, s2, _) := Sextets(b0, b1, 0);
    var e := Encode(a, [b0, b1]);
    assert e == Padded(a, [b0, b1]) == [Char(a, s0), Char(a, s1), Char(a, s2), '='];
    ValueChar(a, s0);
    ValueChar(a, s1);
    ValueChar(a, s2);
    assert Value(a, '=') == None;
    OctetsSextetsPadded(b0, b1);
  }

  /** Three final bytes need no padding and decode to themselves. */
  lemma DecodeLastThree(a: Alphabet, b0: bv8, b1: bv8, b2: bv8)
    ensures |Encode(a, [b0, b1, b2])| == 4 && DecodeLast(a, Encode(a, [b0, b1, b2])) == Some([b0, b1, b2])
  {
    var (s0, s1, s2, s3) := Sextets(b0, b1, b2);
    var e := Encode(a, [b0, b1, b2]);
    assert [b0, b1, b2][3..] == [];
    assert e == Quantum(a, b0, b1, b2) + Encode(a, []);
    assert e == [Char(a, s0), Char(a, s1), Char(a, s2), Char(a, s3)];
    DecodeQuantumOf(a, b0, b1, b2);
    ValueChar(a, s2);
    ValueChar(a, s3);
    assert Value(a, '=') == None;
  }

  /** A final group of one to three bytes decodes to those bytes. */
  lemma DecodeFinal(a: Alphabet, b: Bytes)
    requires 1 <= |b| <= 3
    ensures Decode(a, Encode(a, b)) == Some(b)
  {
    if |b| == 1 {
      DecodeLastOne(a, b[0]);
      assert b == [b[0]];
    } else if |b| == 2 {
      DecodeLastTwo(a, b[0], b[1]);
      assert b == [b[0], b[1]];
    } else {
      DecodeLastThree(a, b[0], b[1], b[2]);
      assert b == [b[0], b[1], b[2]];
    }
  }

  /** A complete quantum in front of more groups decodes on its own. */
  lemma DecodeAppend(a: Alphabet, q: string, rest: string)
    requires |q| == 4 && |rest| >= 4 && DecodeQuantum(a, q).Some? && Decode(a, rest).Some?
    ensures Decode(a, q + rest) == Some(DecodeQuantum(a, q).value + Decode(a, rest).value)
  {
    assert (q + rest)[..4] == q && (q + rest)[4..] == rest;
  }

  /** Decoding undoes encoding, in both alphabets. */
  lemma {:induction false} DecodeEncode(a: Alphabet, b: Bytes)
    ensures Decode(a, Encode(a, b)) == Some(b)
    decreases |b|
  {
    if 1 <= |b| <= 3 {
      DecodeFinal(a, b);
    } else if |b| > 3 {
      var q, rest := Quantum(a, b[0], b[1], b[2]), Encode(a, b[3..]);
      DecodeQuantumOf(a, b[0], b[1], b[2]);
      DecodeEncode(a, b[3..]);
      EncodeLength(a, b[3..]);
      DecodeAppend(a, q, rest);
      assert b == [b[0], b[1], b[2]] + b[3..];
    }
  }

  /** The output is alphabet characters followed by at most two `=`. */
  lemma {:induction false} EncodeChars(a: Alphabet, b: Bytes)
    ensures forall i :: 0 <= i < |Encode(a, b)| ==> InAlphabet(a, Encode(a, b)[i]) || Encode(a, b)[i] == '='
    decreases |b|
  {
    if |b| >= 3 {
      EncodeChars(a, b[3..]);
      var (s0, s1, s2, s3) := Sextets(b[0], b[1], b[2]);
      ValueChar(a, s0);
      ValueChar(a, s1);
      ValueChar(a, s2);
      ValueChar(a, s3);
    } else if |b| == 2 {
      var (s0, s1, s2, _) := Sextets(b[0], b[1], 0);
      ValueChar(a, s0);
      ValueChar(a, s1);
      ValueChar(a, s2);
    } else if |b| == 1 {
      var (s0, s1, _, _) := Sextets(b[0], 0, 0);
      ValueChar(a, s0);
      ValueChar(a, s1);
    }
  }

  /** The URL-safe form needs no escaping in a URL: it holds neither `+` nor `/`. */
  lemma UrlSafeChars(b: Bytes)
    ensures '+' !in Encode(UrlSafe, b) && '/' !in Encode(UrlSafe, b)
  {
    EncodeChars(UrlSafe, b);
  }

  /** The eight-byte PNG signature, as the clipboard test encodes it. */
  lemma EncodeSignatureExample()
    ensures Encode(Standard, [137, 80, 78, 71, 13, 10, 26, 10]) == "iVBORw0KGgo="
  {
    var b: Bytes := [137, 80, 78, 71, 13, 10, 26, 10];
    assert b[3..][3..] == [26, 10];
    assert Encode(Standard, b[3..][3..]) == "Ggo=";
    assert Encode(Standard, b[3..]) == "Rw0K" + "Ggo=";
    assert Encode(Standard, b) == "iVBO" + "Rw0K" + "Ggo=";
  }
}
