/**
 * Bytes, and small string facts used by every stage: substring occurrence, the search for
 * the nearest occurrence of a pattern, and decimal numerals (Python's `str(n)`
 * for a non-negative integer) with their parser.
 */
module Text {
  import opened Wrappers

  /** Raw bytes (Python's `bytes`). */
  type Bytes = seq<bv8>

  /** `p` occurs in `s` starting at index `i`. */
  predicate StartsAt(s: string, i: nat, p: string)
  {
    i + |p| <= |s| && s[i..i + |p|] == p
  }

  /** `p` occurs somewhere in `s` (Python's `p in s`). */
  predicate Contains(s: string, p: string)
  {
    exists i: nat | i <= |s| :: StartsAt(s, i, p)
  }

  /** The index of the first occurrence of `p` in `s` at or after `from` (Python's `s.find(p, from)`). */
  function FindFrom(s: string, p: string, from: nat): (r: Option<nat>)
    requires |p| > 0
    ensures r.Some? ==> from <= r.value && StartsAt(s, r.value, p)
    ensures r.Some? ==> forall k :: from <= k < r.value ==> !StartsAt(s, k, p)
    ensures r.None? ==> forall k :: from <= k ==> !StartsAt(s, k, p)
    decreases |s| - from
  {
    if from + |p| > |s| then None
    else if s[from..from + |p|] == p then Some(from)
    else FindFrom(s, p, from + 1)
  }

  /** The search stops at the first occurrence. */
  lemma {:induction false} FindFromFirst(s: string, p: string, from: nat, k: nat)
    requires |p| > 0 && from <= k && StartsAt(s, k, p)
    requires forall j :: from <= j < k ==> !StartsAt(s, j, p)
    ensures FindFrom(s, p, from) == Some(k)
    decreases k - from
  {
    if from < k {
      FindFromFirst(s, p, from + 1, k);
    }
  }

  /** A pattern that occurs inside `a` still occurs once `b` is appended. */
  lemma ContainsAppend(a: string, b: string, p: string)
    requires Contains(a, p)
    ensures Contains(a + b, p) && Contains(b + a, p)
  {
    var i: nat :| i <= |a| && StartsAt(a, i, p);
    assert i + |p| <= |a|;
    assert (a + b)[i..i + |p|] == a[i..i + |p|];
    assert StartsAt(a + b, i, p);
    assert (b + a)[|b| + i..|b| + i + |p|] == a[i..i + |p|];
    assert StartsAt(b + a, |b| + i, p);
  }

  /** A pattern inside an occurring pattern occurs too. */
  lemma ContainsTrans(s: string, m: string, p: string)
    requires Contains(s, m) && Contains(m, p)
    ensures Contains(s, p)
  {
    var i: nat :| i <= |s| && StartsAt(s, i, m);
    var j: nat :| j <= |m| && StartsAt(m, j, p);
    forall q | 0 <= q < |p|
      ensures s[i + j + q] == p[q]
    {
      assert s[i..i + |m|][j + q] == s[i + j + q];
      assert m[j..j + |p|][q] == m[j + q];
    }
    assert s[i + j..i + j + |p|] == p;
    assert StartsAt(s, i + j, p);
  }

  /** A string contains each of its middle parts. */
  lemma ContainsMiddle(a: string, p: string, b: string)
    ensures Contains(a + p + b, p)
  {
    assert (a + p + b)[|a|..|a| + |p|] == p;
    assert StartsAt(a + p + b, |a|, p);
  }

  /** Every character of an occurring pattern is a character of the string. */
  lemma ContainsChars(s: string, p: string)
    requires Contains(s, p)
    ensures forall c :: c in p ==> c in s
  {
    var i: nat :| i <= |s| && StartsAt(s, i, p);
    forall c | c in p
      ensures c in s
    {
      var j :| 0 <= j < |p| && p[j] == c;
      assert s[i..i + |p|][j] == s[i + j];
    }
  }

  /** A pattern with a character the string lacks does not occur in it. */
  lemma MissingChar(s: string, p: string, c: char)
    requires c in p && c !in s
    ensures !Contains(s, p)
  {
    if Contains(s, p) {
      ContainsChars(s, p);
      assert false;
    }
  }

  /** A pattern at the front of `s` fixes its first character. */
  lemma FirstChar(s: string, p: string)
    requires |p| > 0
    ensures StartsAt(s, 0, p) ==> s[0] == p[0]
  {
    if StartsAt(s, 0, p) {
      assert s[0..|p|][0] == s[0];
    }
  }

  /** A character missing from a string is missing from its tail. */
  lemma LacksTail(s: string, c: char)
    requires |s| > 0 && c !in s
    ensures c !in s[1..]
  {
    assert forall x :: x in s[1..] ==> x in s;
  }

  /** An occurrence of `a + b + c` has `a` at its start and `c` right after `a` and `b`. */
  lemma StartsAtParts(s: string, i: nat, a: string, b: string, c: string)
    requires StartsAt(s, i, a + b + c)
    ensures StartsAt(s, i, a) && StartsAt(s, i + |a| + |b|, c)
  {
    var w := s[i..i + |a| + |b| + |c|];
    assert w == a + b + c;
    assert s[i..i + |a|] == w[..|a|] == a;
    assert s[i + |a| + |b|..i + |a| + |b| + |c|] == w[|a| + |b|..] == c;
  }

  /** An occurrence begins with the pattern's first character. */
  lemma StartsAtHead(s: string, i: nat, p: string)
    ensures StartsAt(s, i, p) && |p| > 0 ==> s[i] == p[0]
  {
    if StartsAt(s, i, p) && |p| > 0 {
      assert s[i..i + |p|][0] == s[i];
    }
  }

  /** Occurrences in the second half of a concatenation are those of the second half. */
  lemma StartsAtShift(x: string, y: string, i: nat, p: string)
    ensures StartsAt(x + y, |x| + i, p) <==> StartsAt(y, i, p)
  {
    if |x| + i + |p| <= |x + y| {
      assert (x + y)[|x| + i..|x| + i + |p|] == y[i..i + |p|];
    }
  }

  /** A string contains itself. */
  lemma ContainsSelf(s: string)
    ensures Contains(s, s)
  {
    assert StartsAt(s, 0, s);
  }

  predicate IsDigit(c: char)
  {
    '0' <= c <= '9'
  }

  predicate AllDigits(s: string)
  {
    forall i :: 0 <= i < |s| ==> IsDigit(s[i])
  }

  function DigitChar(d: nat): (c: char)
    requires d < 10
    ensures IsDigit(c) && c as int - '0' as int == d
  {
    (d + '0' as int) as char
  }

  /** The decimal numeral of `n`, without leading zeros (Python's `str(n)`). */
  function Decimal(n: nat): (r: string)
    ensures 0 < |r| && AllDigits(r)
    ensures |r| > 1 ==> r[0] != '0'
    decreases n
  {
    if n < 10 then [DigitChar(n)] else Decimal(n / 10) + [DigitChar(n % 10)]
  }

  /** The value of a string of decimal digits (Python's `int(s)` on digits). */
  function ParseDecimal(s: string): nat
    requires AllDigits(s)
  {
    if |s| == 0 then 0 else ParseDecimal(s[..|s| - 1]) * 10 + (s[|s| - 1] as int - '0' as int)
  }

  /** Reading back a numeral gives the number it was written from. */
  lemma {:induction false} DecimalRoundTrip(n: nat)
    ensures ParseDecimal(Decimal(n)) == n
    decreases n
  {
    var r := Decimal(n);
    if n >= 10 {
      DecimalRoundTrip(n / 10);
      assert r[..|r| - 1] == Decimal(n / 10);
    }
  }

  /** Different numbers have different numerals. */
  lemma DecimalInjective(m: nat, n: nat)
    ensures Decimal(m) == Decimal(n) <==> m == n
  {
    if Decimal(m) == Decimal(n) {
      DecimalRoundTrip(m);
      DecimalRoundTrip(n);
    }
  }

  /** `gaps[0] fills[0] gaps[1] fills[1] … gaps[k]`. */
  function Weave(gaps: seq<string>, fills: seq<string>): string
    requires |gaps| == |fills| + 1
    decreases |fills|
  {
    if fills == [] then gaps[0] else gaps[0] + fills[0] + Weave(gaps[1..], fills[1..])
  }

  /** Every fill occurs in the woven string. */
  lemma {:induction false} WeaveContains(gaps: seq<string>, fills: seq<string>, a: nat)
    requires |gaps| == |fills| + 1 && a < |fills|
    ensures Contains(Weave(gaps, fills), fills[a])
    decreases |fills|
  {
    assert Weave(gaps, fills) == (gaps[0] + fills[0]) + Weave(gaps[1..], fills[1..]);
    if a == 0 {
      ContainsSelf(fills[0]);
      ContainsAppend(fills[0], Weave(gaps[1..], fills[1..]), fills[0]);
      ContainsAppend(fills[0] + Weave(gaps[1..], fills[1..]), gaps[0], fills[0]);
      assert gaps[0] + (fills[0] + Weave(gaps[1..], fills[1..])) == Weave(gaps, fills);
    } else {
      WeaveContains(gaps[1..], fills[1..], a - 1);
      ContainsAppend(Weave(gaps[1..], fills[1..]), gaps[0] + fills[0], fills[a]);
    }
  }

  /** The weave starts with the first gap and the first fill. */
  lemma WeaveCons(gaps: seq<string>, fills: seq<string>)
    requires |gaps| == |fills| + 1 && |fills| > 0
    ensures Weave(gaps, fills) == gaps[0] + (fills[0] + Weave(gaps[1..], fills[1..]))
  {
  }

  /** The index at which the a-th fill starts in the woven string. */
  function FillStart(gaps: seq<string>, fills: seq<string>, a: nat): nat
    requires |gaps| == |fills| + 1 && a < |fills|
    decreases a
  {
    if a == 0 then |gaps[0]| else |gaps[0]| + |fills[0]| + FillStart(gaps[1..], fills[1..], a - 1)
  }

  /** The a-th fill stands at its start index in the woven string. */
  lemma {:induction false} WeaveAt(gaps: seq<string>, fills: seq<string>, a: nat)
    requires |gaps| == |fills| + 1 && a < |fills|
    ensures StartsAt(Weave(gaps, fills), FillStart(gaps, fills, a), fills[a])
    decreases a
  {
    var rest := Weave(gaps[1..], fills[1..]);
    assert Weave(gaps, fills) == (gaps[0] + fills[0]) + rest;
    if a == 0 {
      assert (gaps[0] + fills[0] + rest)[|gaps[0]|..|gaps[0]| + |fills[0]|] == fills[0];
    } else {
      WeaveAt(gaps[1..], fills[1..], a - 1);
      StartsAtShift(gaps[0] + fills[0], rest, FillStart(gaps[1..], fills[1..], a - 1), fills[a]);
    }
  }

  /** A character in no gap and no fill is not in the woven string. */
  lemma {:induction false} WeaveLacks(gaps: seq<string>, fills: seq<string>, c: char)
    requires |gaps| == |fills| + 1
    requires forall i :: 0 <= i < |gaps| ==> c !in gaps[i]
    requires forall i :: 0 <= i < |fills| ==> c !in fills[i]
    ensures c !in Weave(gaps, fills)
    decreases |fills|
  {
    if fills != [] {
      WeaveLacks(gaps[1..], fills[1..], c);
      assert c !in gaps[0] && c !in fills[0];
    }
  }
}
