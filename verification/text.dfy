/**
 * The JavaScript string operations the compressor uses: writing an integer
 * as decimal (`${n}`), `includes`, `toLowerCase`, `trim`. Strings are
 * sequences of characters.
 */
module Text {

  predicate IsDigit(c: char)
  {
    '0' <= c <= '9'
  }

  function DigitChar(d: nat): (c: char)
    requires d < 10
    ensures IsDigit(c) && c as int - '0' as int == d
  {
    (d + '0' as int) as char
  }

  function DigitValue(c: char): nat
  {
    if IsDigit(c) then c as int - '0' as int else 0
  }

  /** The decimal digits of `n`, with no leading zero, as a template literal writes an integral number. */
  function NatToString(n: nat): (s: string)
    ensures 1 <= |s|
    ensures forall i :: 0 <= i < |s| ==> IsDigit(s[i])
    ensures |s| == 1 || s[0] != '0'
    ensures s[0] == '0' <==> n == 0
    decreases n
  {
    if n < 10 then [DigitChar(n)] else NatToString(n / 10) + [DigitChar(n % 10)]
  }

  /** An integer as a template literal writes it: a minus sign before the digits of a negative one. */
  function IntToString(i: int): (s: string)
    ensures s != [] && (s[0] == '-' <==> i < 0)
    ensures i < 0 ==> |s| >= 2 && DecimalValue(s[1..]) == -i
    ensures i >= 0 ==> DecimalValue(s) == i
    ensures var d := if i < 0 then s[1..] else s;
            d != [] && (forall k :: 0 <= k < |d| ==> IsDigit(d[k])) && (|d| == 1 || d[0] != '0')
  {
    if i < 0 then
      DecimalValueOfNatToString(-i);
      assert ("-" + NatToString(-i))[1..] == NatToString(-i);
      "-" + NatToString(-i)
    else
      DecimalValueOfNatToString(i);
      NatToString(i)
  }

  /** The number a string of decimal digits denotes, most significant digit first. */
  function DecimalValue(s: string): nat
  {
    if s == [] then 0 else 10 * DecimalValue(s[..|s| - 1]) + DigitValue(s[|s| - 1])
  }

  /** Reading back the digits of `n` gives `n`. */
  lemma {:induction false} DecimalValueOfNatToString(n: nat)
    ensures DecimalValue(NatToString(n)) == n
    decreases n
  {
    if n >= 10 {
      var s := NatToString(n / 10);
      DecimalValueOfNatToString(n / 10);
      assert (s + [DigitChar(n % 10)])[..|s|] == s;
    }
  }

  /** Different numbers are written differently. */
  lemma NatToStringInjective(a: nat, b: nat)
    requires NatToString(a) == NatToString(b)
    ensures a == b
  {
    DecimalValueOfNatToString(a);
    DecimalValueOfNatToString(b);
  }

  /** Different integers are written differently: a minus sign only ever precedes a negative one. */
  lemma IntToStringInjective(a: int, b: int)
    requires IntToString(a) == IntToString(b)
    ensures a == b
  {
    if a < 0 && b < 0 {
      assert NatToString(-a) == IntToString(a)[1..] == IntToString(b)[1..] == NatToString(-b);
      NatToStringInjective(-a, -b);
    } else if a >= 0 && b >= 0 {
      NatToStringInjective(a, b);
    }
  }

  /** `needle` occurs in `s` at index `i`. */
  predicate OccursAt(s: string, needle: string, i: nat)
  {
    i + |needle| <= |s| && s[i..i + |needle|] == needle
  }

  /** String.prototype.includes: whether `needle` occurs anywhere in `s`. */
  function Contains(s: string, needle: string): (found: bool)
    ensures found <==> exists i: nat :: OccursAt(s, needle, i)
    decreases |s|
  {
    if |s| < |needle| then
      false
    else if s[..|needle|] == needle then
      assert OccursAt(s, needle, 0);
      true
    else
      OccursShift(s, needle);
      Contains(s[1..], needle)
  }

  /** Occurrences in `s` away from index 0 are the occurrences in `s[1..]`, shifted by one. */
  lemma OccursShift(s: string, needle: string)
    requires |s| >= |needle| && s[..|needle|] != needle
    ensures (exists i: nat :: OccursAt(s, needle, i)) <==> (exists i: nat :: OccursAt(s[1..], needle, i))
  {
    forall i: nat | OccursAt(s, needle, i)
      ensures i >= 1 && OccursAt(s[1..], needle, i - 1)
    {
      assert s[1..][i - 1..i - 1 + |needle|] == s[i..i + |needle|];
    }
    forall i: nat | OccursAt(s[1..], needle, i)
      ensures OccursAt(s, needle, i + 1)
    {
      assert s[1..][i..i + |needle|] == s[i + 1..i + 1 + |needle|];
    }
  }

  /** String.prototype.toLowerCase on one character, for the ASCII letters. */
  function ToLowerChar(c: char): char
  {
    if 'A' <= c <= 'Z' then (c as int + 32) as char else c
  }

  function ToLower(s: string): (r: string)
    ensures |r| == |s|
    ensures forall i :: 0 <= i < |r| ==> !('A' <= r[i] <= 'Z')
    ensures forall i :: 0 <= i < |s| ==> r[i] == s[i] || ('A' <= s[i] <= 'Z' && r[i] as int == s[i] as int + 32)
  {
    seq(|s|, i requires 0 <= i < |s| => ToLowerChar(s[i]))
  }

  /** The characters `trim` removes: the WhiteSpace and LineTerminator code points of ECMAScript. */
  predicate IsWhiteSpace(c: char)
  {
    c in {'\t', '\n', '\U{000B}', '\U{000C}', '\r', ' ', '\U{00A0}', '\U{1680}', '\U{2028}',
          '\U{2029}', '\U{202F}', '\U{205F}', '\U{3000}', '\U{FEFF}'}
    || '\U{2000}' <= c <= '\U{200A}'
  }

  /** `s` without its leading white space. */
  function TrimStart(s: string): (r: string)
    ensures |r| <= |s| && r == s[|s| - |r|..]
    ensures Blank(s[..|s| - |r|])
    ensures r == [] || !IsWhiteSpace(r[0])
  {
    if s != [] && IsWhiteSpace(s[0]) then TrimStart(s[1..]) else s
  }

  /** `s` without its trailing white space. */
  function TrimEnd(s: string): (r: string)
    ensures |r| <= |s| && r == s[..|r|]
    ensures Blank(s[|r|..])
    ensures r == [] || !IsWhiteSpace(r[|r| - 1])
  {
    if s != [] && IsWhiteSpace(s[|s| - 1]) then TrimEnd(s[..|s| - 1]) else s
  }

  /** String.prototype.trim. */
  function Trim(s: string): (r: string)
    ensures r == [] || (!IsWhiteSpace(r[0]) && !IsWhiteSpace(r[|r| - 1]))
    ensures exists k: nat :: OccursAt(s, r, k) && Blank(s[..k]) && Blank(s[k + |r|..])
  {
    var t := TrimStart(s);
    var r := TrimEnd(t);
    TrimmedParts(s, t, r);
    r
  }

  /** Every character of `s` is white space. */
  predicate Blank(s: string)
  {
    forall i :: 0 <= i < |s| ==> IsWhiteSpace(s[i])
  }

  lemma TrimmedParts(s: string, t: string, r: string)
    requires |t| <= |s| && t == s[|s| - |t|..] && Blank(s[..|s| - |t|])
    requires |r| <= |t| && r == t[..|r|] && Blank(t[|r|..])
    requires t == [] || !IsWhiteSpace(t[0])
    requires r == [] || !IsWhiteSpace(r[|r| - 1])
    ensures OccursAt(s, r, |s| - |t|) && Blank(s[..|s| - |t|]) && Blank(s[|s| - |t| + |r|..])
    ensures r == [] || (!IsWhiteSpace(r[0]) && !IsWhiteSpace(r[|r| - 1]))
  {
    if r != [] {
      assert r[0] == t[0];
    }
    var k := |s| - |t|;
    assert s[k + |r|..] == t[|r|..];
    assert s[k..k + |r|] == r;
  }

  /** A string whose ends are not white space is left alone by `trim`. */
  lemma TrimOfTrimmed(s: string)
    requires s == [] || (!IsWhiteSpace(s[0]) && !IsWhiteSpace(s[|s| - 1]))
    ensures Trim(s) == s
  {
  }
}
