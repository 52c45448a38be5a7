/**
 The string primitives the record logic relies on: `String.prototype.trim`,
 lower-casing, `String.prototype.includes` and the decimal rendering of a year.
 */
module Text {

  /** The code points JavaScript counts as WhiteSpace or LineTerminator; `trim` strips exactly these. */
  predicate IsWhitespace(c: char)
  {
    || c == '\t' || c == '\n' || c == '\U{000B}' || c == '\U{000C}' || c == '\r'
    || c == ' ' || c == '\U{00A0}' || c == '\U{1680}'
    || ('\U{2000}' <= c <= '\U{200A}')
    || c == '\U{2028}' || c == '\U{2029}' || c == '\U{202F}' || c == '\U{205F}'
    || c == '\U{3000}' || c == '\U{FEFF}'
  }

  /*
   Trimming is stated for an arbitrary notion of blank character, so the
   proofs about it never need to look inside the whitespace table.
   */

  /** Drops leading blanks. */
  function TrimStart(s: string, blank: char -> bool): (r: string)
    ensures |r| <= |s| && r == s[|s| - |r|..]
    ensures forall i :: 0 <= i < |s| - |r| ==> blank(s[i])
    ensures |r| > 0 ==> !blank(r[0])
  {
    if |s| > 0 && blank(s[0]) then TrimStart(s[1..], blank) else s
  }

  /** Drops trailing blanks. */
  function TrimEnd(s: string, blank: char -> bool): (r: string)
    ensures |r| <= |s| && r == s[..|r|]
    ensures forall i :: |r| <= i < |s| ==> blank(s[i])
    ensures |r| > 0 ==> !blank(r[|r| - 1])
  {
    if |s| > 0 && blank(s[|s| - 1]) then TrimEnd(s[..|s| - 1], blank) else s
  }

  /** Every character before position `i` is blank. */
  ghost predicate BlankBefore(s: string, i: int, blank: char -> bool)
  {
    forall k :: 0 <= k < i && k < |s| ==> blank(s[k])
  }

  /** Every character from position `j` on is blank. */
  ghost predicate BlankFrom(s: string, j: int, blank: char -> bool)
  {
    forall k :: 0 <= j <= k < |s| ==> blank(s[k])
  }

  /** `r` is the slice `s[i..j]`, only blanks surround it, and it neither starts nor ends with a blank. */
  ghost predicate TrimmedAt(r: string, s: string, i: int, j: int, blank: char -> bool)
  {
    && 0 <= i <= j <= |s| && r == s[i..j]
    && BlankBefore(s, i, blank) && BlankFrom(s, j, blank)
    && (|r| > 0 ==> !blank(r[0]) && !blank(r[|r| - 1]))
  }

  /** `r` is `s` with its leading and trailing blanks removed. */
  ghost predicate StripsTo(r: string, s: string, blank: char -> bool)
  {
    exists i, j :: TrimmedAt(r, s, i, j, blank)
  }

  /** Removes leading and trailing blanks. */
  function Strip(s: string, blank: char -> bool): (r: string)
    ensures StripsTo(r, s, blank)
  {
    var t := TrimStart(s, blank);
    StripSlices(s, t, TrimEnd(t, blank), blank);
    TrimEnd(t, blank)
  }

  lemma {:induction false} StripSlices(s: string, t: string, r: string, blank: char -> bool)
    requires t == TrimStart(s, blank) && r == TrimEnd(t, blank)
    ensures TrimmedAt(r, s, |s| - |t|, |s| - |t| + |r|, blank)
  {
    StrippedSlice(s, t, r, blank);
    StrippedTail(s, t, r, blank);
    assert BlankBefore(s, |s| - |t|, blank);
    assert |r| > 0 ==> r[0] == t[0];
  }

  lemma {:induction false} StrippedSlice(s: string, t: string, r: string, blank: char -> bool)
    requires t == TrimStart(s, blank) && r == TrimEnd(t, blank)
    ensures r == s[|s| - |t|..|s| - |t| + |r|]
  {
    var i := |s| - |t|;
    assert t == s[i..];
    assert r == t[..|r|];
  }

  lemma {:induction false} StrippedTail(s: string, t: string, r: string, blank: char -> bool)
    requires t == TrimStart(s, blank) && r == TrimEnd(t, blank)
    ensures BlankFrom(s, |s| - |t| + |r|, blank)
  {
    var i := |s| - |t|;
    assert t == s[i..];
    forall k | i + |r| <= k < |s| ensures blank(s[k]) {
      assert s[k] == t[k - i];
    }
  }

  /** A non-empty stripped slice lies inside any other stripped slice of the same string. */
  lemma {:induction false} StrippedInside(r: string, s: string, i: int, j: int, r': string, i': int, j': int, blank: char -> bool)
    requires TrimmedAt(r, s, i, j, blank) && TrimmedAt(r', s, i', j', blank) && |r'| > 0
    ensures i <= i' && j' <= j
  {
    assert s[i'] == r'[0];
    assert s[j' - 1] == r'[|r'| - 1];
  }

  /** There is only one way to strip a string, so `Strip` computes it. */
  lemma {:induction false} StripIsUnique(r: string, s: string, blank: char -> bool)
    requires StripsTo(r, s, blank)
    ensures r == Strip(s, blank)
  {
    var i, j :| TrimmedAt(r, s, i, j, blank);
    var r' := Strip(s, blank);
    var i', j' :| TrimmedAt(r', s, i', j', blank);
    if |r'| > 0 {
      StrippedInside(r, s, i, j, r', i', j', blank);
    }
    if |r| > 0 {
      StrippedInside(r', s, i', j', r, i, j, blank);
    }
  }

  /** A string strips to nothing exactly when it is all blanks. */
  lemma {:induction false} StripEmptyIffBlank(s: string, blank: char -> bool)
    ensures Strip(s, blank) == [] <==> BlankFrom(s, 0, blank)
  {
    if BlankFrom(s, 0, blank) {
      assert TrimmedAt([], s, 0, 0, blank);
      StripIsUnique([], s, blank);
    } else {
      var k :| 0 <= k < |s| && !blank(s[k]);
      var i, j :| TrimmedAt(Strip(s, blank), s, i, j, blank);
      assert i <= k < j;
    }
  }

  /** Stripping a stripped string changes nothing. */
  lemma {:induction false} StripIdempotent(s: string, blank: char -> bool)
    ensures Strip(Strip(s, blank), blank) == Strip(s, blank)
  {
    var r := Strip(s, blank);
    var i, j :| TrimmedAt(r, s, i, j, blank);
    assert TrimmedAt(r, r, 0, |r|, blank);
    StripIsUnique(r, r, blank);
  }

  /** `r` is `s` with its leading and trailing JavaScript whitespace removed. */
  ghost predicate IsTrimOf(r: string, s: string)
  {
    StripsTo(r, s, IsWhitespace)
  }

  /** `String.prototype.trim`. */
  function Trim(s: string): (r: string)
    ensures IsTrimOf(r, s)
  {
    Strip(s, IsWhitespace)
  }

  /** There is only one way to trim a string, so `Trim` computes it. */
  lemma {:induction false} TrimIsUnique(r: string, s: string)
    requires IsTrimOf(r, s)
    ensures r == Trim(s)
  {
    StripIsUnique(r, s, IsWhitespace);
  }

  /** A string trims to nothing exactly when it is all whitespace. */
  lemma {:induction false} TrimEmptyIffBlank(s: string)
    ensures Trim(s) == [] <==> forall k :: 0 <= k < |s| ==> IsWhitespace(s[k])
  {
    StripEmptyIffBlank(s, IsWhitespace);
  }

  /** Trimming a trimmed string changes nothing. */
  lemma {:induction false} TrimIdempotent(s: string)
    ensures Trim(Trim(s)) == Trim(s)
  {
    StripIdempotent(s, IsWhitespace);
  }

  /** ASCII case folding of one character. */
  function LowerChar(c: char): char
  {
    if 'A' <= c <= 'Z' then (c as int + 32) as char else c
  }

  /** `String.prototype.toLowerCase`, restricted to ASCII letters. */
  function Lower(s: string): string
  {
    seq(|s|, i requires 0 <= i < |s| => LowerChar(s[i]))
  }

  /** `sub` occurs in `s` starting at position `i`. */
  ghost predicate OccursAt(sub: string, s: string, i: int)
  {
    0 <= i && i + |sub| <= |s| && s[i..i + |sub|] == sub
  }

  /** `sub` occurs somewhere in `s` as a contiguous run. */
  ghost predicate IsSubstring(sub: string, s: string)
  {
    exists i :: OccursAt(sub, s, i)
  }

  /** `String.prototype.includes`: scans `s` for an occurrence of `sub`. */
  function Includes(s: string, sub: string): (b: bool)
    ensures b <==> IsSubstring(sub, s)
  {
    if |sub| <= |s| && s[..|sub|] == sub then
      assert OccursAt(sub, s, 0);
      true
    else if |s| == 0 then
      false
    else
      var b := Includes(s[1..], sub);
      assert b ==> IsSubstring(sub, s) by {
        if b {
          var i :| OccursAt(sub, s[1..], i);
          assert s[i + 1..i + 1 + |sub|] == s[1..][i..i + |sub|];
          assert OccursAt(sub, s, i + 1);
        }
      }
      assert IsSubstring(sub, s) ==> b by {
        if IsSubstring(sub, s) {
          var i :| OccursAt(sub, s, i);
          assert i != 0;
          assert s[1..][i - 1..i - 1 + |sub|] == s[i..i + |sub|];
          assert OccursAt(sub, s[1..], i - 1);
        }
      }
      b
  }

  function DigitChar(d: int): char
    requires 0 <= d < 10
  {
    "0123456789"[d]
  }

  /** Decimal digits of a natural number, most significant first. */
  function NatToDecimal(n: nat): string
  {
    if n < 10 then [DigitChar(n)] else NatToDecimal(n / 10) + [DigitChar(n % 10)]
  }

  /** How a template literal renders an integer: an optional minus sign, then the digits. */
  function IntToDecimal(n: int): string
  {
    if n < 0 then "-" + NatToDecimal(-n) else NatToDecimal(n)
  }
}
