/**
 Python's `str.strip()` with no argument: removes leading and trailing
 characters for which `str.isspace()` holds and keeps everything between,
 embedded newlines included.
 */
module Whitespace {

  /** `str.isspace()` for a single code point: the ASCII controls TAB, LF,
      VT, FF, CR and the separators FS, GS, RS, US, then SPACE, NEL,
      NO-BREAK SPACE and the Unicode space separators and line/paragraph
      separators. */
  predicate IsSpace(c: char) {
    var n := c as int;
    || 0x09 <= n <= 0x0D
    || 0x1C <= n <= 0x20
    || n == 0x85 || n == 0xA0 || n == 0x1680
    || 0x2000 <= n <= 0x200A
    || n == 0x2028 || n == 0x2029 || n == 0x202F || n == 0x205F || n == 0x3000
  }

  predicate AllSpace(s: string) {
    forall i :: 0 <= i < |s| ==> IsSpace(s[i])
  }

  /** The number of whitespace characters `s` starts with. */
  function LeadingSpace(s: string): (k: nat)
    ensures k <= |s|
    ensures AllSpace(s[..k])
    ensures k < |s| ==> !IsSpace(s[k])
  {
    if |s| == 0 || !IsSpace(s[0]) then 0 else 1 + LeadingSpace(s[1..])
  }

  /** The number of whitespace characters `s` ends with. */
  function TrailingSpace(s: string): (k: nat)
    ensures k <= |s|
    ensures AllSpace(s[|s| - k..])
    ensures k < |s| ==> !IsSpace(s[|s| - k - 1])
  {
    if |s| == 0 || !IsSpace(s[|s| - 1]) then 0 else 1 + TrailingSpace(s[..|s| - 1])
  }

  /** Neither end of `r` is whitespace. */
  predicate Trimmed(r: string) {
    |r| == 0 || (!IsSpace(r[0]) && !IsSpace(r[|r| - 1]))
  }

  /** `r` is the piece of `s` starting at `i`, and all of `s` before and
      after that piece is whitespace. */
  predicate StrippedAt(s: string, i: nat, r: string) {
    && i + |r| <= |s|
    && s[i..i + |r|] == r
    && AllSpace(s[..i])
    && AllSpace(s[i + |r|..])
  }

  /** The piece between `i` leading and `j` trailing whitespace
      characters, when the characters just inside are not whitespace,
      is trimmed and surrounded by whitespace alone. */
  lemma TrimmedPiece(s: string, i: nat, j: nat)
    requires i < |s| && AllSpace(s[..i]) && !IsSpace(s[i])
    requires j <= |s| && AllSpace(s[|s| - j..]) && (j < |s| ==> !IsSpace(s[|s| - j - 1]))
    ensures i + j < |s|
    ensures Trimmed(s[i..|s| - j]) && StrippedAt(s, i, s[i..|s| - j])
  {
    if i + j >= |s| {
      assert false;
    }
    assert s[i..|s| - j][0] == s[i];
  }

  /** The stripped text has no whitespace at either end, is a contiguous
      piece of `s` with only whitespace around it, and is empty exactly
      when `s` is all whitespace. When `s` is all whitespace the scan from
      the right stops where the scan from the left did, so nothing is
      left. */
  function Strip(s: string): (r: string)
    ensures Trimmed(r)
    ensures StrippedAt(s, LeadingSpace(s), r)
    ensures r == [] <==> AllSpace(s)
  {
    var i := LeadingSpace(s);
    if i == |s| then
      assert s[..i] == s;
      []
    else
      var j := TrailingSpace(s);
      TrimmedPiece(s, i, j);
      s[i..|s| - j]
  }

  lemma AllSpaceBefore(s: string, i: nat)
    requires i <= |s| && AllSpace(s[..i])
    ensures forall k :: 0 <= k < i ==> IsSpace(s[k])
  {
    forall k | 0 <= k < i
      ensures IsSpace(s[k])
    {
      assert s[..i][k] == s[k];
    }
  }

  lemma AllSpaceAfter(s: string, i: nat)
    requires i <= |s| && AllSpace(s[i..])
    ensures forall k :: i <= k < |s| ==> IsSpace(s[k])
  {
    forall k | i <= k < |s|
      ensures IsSpace(s[k])
    {
      assert s[i..][k - i] == s[k];
    }
  }

  /** The leading whitespace is exactly the whitespace before the first
      other character. */
  lemma LeadingSpaceAt(s: string, i: nat)
    requires i < |s| && AllSpace(s[..i]) && !IsSpace(s[i])
    ensures LeadingSpace(s) == i
  {
    AllSpaceBefore(s, i);
    AllSpaceBefore(s, LeadingSpace(s));
  }

  /** The trailing whitespace is exactly the whitespace after the last
      other character. */
  lemma TrailingSpaceAt(s: string, i: nat)
    requires i < |s| && AllSpace(s[i + 1..]) && !IsSpace(s[i])
    ensures TrailingSpace(s) == |s| - i - 1
  {
    AllSpaceAfter(s, i + 1);
    AllSpaceAfter(s, |s| - TrailingSpace(s));
  }

  /** Only one trimmed piece of `s` is surrounded by whitespace alone, and
      it is what `Strip` returns. */
  lemma StripUnique(s: string, i: nat, r: string)
    requires StrippedAt(s, i, r) && Trimmed(r)
    ensures r == Strip(s)
  {
    if |r| == 0 {
      AllSpaceBefore(s, i);
      AllSpaceAfter(s, i);
    } else {
      var e := i + |r| - 1;
      assert s[i] == r[0] && s[e] == r[|r| - 1];
      LeadingSpaceAt(s, i);
      TrailingSpaceAt(s, e);
    }
  }

  /** Text with no whitespace at either end is left as it is. */
  lemma StripTrimmed(s: string)
    requires Trimmed(s)
    ensures Strip(s) == s
  {
    assert s[0..|s|] == s;
    StripUnique(s, 0, s);
  }

  lemma StripIdempotent(s: string)
    ensures Strip(Strip(s)) == Strip(s)
  {
    StripTrimmed(Strip(s));
  }

  lemma StripExample()
    ensures Strip("  hello  ") == "hello"
  {
    StripUnique("  hello  ", 2, "hello");
  }
}
