/** The parts of Go's `strings` and `unicode` packages the service relies on:
    `strings.TrimSpace`, `len` of a string (its UTF-8 byte count) and the
    ASCII lower-casing a SQL `LOWER` applies to codes. Strings are sequences
    of Unicode scalar values. */
module GoStrings {

  /** `unicode.IsSpace`: the Latin-1 spaces and the White_Space property. */
  predicate IsSpace(c: char) {
    var n := c as int;
    (0x09 <= n <= 0x0D) || n == 0x20 || n == 0x85 || n == 0xA0 || n == 0x1680 ||
    (0x2000 <= n <= 0x200A) || n == 0x2028 || n == 0x2029 || n == 0x202F ||
    n == 0x205F || n == 0x3000
  }

  /** Neither the first nor the last character of `s` is a space. */
  predicate IsTrimmed(s: string) {
    s == [] || (!IsSpace(s[0]) && !IsSpace(s[|s| - 1]))
  }

  /** The position of the first non-space character of `s` at or after `k`,
      or `|s|` when there is none. */
  function SkipSpaceForward(s: string, k: nat): (i: nat)
    requires k <= |s|
    ensures k <= i <= |s| && (i < |s| ==> !IsSpace(s[i]))
    ensures forall m :: k <= m < i ==> IsSpace(s[m])
    decreases |s| - k
  {
    if k < |s| && IsSpace(s[k]) then SkipSpaceForward(s, k + 1) else k
  }

  /** The position just past the last non-space character of `s[lo..k]`, or
      `lo` when there is none. */
  function SkipSpaceBackward(s: string, lo: nat, k: nat): (j: nat)
    requires lo <= k <= |s|
    ensures lo <= j <= k && (j > lo ==> !IsSpace(s[j - 1]))
    ensures forall m :: j <= m < k ==> IsSpace(s[m])
    decreases k
  {
    if k > lo && IsSpace(s[k - 1]) then SkipSpaceBackward(s, lo, k - 1) else k
  }

  /** `strings.TrimSpace`: `s` without its leading and trailing white space.
      The result is the infix `s[i..j]` such that everything outside it is
      space and it neither starts nor ends with a space. */
  function TrimSpace(s: string): (r: string)
    ensures IsTrimmed(r)
    ensures exists i, j :: 0 <= i <= j <= |s| && r == s[i..j] &&
              (forall k :: 0 <= k < i ==> IsSpace(s[k])) &&
              (forall k :: j <= k < |s| ==> IsSpace(s[k]))
  {
    var i := SkipSpaceForward(s, 0);
    var j := SkipSpaceBackward(s, i, |s|);
    s[i..j]
  }

  /** Trimming a string that has no surrounding space gives it back. */
  lemma TrimSpaceOfTrimmed(s: string)
    requires IsTrimmed(s)
    ensures TrimSpace(s) == s
  {
  }

  /** Trimming is idempotent. */
  lemma TrimSpaceIdempotent(s: string)
    ensures TrimSpace(TrimSpace(s)) == TrimSpace(s)
  {
    TrimSpaceOfTrimmed(TrimSpace(s));
  }

  /** Bytes the UTF-8 encoding of one character takes. */
  function RuneLen(c: char): (n: nat)
    ensures 1 <= n <= 4
    ensures n == 1 <==> (c as int) < 0x80
  {
    var x := c as int;
    if x < 0x80 then 1 else if x < 0x800 then 2 else if x < 0x1_0000 then 3 else 4
  }

  /** Go's `len(s)`: the number of bytes of the UTF-8 encoding of `s`, which is
      never fewer than its characters and at most four bytes per character. */
  function Utf8Len(s: string): (n: nat)
    ensures |s| <= n <= 4 * |s|
    ensures n == |s| <==> forall i :: 0 <= i < |s| ==> (s[i] as int) < 0x80
  {
    Utf8PrefixLen(s, |s|)
  }

  /** The UTF-8 byte count of the first `k` characters of `s`. */
  function Utf8PrefixLen(s: string, k: nat): (n: nat)
    requires k <= |s|
    ensures k <= n <= 4 * k
    ensures n == k <==> forall i :: 0 <= i < k ==> (s[i] as int) < 0x80
    decreases k
  {
    if k == 0 then 0 else Utf8PrefixLen(s, k - 1) + RuneLen(s[k - 1])
  }

  function LowerAsciiChar(c: char): (d: char)
    ensures 'A' <= c <= 'Z' ==> d as int == c as int + 32
    ensures !('A' <= c <= 'Z') ==> d == c
  {
    if 'A' <= c <= 'Z' then (c as int + 32) as char else c
  }

  /** A string with its ASCII capitals lowered; other characters unchanged. */
  function LowerAscii(s: string): (r: string)
    ensures |r| == |s|
    ensures forall i :: 0 <= i < |s| ==> r[i] == LowerAsciiChar(s[i])
  {
    seq(|s|, i requires 0 <= i < |s| => LowerAsciiChar(s[i]))
  }

  /** `needle` occurs in `hay` as a contiguous run of characters. */
  predicate Contains(hay: string, needle: string) {
    (|needle| <= |hay| && hay[..|needle|] == needle) ||
    (hay != [] && Contains(hay[1..], needle))
  }

  /** `Contains` holds exactly when some window of `hay` equals `needle`. */
  lemma {:induction false} ContainsAt(hay: string, needle: string)
    ensures Contains(hay, needle) <==>
            exists i :: 0 <= i <= |hay| - |needle| && hay[i..][..|needle|] == needle
  {
    if Contains(hay, needle) {
      if |needle| <= |hay| && hay[..|needle|] == needle {
        assert hay[0..][..|needle|] == needle;
      } else {
        ContainsAt(hay[1..], needle);
        var i :| 0 <= i <= |hay[1..]| - |needle| && hay[1..][i..][..|needle|] == needle;
        assert hay[1..][i..] == hay[i + 1..];
      }
    }
    if exists i :: 0 <= i <= |hay| - |needle| && hay[i..][..|needle|] == needle {
      var i :| 0 <= i <= |hay| - |needle| && hay[i..][..|needle|] == needle;
      if i > 0 {
        assert hay[1..][i - 1..] == hay[i..];
        ContainsAt(hay[1..], needle);
      }
    }
  }
}
