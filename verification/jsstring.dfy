/** JavaScript strings as the icon-name helper sees them: sequences of
    UTF-16 code units, which is what `length` and `substring` count. A
    character outside the Basic Multilingual Plane takes two code units (a
    surrogate pair), and `substring` may cut between them. The part of
    `String.prototype.substring` modelled here clamps both indices into
    `[0, length]` and swaps them when the start ends up past the end. */
module JsString {

  /** A UTF-16 code unit. */
  newtype CodeUnit = u: int | 0 <= u < 0x1_0000

  /** A JavaScript string value. */
  type JsStr = seq<CodeUnit>

  /** The UTF-16 form of an ASCII text: one code unit per character, with
      the same value. */
  function FromAscii(s: string): (r: JsStr)
    requires forall i :: 0 <= i < |s| ==> s[i] as int < 0x80
    ensures |r| == |s|
    ensures forall i :: 0 <= i < |s| ==> r[i] as int == s[i] as int
  {
    seq(|s|, i requires 0 <= i < |s| => s[i] as int as CodeUnit)
  }

  /** An integer index clamped into `[0, len]`. */
  function ClampIndex(i: int, len: nat): (r: nat)
    ensures r <= len
    ensures 0 <= i <= len ==> r == i
    ensures i < 0 ==> r == 0
    ensures len < i ==> r == len
  {
    if i < 0 then 0 else if len < i then len else i
  }

  /** `s.substring(start, end)` with integer arguments: the code units
      between the two clamped indices, whichever of them is smaller. */
  function Substring(s: JsStr, start: int, end: int): (r: JsStr)
    ensures 0 <= start <= end <= |s| ==> r == s[start..end]
    ensures var a, b := ClampIndex(start, |s|), ClampIndex(end, |s|);
            |r| == (if a <= b then b - a else a - b)
    ensures var a, b := ClampIndex(start, |s|), ClampIndex(end, |s|);
            r == s[(if a <= b then a else b)..][..|r|]
  {
    var a := ClampIndex(start, |s|);
    var b := ClampIndex(end, |s|);
    if a <= b then s[a..b] else s[b..a]
  }

  /** The order of the two indices does not matter. */
  lemma SubstringSwap(s: JsStr, start: int, end: int)
    ensures Substring(s, start, end) == Substring(s, end, start)
  {
  }

  /** A negative index reads as 0 and an index past the end as the length,
      on either side. */
  lemma SubstringClamps(s: JsStr, start: int, end: int)
    ensures start < 0 ==> Substring(s, start, end) == Substring(s, 0, end)
    ensures end < 0 ==> Substring(s, start, end) == Substring(s, start, 0)
    ensures |s| < start ==> Substring(s, start, end) == Substring(s, |s|, end)
    ensures |s| < end ==> Substring(s, start, end) == Substring(s, start, |s|)
  {
  }

  /** A negative start reads as 0, so `substring(k, |s|)` with `k < 0` is the
      whole string and `substring(0, k)` is empty. */
  lemma SubstringNegativeIndex(s: JsStr, k: int)
    requires k < 0
    ensures Substring(s, k, |s|) == s
    ensures Substring(s, 0, k) == []
  {
  }

  /** Cutting a string at any integer position with two `substring` calls and
      joining the halves gives the string back, whatever the position. */
  lemma SplitAndJoin(s: JsStr, k: int)
    ensures Substring(s, 0, k) + Substring(s, k, |s|) == s
  {
  }
}
