/** The UTF-8 check that `str::from_utf8` performs before `Query::to_string`
    formats a key or a value. */
module Utf8 {

  import opened Bytes

  /** `b` is a continuation byte in the range `lo..=hi`. */
  predicate Between(b: Byte, lo: int, hi: int) {
    lo <= b <= hi
  }

  /** The length of the well-formed scalar encoding at the start of `s`, or 0
      when `s` does not start with one, following Table 3-7 ("Well-Formed
      UTF-8 Byte Sequences") of the Unicode Standard: no overlong forms, no
      surrogates, nothing above U+10FFFF. */
  function ScalarLength(s: Bytes): (n: nat)
    requires |s| > 0
    ensures n <= 4 && n <= |s|
    ensures s[0] < 0x80 ==> n == 1
  {
    var b0 := s[0];
    if b0 < 0x80 then 1
    else if 0xC2 <= b0 <= 0xDF then Trail(s, 2, 0x80, 0xBF)
    else if b0 == 0xE0 then Trail(s, 3, 0xA0, 0xBF)
    else if 0xE1 <= b0 <= 0xEC || 0xEE <= b0 <= 0xEF then Trail(s, 3, 0x80, 0xBF)
    else if b0 == 0xED then Trail(s, 3, 0x80, 0x9F)
    else if b0 == 0xF0 then Trail(s, 4, 0x90, 0xBF)
    else if 0xF1 <= b0 <= 0xF3 then Trail(s, 4, 0x80, 0xBF)
    else if b0 == 0xF4 then Trail(s, 4, 0x80, 0x8F)
    else 0
  }

  /** `n` when the `n - 1` bytes after the lead byte are present, the first of
      them in `lo..=hi` and the rest in `0x80..=0xBF`; otherwise 0. */
  function Trail(s: Bytes, n: nat, lo: int, hi: int): (r: nat)
    requires 2 <= n <= 4
    ensures r == 0 || (r == n && n <= |s|)
  {
    if |s| < n || !Between(s[1], lo, hi) then 0
    else if forall i | 2 <= i < n :: Between(s[i], 0x80, 0xBF) then n
    else 0
  }

  /** `s` is a sequence of well-formed UTF-8 scalar encodings. A valid
      string never starts with a continuation byte, with the overlong leads
      0xC0 and 0xC1, or with a lead above 0xF4. */
  predicate Valid(s: Bytes): (r: bool)
    ensures r && |s| > 0 ==> s[0] < 0x80 || 0xC2 <= s[0] <= 0xF4
    decreases |s|
  {
    |s| == 0 || (ScalarLength(s) > 0 && Valid(s[ScalarLength(s)..]))
  }

  /** Seven-bit ASCII is valid UTF-8. */
  lemma {:induction false} AsciiIsValid(s: Bytes)
    requires forall i :: 0 <= i < |s| ==> s[i] < 0x80
    ensures Valid(s)
    decreases |s|
  {
    if |s| > 0 {
      AsciiIsValid(s[1..]);
    }
  }
}
