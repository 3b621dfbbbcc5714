/** UTF-8 decoding exactly as Go's `unicode/utf8` package does it: the rune
    iteration of `for _, ch := range s` (`DecodeRune`) and `utf8.ValidString`
    (`ValidUtf8`). An invalid or truncated sequence decodes to the
    replacement rune U+FFFD with width 1. */
module Utf8 {
  import opened Text

  const RUNE_ERROR: int := 0xFFFD

  predicate IsContinuation(b: Byte) {
    0x80 <= b <= 0xBF
  }

  /** The range allowed for the second byte of a multi-byte sequence
      starting with `b0` (Go's `acceptRanges`). */
  function SecondLow(b0: Byte): Byte {
    if b0 == 0xE0 then 0xA0 else if b0 == 0xF0 then 0x90 else 0x80
  }

  function SecondHigh(b0: Byte): Byte {
    if b0 == 0xED then 0x9F else if b0 == 0xF4 then 0x8F else 0xBF
  }

  /** The first rune of `s` and the number of bytes it occupies. */
  function DecodeRune(s: Bytes): (r: (int, nat))
    requires |s| > 0
    ensures 1 <= r.1 <= |s| && r.1 <= 4
    ensures r.0 >= 0
  {
    var b0: int := s[0];
    if b0 < 0x80 then (b0, 1)
    else if 0xC2 <= b0 <= 0xDF then
      if |s| >= 2 && IsContinuation(s[1])
      then ((b0 - 0xC0) * 0x40 + (s[1] as int - 0x80), 2)
      else (RUNE_ERROR, 1)
    else if 0xE0 <= b0 <= 0xEF then
      if |s| >= 3 && SecondLow(b0) <= s[1] <= SecondHigh(b0) && IsContinuation(s[2])
      then ((b0 - 0xE0) * 0x1000 + (s[1] as int - 0x80) * 0x40 + (s[2] as int - 0x80), 3)
      else (RUNE_ERROR, 1)
    else if 0xF0 <= b0 <= 0xF4 then
      if |s| >= 4 && SecondLow(b0) <= s[1] <= SecondHigh(b0) && IsContinuation(s[2]) && IsContinuation(s[3])
      then ((b0 - 0xF0) * 0x40000 + (s[1] as int - 0x80) * 0x1000 + (s[2] as int - 0x80) * 0x40 + (s[3] as int - 0x80), 4)
      else (RUNE_ERROR, 1)
    else (RUNE_ERROR, 1)
  }

  /** An ASCII rune is exactly a one-byte sequence below 0x80; every other
      decoding (multi-byte or U+FFFD) is a rune at or above 0x80. */
  lemma DecodeRuneAscii(s: Bytes)
    requires |s| > 0
    ensures DecodeRune(s).0 < 0x80 <==> s[0] < 0x80
    ensures s[0] < 0x80 ==> DecodeRune(s) == (s[0], 1)
  {
  }

  /** `utf8.ValidString`. */
  predicate ValidUtf8(s: Bytes)
    decreases |s|
  {
    s == [] ||
    var (rune, width) := DecodeRune(s);
    !(rune == RUNE_ERROR && width == 1) && ValidUtf8(s[width..])
  }

  /** Pure ASCII is valid UTF-8. */
  lemma {:induction false} AsciiIsValidUtf8(s: Bytes)
    requires forall k :: 0 <= k < |s| ==> s[k] < 0x80
    ensures ValidUtf8(s)
  {
    if s != [] {
      DecodeRuneAscii(s);
      AsciiIsValidUtf8(s[1..]);
    }
  }

  /** A lone continuation byte, a lead byte that no sequence starts with, or
      a lead byte whose sequence is cut short by the end of the text is not
      valid UTF-8. */
  lemma {:induction false} InvalidLeadRejected(s: Bytes)
    requires |s| > 0
    requires || IsContinuation(s[0]) || s[0] >= 0xF5 || s[0] == 0xC0 || s[0] == 0xC1
             || (0xC2 <= s[0] <= 0xDF && |s| < 2)
             || (0xE0 <= s[0] <= 0xEF && |s| < 3)
             || (0xF0 <= s[0] <= 0xF4 && |s| < 4)
    ensures !ValidUtf8(s)
  {
    assert DecodeRune(s) == (RUNE_ERROR, 1);
  }
}
