/** The structured-data tag syntax `^(\d+@\S+)( (.*))?$` that a field tag
    may use to name its SD-ID and its PARAM-NAME, matched by hand. In Go's
    regexp syntax `\d` is `[0-9]`, `\S` is any character but tab, newline,
    form feed, carriage return and space, `.` is any character but newline
    and `$` (without the multi-line flag) is the end of the text. Every byte
    of a multi-byte or invalid UTF-8 sequence is at or above 0x80, so these
    classes can be tested byte by byte. */
module SdTag {
  import opened Wrappers
  import opened Text

  /** Go's `\s`. */
  predicate IsRegexpSpace(b: Byte) {
    b == 0x09 || b == NEWLINE || b == 0x0C || b == 0x0D || b == SPACE
  }

  /** The first position at or after `i` that does not hold a digit. */
  function DigitsEnd(s: Bytes, i: nat): (j: nat)
    requires i <= |s|
    ensures i <= j <= |s|
    decreases |s| - i
  {
    if i == |s| || !IsDigit(s[i]) then i else DigitsEnd(s, i + 1)
  }

  lemma {:induction false} DigitsEndIs(s: Bytes, i: nat, j: nat)
    requires i <= j <= |s|
    ensures DigitsEnd(s, i) == j <==>
      (forall k :: i <= k < j ==> IsDigit(s[k])) && (j == |s| || !IsDigit(s[j]))
    decreases |s| - i
  {
    if i < j {
      DigitsEndIs(s, i + 1, j);
    }
  }

  /** The first position at or after `i` that holds a `\s` byte. */
  function NonSpaceEnd(s: Bytes, i: nat): (j: nat)
    requires i <= |s|
    ensures i <= j <= |s|
    decreases |s| - i
  {
    if i == |s| || IsRegexpSpace(s[i]) then i else NonSpaceEnd(s, i + 1)
  }

  lemma {:induction false} NonSpaceEndIs(s: Bytes, i: nat, j: nat)
    requires i <= j <= |s|
    ensures NonSpaceEnd(s, i) == j <==>
      (forall k :: i <= k < j ==> !IsRegexpSpace(s[k])) && (j == |s| || IsRegexpSpace(s[j]))
    decreases |s| - i
  {
    if i < j {
      NonSpaceEndIs(s, i + 1, j);
    }
  }

  /** Whether no byte from position `i` on is a newline. */
  predicate NoNewlineFrom(s: Bytes, i: nat)
    requires i <= |s|
    decreases |s| - i
  {
    i == |s| || (s[i] != NEWLINE && NoNewlineFrom(s, i + 1))
  }

  lemma {:induction false} NoNewlineFromAll(s: Bytes, i: nat)
    requires i <= |s|
    ensures NoNewlineFrom(s, i) <==> forall k :: i <= k < |s| ==> s[k] != NEWLINE
    decreases |s| - i
  {
    if i < |s| {
      NoNewlineFromAll(s, i + 1);
    }
  }

  /** Group 1 (the SD-ID) and group 3 (the name) of a match that ends group 1
      at `e`; group 3 is empty when the optional group does not take part. */
  function Captures(s: Bytes, e: nat): (Bytes, Bytes)
    requires e <= |s|
  {
    (s[..e], if e == |s| then [] else s[e + 1..])
  }

  /** The match of the tag syntax against the whole of `s`, as its two groups:
      the digits, the `@`, the longest run without `\s`, then the end of the
      text or a space and bytes without a newline. */
  function MatchSdTag(s: Bytes): Option<(Bytes, Bytes)> {
    var d := DigitsEnd(s, 0);
    if d == 0 || d == |s| || s[d] != AT_SIGN then None
    else
      var e := NonSpaceEnd(s, d + 1);
      if e == d + 1 then None
      else if e == |s| then Some(Captures(s, e))
      else if s[e] == SPACE && NoNewlineFrom(s, e + 1) then Some(Captures(s, e))
      else None
  }

  /** `s` splits as `d` digits, `@`, a non-empty run of non-`\s` bytes ending
      at `e`, and then either nothing or a space followed by bytes without a
      newline: the ways the expression can match the whole of `s`. */
  predicate Shape(s: Bytes, d: nat, e: nat) {
    && 0 < d && d + 1 < e <= |s|
    && (forall k :: 0 <= k < d ==> IsDigit(s[k]))
    && s[d] == AT_SIGN
    && (forall k :: d < k < e ==> !IsRegexpSpace(s[k]))
    && (e == |s| || (s[e] == SPACE && forall k :: e < k < |s| ==> s[k] != NEWLINE))
  }

  /** Every match comes from a split of that shape, with the groups it implies. */
  lemma MatchSdTagSound(s: Bytes)
    requires MatchSdTag(s).Some?
    ensures exists d: nat, e: nat :: e <= |s| && Shape(s, d, e) && MatchSdTag(s) == Some(Captures(s, e))
  {
    var d := DigitsEnd(s, 0);
    var e := NonSpaceEnd(s, d + 1);
    assert MatchSdTag(s) == Some(Captures(s, e));
    RunsGiveShape(s, d, e);
  }

  lemma RunsGiveShape(s: Bytes, d: nat, e: nat)
    requires d == DigitsEnd(s, 0) && 0 < d < |s| && s[d] == AT_SIGN
    requires e == NonSpaceEnd(s, d + 1) && d + 1 < e
    requires e < |s| ==> s[e] == SPACE && NoNewlineFrom(s, e + 1)
    ensures Shape(s, d, e)
  {
    DigitsEndIs(s, 0, d);
    NonSpaceEndIs(s, d + 1, e);
    if e < |s| {
      NoNewlineFromAll(s, e + 1);
    }
  }

  /** Every split of that shape is found, and it is the only one: the digits
      end at the `@`, and the SD-ID at the first `\s` byte. */
  lemma MatchSdTagComplete(s: Bytes, d: nat, e: nat)
    requires Shape(s, d, e)
    ensures MatchSdTag(s) == Some(Captures(s, e))
  {
    DigitsEndIs(s, 0, d);
    NonSpaceEndIs(s, d + 1, e);
    if e < |s| {
      NoNewlineFromAll(s, e + 1);
    }
  }

  /** A tag without the `@` matches nothing. */
  lemma NoAtNoMatch(s: Bytes)
    requires AT_SIGN !in s
    ensures MatchSdTag(s) == None
  {
  }
}
