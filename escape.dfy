/** PARAM-VALUE escaping of section 6.3.3 of RFC 5424: every `"`, `\` and
    `]` is preceded by a backslash; every other byte is copied as it is. */
module Escape {
  import opened Wrappers
  import opened Text

  predicate IsSpecial(b: Byte) {
    b == BACKSLASH || b == QUOTE || b == RIGHT_BRACKET
  }

  function EscapeByte(b: Byte): Bytes {
    if IsSpecial(b) then [BACKSLASH, b] else [b]
  }

  /** The escaped form of a whole value. */
  function Escaped(s: Bytes): Bytes {
    ConcatMap(EscapeByte, s)
  }

  /** The number of bytes of `s` that need an escape (the first loop of
      `escapeSDParam`). */
  function CountSpecial(s: Bytes): nat {
    if s == [] then 0
    else CountSpecial(s[..|s| - 1]) + (if IsSpecial(s[|s| - 1]) then 1 else 0)
  }

  lemma EscapedSnoc(s: Bytes, i: nat)
    requires i < |s|
    ensures Escaped(s[..i + 1]) == Escaped(s[..i]) + EscapeByte(s[i])
  {
    ConcatMapSnoc(EscapeByte, s, i);
  }

  /** The escaped value is the input plus one byte per special byte. */
  lemma {:induction false} EscapedLength(s: Bytes)
    ensures |Escaped(s)| == |s| + CountSpecial(s)
  {
    if s != [] {
      var n := |s| - 1;
      EscapedSnoc(s, n);
      assert s[..n + 1] == s;
      EscapedLength(s[..n]);
    }
  }

  /** Escaping changes a value exactly when it holds a special byte. */
  lemma {:induction false} EscapedIdentity(s: Bytes)
    ensures Escaped(s) == s <==> CountSpecial(s) == 0
  {
    EscapedLength(s);
    if CountSpecial(s) == 0 {
      NoSpecialEscapesToItself(s);
    }
  }

  lemma {:induction false} NoSpecialEscapesToItself(s: Bytes)
    requires CountSpecial(s) == 0
    ensures Escaped(s) == s
  {
    if s != [] {
      var n := |s| - 1;
      EscapedSnoc(s, n);
      assert s[..n + 1] == s;
      NoSpecialEscapesToItself(s[..n]);
      assert s[..n] + [s[n]] == s;
    }
  }

  lemma EscapedPrefixFits(s: Bytes, i: nat)
    requires i <= |s|
    ensures |Escaped(s[..i])| <= |Escaped(s)|
  {
    ConcatMapAppend(EscapeByte, s[..i], s[i..]);
    assert s[..i] + s[i..] == s;
  }

  /** `escapeSDParam`: count the special bytes; when there are none the input
      is returned as it is, otherwise a buffer of the final size is filled
      byte by byte. */
  method EscapeSdParam(s: Bytes) returns (t: Bytes)
    ensures t == Escaped(s)
    ensures CountSpecial(s) == 0 ==> t == s
  {
    var escapeCount := 0;
    for i := 0 to |s|
      invariant escapeCount == CountSpecial(s[..i])
    {
      assert s[..i + 1][..i] == s[..i];
      if IsSpecial(s[i]) {
        escapeCount := escapeCount + 1;
      }
    }
    assert s[..|s|] == s;
    if escapeCount == 0 {
      NoSpecialEscapesToItself(s);
      return s;
    }

    EscapedLength(s);
    var buffer := new Byte[|s| + escapeCount](_ => 0);
    var j := 0;
    for i := 0 to |s|
      invariant j == |Escaped(s[..i])| <= buffer.Length
      invariant buffer[..j] == Escaped(s[..i])
    {
      EscapedSnoc(s, i);
      EscapedPrefixFits(s, i + 1);
      var c := s[i];
      if IsSpecial(c) {
        buffer[j] := BACKSLASH;
        buffer[j + 1] := c;
        j := j + 2;
      } else {
        buffer[j] := c;
        j := j + 1;
      }
    }
    t := buffer[..];
    assert buffer[..j] == buffer[..];
  }

  // Reading an escaped value back

  /** Reads a quoted PARAM-VALUE whose opening `"` has already been consumed:
      a backslash takes the next byte literally, an unescaped `"` ends the
      value. Returns the unescaped value and what follows the closing quote. */
  function Unescape(t: Bytes): (r: Option<(Bytes, Bytes)>)
    ensures r.Some? ==> |r.value.1| < |t|
  {
    if t == [] then None
    else if t[0] == QUOTE then Some(([], t[1..]))
    else if t[0] == BACKSLASH && |t| >= 2 then
      match Unescape(t[2..])
      case None => None
      case Some((v, rest)) => Some(([t[1]] + v, rest))
    else
      match Unescape(t[1..])
      case None => None
      case Some((v, rest)) => Some(([t[0]] + v, rest))
  }

  /** Unescaping the escaped value up to its closing quote gives back the
      original value and leaves whatever followed the quote. */
  lemma {:induction false} UnescapeEscaped(s: Bytes, rest: Bytes)
    ensures Unescape(Escaped(s) + [QUOTE] + rest) == Some((s, rest))
  {
    if s == [] {
      assert Escaped(s) + [QUOTE] + rest == [QUOTE] + rest;
    } else {
      var t := Escaped(s) + [QUOTE] + rest;
      UnescapeEscaped(s[1..], rest);
      assert Escaped(s) == EscapeByte(s[0]) + Escaped(s[1..]);
      if IsSpecial(s[0]) {
        assert t[2..] == Escaped(s[1..]) + [QUOTE] + rest;
      } else {
        assert t[1..] == Escaped(s[1..]) + [QUOTE] + rest;
      }
      assert [s[0]] + s[1..] == s;
    }
  }

  // Every `"` and `]` in an escaped value is itself escaped

  /** The number of consecutive backslashes immediately before position `k`. */
  function BackslashRun(t: Bytes, k: nat): nat
    requires k <= |t|
  {
    if k == 0 || t[k - 1] != BACKSLASH then 0 else 1 + BackslashRun(t, k - 1)
  }

  lemma {:induction false} BackslashRunPrefix(t: Bytes, u: Bytes, k: nat)
    requires k <= |t|
    ensures BackslashRun(t + u, k) == BackslashRun(t, k)
  {
    if k > 0 && t[k - 1] == BACKSLASH {
      BackslashRunPrefix(t, u, k - 1);
    }
  }

  /** In an escaped value, every `"` or `]` follows an odd run of backslashes
      (so it cannot close the quoted value or the element), and the value
      ends in an even run (so the closing quote is not escaped). */
  lemma {:induction false} EscapedQuotesAreEscaped(s: Bytes)
    ensures var t := Escaped(s);
      && BackslashRun(t, |t|) % 2 == 0
      && forall k :: 0 <= k < |t| && (t[k] == QUOTE || t[k] == RIGHT_BRACKET) ==> BackslashRun(t, k) % 2 == 1
  {
    if s != [] {
      var n := |s| - 1;
      var e := Escaped(s[..n]);
      EscapedQuotesAreEscaped(s[..n]);
      EscapedSnoc(s, n);
      assert s[..n + 1] == s;
      var t := e + EscapeByte(s[n]);
      assert Escaped(s) == t;
      forall k | 0 <= k <= |e|
        ensures BackslashRun(t, k) == BackslashRun(e, k)
      {
        BackslashRunPrefix(e, EscapeByte(s[n]), k);
      }
      if IsSpecial(s[n]) {
        assert BackslashRun(t, |e| + 1) == 1 + BackslashRun(t, |e|);
        if s[n] == BACKSLASH {
          assert BackslashRun(t, |t|) == 1 + BackslashRun(t, |e| + 1);
        }
      }
    }
  }
}
