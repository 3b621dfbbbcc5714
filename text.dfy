/** Go strings and byte slices as sequences of bytes, together with the few
    pieces of Go's standard library that the core leans on: `%d` formatting
    and `strings.Split` on one separator. */
module Text {

  type Byte = b: int | 0 <= b < 0x100
  type Bytes = seq<Byte>

  const NEWLINE: Byte := 0x0A
  const SPACE: Byte := 0x20
  const QUOTE: Byte := 0x22
  const COMMA: Byte := 0x2C
  const DASH: Byte := 0x2D
  const DIGIT_ZERO: Byte := 0x30
  const DIGIT_ONE: Byte := 0x31
  const LESS: Byte := 0x3C
  const EQUALS: Byte := 0x3D
  const GREATER: Byte := 0x3E
  const AT_SIGN: Byte := 0x40
  const LEFT_BRACKET: Byte := 0x5B
  const BACKSLASH: Byte := 0x5C
  const RIGHT_BRACKET: Byte := 0x5D

  predicate IsDigit(b: Byte) {
    DIGIT_ZERO <= b <= DIGIT_ZERO + 9
  }

  /** The concatenation of `f(x)` over `xs`, in order. */
  function ConcatMap<T>(f: T -> Bytes, xs: seq<T>): Bytes
  {
    if xs == [] then [] else f(xs[0]) + ConcatMap(f, xs[1..])
  }

  lemma {:induction false} ConcatMapAppend<T>(f: T -> Bytes, xs: seq<T>, ys: seq<T>)
    ensures ConcatMap(f, xs + ys) == ConcatMap(f, xs) + ConcatMap(f, ys)
  {
    if xs == [] {
      assert xs + ys == ys;
    } else {
      assert (xs + ys)[1..] == xs[1..] + ys;
      ConcatMapAppend(f, xs[1..], ys);
    }
  }

  /** The first image, then the rest, then whatever follows. */
  lemma ConcatMapCons<T>(f: T -> Bytes, xs: seq<T>, rest: Bytes)
    requires xs != []
    ensures ConcatMap(f, xs) + rest == f(xs[0]) + (ConcatMap(f, xs[1..]) + rest)
  {
  }

  /** One more element appended at the back adds its image at the back. */
  lemma ConcatMapSnoc<T>(f: T -> Bytes, xs: seq<T>, i: nat)
    requires i < |xs|
    ensures ConcatMap(f, xs[..i + 1]) == ConcatMap(f, xs[..i]) + f(xs[i])
  {
    assert xs[..i + 1] == xs[..i] + [xs[i]];
    ConcatMapAppend(f, xs[..i], [xs[i]]);
    assert ConcatMap(f, [xs[i]]) == f(xs[i]) + ConcatMap(f, []);
  }

  // Decimal formatting (`%d` of a non-negative integer)

  /** The shortest decimal representation of `n`. */
  function Decimal(n: nat): (r: Bytes)
    ensures |r| >= 1
    ensures forall k :: 0 <= k < |r| ==> IsDigit(r[k])
    ensures r[0] == DIGIT_ZERO ==> n == 0 && |r| == 1
  {
    if n < 10 then [DIGIT_ZERO + n] else Decimal(n / 10) + [DIGIT_ZERO + n % 10]
  }

  /** The value of a string of decimal digits. */
  function ParseDecimal(s: Bytes): nat
    requires forall k :: 0 <= k < |s| ==> IsDigit(s[k])
  {
    if s == [] then 0
    else
      var last := s[|s| - 1];
      assert IsDigit(last);
      ParseDecimal(s[..|s| - 1]) * 10 + (last - DIGIT_ZERO)
  }

  lemma {:induction false} ParseDecimalOfDecimal(n: nat)
    ensures ParseDecimal(Decimal(n)) == n
  {
    if n >= 10 {
      var d := Decimal(n);
      assert d[..|d| - 1] == Decimal(n / 10);
      ParseDecimalOfDecimal(n / 10);
    }
  }

  // strings.Split(s, ",")

  /** The pieces of `s` between commas; never empty (`Split("", ",")` is `[""]`). */
  function SplitComma(s: Bytes): (parts: seq<Bytes>)
    ensures |parts| >= 1
    ensures forall i, k :: 0 <= i < |parts| && 0 <= k < |parts[i]| ==> parts[i][k] != COMMA
  {
    if s == [] then [[]]
    else
      var tail := SplitComma(s[1..]);
      if s[0] == COMMA then [[]] + tail
      else
        assert forall k :: 0 < k < |[s[0]] + tail[0]| ==> ([s[0]] + tail[0])[k] == tail[0][k - 1];
        [[s[0]] + tail[0]] + tail[1..]
  }

  /** `strings.Join(parts, ",")`. */
  function JoinComma(parts: seq<Bytes>): Bytes
    requires |parts| >= 1
  {
    if |parts| == 1 then parts[0] else parts[0] + [COMMA] + JoinComma(parts[1..])
  }

  /** Splitting loses nothing: joining the pieces gives back the input. */
  lemma {:induction false} JoinSplitComma(s: Bytes)
    ensures JoinComma(SplitComma(s)) == s
  {
    if s != [] {
      var tail := SplitComma(s[1..]);
      JoinSplitComma(s[1..]);
      if s[0] != COMMA {
        var parts := [[s[0]] + tail[0]] + tail[1..];
        assert SplitComma(s) == parts;
        if |tail| == 1 {
          assert JoinComma(parts) == [s[0]] + tail[0];
        } else {
          assert parts[1..] == tail[1..];
          assert JoinComma(tail) == tail[0] + [COMMA] + JoinComma(tail[1..]);
        }
      } else {
        assert SplitComma(s) == [[]] + tail;
        assert ([[]] + tail)[1..] == tail;
      }
    }
  }

  /** There is more than one piece exactly when there is a comma. */
  lemma {:induction false} SplitCommaPieces(s: Bytes)
    ensures |SplitComma(s)| > 1 <==> COMMA in s
  {
    if s != [] {
      SplitCommaPieces(s[1..]);
      assert COMMA in s <==> s[0] == COMMA || COMMA in s[1..];
    }
  }

  /** A piece without commas followed by a comma splits off first. */
  lemma {:induction false} SplitCommaAt(a: Bytes, b: Bytes)
    requires COMMA !in a
    ensures SplitComma(a + [COMMA] + b) == [a] + SplitComma(b)
  {
    if a != [] {
      SplitCommaAt(a[1..], b);
      assert (a + [COMMA] + b)[1..] == a[1..] + [COMMA] + b;
      assert [a[0]] + a[1..] == a;
    } else {
      assert a + [COMMA] + b == [COMMA] + b;
    }
  }
}
