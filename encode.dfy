/** The byte layout of section 6 of RFC 5424,
    `<PRI>1 TIMESTAMP HOSTNAME APP-NAME PROCID MSGID STRUCTURED-DATA[ MSG]`,
    as `Message.MarshalBinary` produces it. */
module Encode {
  import opened Wrappers
  import opened Text
  import opened Escape
  import opened Validate

  /** The NILVALUE `-` in place of an empty field. */
  function Nilify(x: Bytes): (r: Bytes)
    ensures r != []
    ensures x != [] ==> r == x
    ensures x == [] ==> r == [DASH]
  {
    if x == [] then [DASH] else x
  }

  /** Nilify never produces the empty string, and a nilified field reads
      back as `-` only if it was empty or was `-` itself. */
  lemma NilifyInvertible(x: Bytes)
    ensures Nilify(x) == [DASH] <==> x == [] || x == [DASH]
    ensures Nilify(Nilify(x)) == Nilify(x)
  {
  }

  // PRI = Severity | Facility << 3

  /** Bitwise OR of two non-negative integers. */
  function BitOr(a: nat, b: nat): nat
    decreases a + b
  {
    if a == 0 then b
    else if b == 0 then a
    else 2 * BitOr(a / 2, b / 2) + (if a % 2 == 1 || b % 2 == 1 then 1 else 0)
  }

  /** Shifting both operands left by one bit and setting the low bit of the
      first sets the low bit of the result. */
  lemma BitOrStep(a: nat, b: nat, x: nat, c: nat, d: nat)
    requires x < 2 && c == 2 * a + x && d == 2 * b
    ensures BitOr(c, d) == 2 * BitOr(a, b) + x
  {
  }

  /** `Severity | Facility << 3` (the shift cannot overflow for a valid facility). */
  function Pri(severity: nat, facility: nat): nat {
    BitOr(severity, facility * 8)
  }

  /** For the RFC's severities 0..7 the PRI is `8 * Facility + Severity`, so
      both can be read back from it. */
  lemma {:induction false} PriDecomposes(severity: nat, facility: nat)
    requires severity < 8
    ensures Pri(severity, facility) == 8 * facility + severity
    ensures Pri(severity, facility) % 8 == severity && Pri(severity, facility) / 8 == facility
  {
    var a1, s0 := severity / 2, severity % 2;
    var a2, s1 := a1 / 2, a1 % 2;
    var f2, f4, f8 := 2 * facility, 4 * facility, facility * 8;
    EightTimes(facility);
    BitOrStep(0, facility, a2, a2, f2);
    BitOrStep(a2, f2, s1, a1, f4);
    BitOrStep(a1, f4, s0, severity, f8);
    DivModEight(facility, severity);
  }

  lemma EightTimes(f: nat)
    ensures 2 * f + 2 * f == 4 * f && 2 * (4 * f) == f * 8 == 8 * f
  {
  }

  lemma DivModEight(q: nat, r: nat)
    requires r < 8
    ensures (8 * q + r) % 8 == r && (8 * q + r) / 8 == q
  {
  }

  /** Severity 8, which validation accepts, sets the low bit of the facility
      instead: with an odd facility, a valid message of Severity 0 and the
      same message with Severity 8 are both valid and encode to the same
      bytes. */
  lemma SeverityEightOverlapsFacility(m: Message)
    requires Valid(m) && m.severity == 0 && m.facility % 2 == 1
    ensures Valid(m.(severity := 8))
    ensures Marshal(m.(severity := 8)) == Marshal(m)
  {
    var m8 := m.(severity := 8);
    HeaderOkUnfolded(m);
    HeaderOkUnfolded(m8);
    CheckNoneIffValid(m);
    CheckNoneIffValid(m8);
    MarshalOfValid(m);
    MarshalOfValid(m8);
    SeverityEightPri(m.facility);
    assert Header(m8) == Header(m);
  }

  /** With an odd facility, Severity 8 and Severity 0 give the same PRI. */
  lemma SeverityEightPri(facility: nat)
    requires facility % 2 == 1
    ensures Pri(8, facility) == Pri(0, facility)
  {
    var f2, f4, f8 := 2 * facility, 4 * facility, facility * 8;
    EightTimes(facility);
    assert BitOr(1, facility) == facility;
    assert BitOr(2, f2) == 2 * facility;
    assert BitOr(4, f4) == 2 * f2;
    assert BitOr(8, f8) == 2 * f4;
  }

  // The parts of the encoding

  /** The HEADER and its trailing space: `<PRI>1 TIMESTAMP HOSTNAME APP-NAME
      PROCID MSGID `. */
  function Header(m: Message): Bytes
    requires m.severity >= 0 && m.facility >= 0
  {
    [LESS] + Decimal(Pri(m.severity, m.facility)) + [GREATER, DIGIT_ONE, SPACE] + HeaderFields(m)
  }

  /** TIMESTAMP, HOSTNAME, APP-NAME, PROCID and MSGID, the last four nilified. */
  function HeaderFieldList(m: Message): seq<Bytes> {
    [m.timestamp, Nilify(m.hostname), Nilify(m.appName), Nilify(m.processId), Nilify(m.messageId)]
  }

  /** Each field followed by a space. */
  function Terminated(fields: seq<Bytes>): Bytes {
    if fields == [] then [] else fields[0] + [SPACE] + Terminated(fields[1..])
  }

  /** The five space-terminated fields after the version. */
  function HeaderFields(m: Message): Bytes {
    Terminated(HeaderFieldList(m))
  }

  /** ` name="escaped-value"` */
  function RenderParam(p: SdParam): Bytes {
    [SPACE] + p.name + [EQUALS, QUOTE] + Escaped(p.value) + [QUOTE]
  }

  /** `[ID param...]` */
  function RenderElement(e: SdElement): Bytes {
    [LEFT_BRACKET] + e.id + ConcatMap(RenderParam, e.parameters) + [RIGHT_BRACKET]
  }

  /** STRUCTURED-DATA: the NILVALUE when there are no elements. */
  function RenderStructuredData(elements: seq<SdElement>): Bytes {
    if elements == [] then [DASH] else ConcatMap(RenderElement, elements)
  }

  /** The body after a single space, or nothing at all when it is empty. */
  function RenderBody(message: Bytes): Bytes {
    if message == [] then [] else [SPACE] + message
  }

  /** The encoding of `m`, or the first validation error. */
  function Marshal(m: Message): Result<Bytes, InvalidValue> {
    match Check(m)
    case Some(e) => Failure(e)
    case None => Success(Header(m) + RenderStructuredData(m.structuredData) + RenderBody(m.message))
  }

  /** One iteration of the element loop of `Message.MarshalBinary`: writes
      `[ID`, then ` name="escaped"` per parameter, then `]`. */
  method WriteElement(b: Bytes, element: SdElement) returns (out: Bytes)
    ensures out == b + RenderElement(element)
  {
    out := b + [LEFT_BRACKET] + element.id;
    ghost var open := out;
    var params := element.parameters;
    for j := 0 to |params|
      invariant out == open + ConcatMap(RenderParam, params[..j])
    {
      var param := params[j];
      var escaped := EscapeSdParam(param.value);
      var rendered := [SPACE] + param.name + [EQUALS, QUOTE] + escaped + [QUOTE];
      ConcatMapSnoc(RenderParam, params, j);
      assert open + ConcatMap(RenderParam, params[..j + 1]) == out + rendered;
      out := out + rendered;
    }
    out := out + [RIGHT_BRACKET];
    assert params[..|params|] == params;
  }

  /** The structured-data part of `Message.MarshalBinary`: `-` when there
      are no elements, otherwise each element in turn. */
  method WriteStructuredData(b: Bytes, elements: seq<SdElement>) returns (out: Bytes)
    ensures out == b + RenderStructuredData(elements)
  {
    out := b;
    if |elements| == 0 {
      out := out + [DASH];
      return;
    }
    for i := 0 to |elements|
      invariant out == b + ConcatMap(RenderElement, elements[..i])
    {
      out := WriteElement(out, elements[i]);
      ConcatMapSnoc(RenderElement, elements, i);
    }
    assert elements[..|elements|] == elements;
  }

  /** `Message.MarshalBinary`: validate, then append the header, the
      structured data and the body. */
  method MarshalBinary(m: Message) returns (r: Result<Bytes, InvalidValue>)
    ensures r == Marshal(m)
  {
    var err := AssertValid(m);
    if err.Some? {
      return Failure(err.value);
    }
    MarshalOfValid(m);

    // The formatted header line: "<%d>1 %s %s %s %s %s ".
    var b := Header(m);
    b := WriteStructuredData(b, m.structuredData);
    ghost var encoded := b;
    if |m.message| > 0 {
      b := b + [SPACE] + m.message;
    }
    assert b == encoded + RenderBody(m.message);
    return Success(b);
  }

  lemma MarshalOfValid(m: Message)
    requires Check(m) == None
    ensures m.severity >= 0 && m.facility >= 0
    ensures Marshal(m) == Success(Header(m) + RenderStructuredData(m.structuredData) + RenderBody(m.message))
  {
  }

  /** Encoding fails exactly on invalid messages, naming the first violated
      check; otherwise it succeeds. */
  lemma MarshalFailsIffInvalid(m: Message)
    ensures Marshal(m).Failure? <==> !Valid(m)
    ensures Marshal(m).Failure? ==> Check(m) == Some(Marshal(m).error)
  {
    CheckNoneIffValid(m);
  }

  /** The encoding of a valid message begins with `<`, the PRI in decimal and
      `>1 `, and ends with the body when there is one. */
  lemma MarshalFraming(m: Message)
    requires Valid(m)
    ensures Marshal(m).Success?
    ensures var out := Marshal(m).value;
      var pri := Decimal(Pri(m.severity, m.facility));
      && |out| > |pri| + 3
      && out[0] == LESS && out[1..|pri| + 1] == pri
      && out[|pri| + 1..|pri| + 4] == [GREATER, DIGIT_ONE, SPACE]
      && (m.message != [] ==> out[|out| - |m.message| - 1..] == [SPACE] + m.message)
      && (m.message == [] && m.structuredData == [] ==> out[|out| - 1] == DASH)
  {
    CheckNoneIffValid(m);
    MarshalOfValid(m);
    EncodingFraming(m);
  }

  lemma EncodingFraming(m: Message)
    requires m.severity >= 0 && m.facility >= 0
    ensures var out := Header(m) + RenderStructuredData(m.structuredData) + RenderBody(m.message);
      var pri := Decimal(Pri(m.severity, m.facility));
      && |out| > |pri| + 3
      && out[0] == LESS && out[1..|pri| + 1] == pri
      && out[|pri| + 1..|pri| + 4] == [GREATER, DIGIT_ONE, SPACE]
      && (m.message != [] ==> out[|out| - |m.message| - 1..] == [SPACE] + m.message)
      && (m.message == [] && m.structuredData == [] ==> out[|out| - 1] == DASH)
  {
    var pri := Decimal(Pri(m.severity, m.facility));
    var tail := HeaderFields(m) + RenderStructuredData(m.structuredData);
    FramedSlices(pri, tail, RenderBody(m.message));
    assert Header(m) + RenderStructuredData(m.structuredData) + RenderBody(m.message)
      == [LESS] + pri + [GREATER, DIGIT_ONE, SPACE] + tail + RenderBody(m.message);
  }

  lemma FramedSlices(pri: Bytes, tail: Bytes, body: Bytes)
    ensures var out := [LESS] + pri + [GREATER, DIGIT_ONE, SPACE] + tail + body;
      && |out| == |pri| + 4 + |tail| + |body|
      && out[0] == LESS && out[1..|pri| + 1] == pri
      && out[|pri| + 1..|pri| + 4] == [GREATER, DIGIT_ONE, SPACE]
      && out[|out| - |body|..] == body
      && (body == [] && tail != [] ==> out[|out| - 1] == tail[|tail| - 1])
  {
  }
}
