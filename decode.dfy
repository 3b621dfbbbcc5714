/** A reader for the byte layout `Encode` produces, used to show what the
    encoding of a valid message keeps: its PRI, its nilified header fields,
    its structured data and its body. Two losses remain: an empty header
    field and one that is literally `-` read back alike, and Severity 8 with
    an odd facility gives the PRI of Severity 0
    (`Encode.SeverityEightOverlapsFacility`). */
module Decode {
  import opened Wrappers
  import opened Text
  import opened Escape
  import opened Validate
  import opened Encode

  /** What a reader recovers from an encoded message: the PRI value, the five
      header fields as they appear on the wire (nilified), the structured data
      and the body. */
  datatype Decoded = Decoded(
    pri: nat,
    timestamp: Bytes,
    hostname: Bytes,
    appName: Bytes,
    processId: Bytes,
    messageId: Bytes,
    structuredData: seq<SdElement>,
    message: Bytes)

  // Scanning

  /** The bytes before the first `sep` and those after it. */
  function SplitAt(s: Bytes, sep: Byte): (r: Option<(Bytes, Bytes)>)
    ensures r.Some? ==> sep !in r.value.0 && r.value.0 + [sep] + r.value.1 == s
    ensures r.None? ==> sep !in s
  {
    if s == [] then None
    else if s[0] == sep then Some(([], s[1..]))
    else
      match SplitAt(s[1..], sep)
      case None => None
      case Some((a, b)) =>
        assert [s[0]] + a + [sep] + b == [s[0]] + (a + [sep] + b);
        Some(([s[0]] + a, b))
  }

  lemma {:induction false} SplitAtConcat(a: Bytes, sep: Byte, b: Bytes)
    requires sep !in a
    ensures SplitAt(a + [sep] + b, sep) == Some((a, b))
  {
    if a != [] {
      assert (a + [sep] + b)[1..] == a[1..] + [sep] + b;
      SplitAtConcat(a[1..], sep, b);
      assert [a[0]] + a[1..] == a;
    }
  }

  /** A byte that ends an SD-ID. */
  predicate IdStop(b: Byte) {
    b == SPACE || b == RIGHT_BRACKET
  }

  /** The SD-ID at the front of `s` and what follows it. */
  function TakeId(s: Bytes): (r: (Bytes, Bytes))
    ensures r.0 + r.1 == s
    ensures forall k :: 0 <= k < |r.0| ==> !IdStop(r.0[k])
    ensures r.1 == [] || IdStop(r.1[0])
  {
    if s == [] || IdStop(s[0]) then ([], s)
    else
      var (a, b) := TakeId(s[1..]);
      assert [s[0]] + a + b == [s[0]] + (a + b);
      ([s[0]] + a, b)
  }

  lemma {:induction false} TakeIdConcat(a: Bytes, b: Bytes)
    requires forall k :: 0 <= k < |a| ==> !IdStop(a[k])
    requires b == [] || IdStop(b[0])
    ensures TakeId(a + b) == (a, b)
  {
    if a == [] {
      assert a + b == b;
    } else {
      var s := a + b;
      assert s[0] == a[0] && !IdStop(s[0]);
      assert s[1..] == a[1..] + b;
      TakeIdConcat(a[1..], b);
      assert TakeId(s) == ([s[0]] + a[1..], b);
      assert [a[0]] + a[1..] == a;
    }
  }

  // Structured data

  /** ` name="value"` parameters, as long as the next byte is a space. */
  function ParseParams(s: Bytes): (r: Option<(seq<SdParam>, Bytes)>)
    ensures r.Some? ==> |r.value.1| <= |s|
    decreases |s|
  {
    if s == [] || s[0] != SPACE then Some(([], s))
    else
      match SplitAt(s[1..], EQUALS)
      case None => None
      case Some((name, afterName)) =>
        if afterName == [] || afterName[0] != QUOTE then None
        else
          match Unescape(afterName[1..])
          case None => None
          case Some((value, rest)) =>
            match ParseParams(rest)
            case None => None
            case Some((params, tail)) => Some(([SdParam(name, value)] + params, tail))
  }

  /** `[ID params]`. */
  function ParseElement(s: Bytes): (r: Option<(SdElement, Bytes)>)
    ensures r.Some? ==> |r.value.1| < |s|
  {
    if s == [] || s[0] != LEFT_BRACKET then None
    else
      var (id, afterId) := TakeId(s[1..]);
      match ParseParams(afterId)
      case None => None
      case Some((params, rest)) =>
        if rest == [] || rest[0] != RIGHT_BRACKET then None
        else Some((SdElement(id, params), rest[1..]))
  }

  /** Elements, as long as the next byte opens one. */
  function ParseElements(s: Bytes): Option<(seq<SdElement>, Bytes)>
    decreases |s|
  {
    if s == [] || s[0] != LEFT_BRACKET then Some(([], s))
    else
      match ParseElement(s)
      case None => None
      case Some((element, rest)) =>
        match ParseElements(rest)
        case None => None
        case Some((elements, tail)) => Some(([element] + elements, tail))
  }

  /** STRUCTURED-DATA: the NILVALUE or at least one element. */
  function ParseStructuredData(s: Bytes): Option<(seq<SdElement>, Bytes)> {
    if s != [] && s[0] == DASH then Some(([], s[1..]))
    else
      match ParseElements(s)
      case None => None
      case Some((elements, rest)) => if elements == [] then None else Some((elements, rest))
  }

  /** The body: nothing, or a space and the rest of the bytes. */
  function ParseBody(s: Bytes): Option<Bytes> {
    if s == [] then Some([])
    else if s[0] == SPACE then Some(s[1..])
    else None
  }

  // The header

  /** `<PRI>`. */
  function ParsePri(s: Bytes): Option<(nat, Bytes)> {
    if s == [] || s[0] != LESS then None
    else
      match SplitAt(s[1..], GREATER)
      case None => None
      case Some((digits, rest)) =>
        if digits != [] && forall k :: 0 <= k < |digits| ==> IsDigit(digits[k])
        then Some((ParseDecimal(digits), rest))
        else None
  }

  /** `n` space-terminated fields. */
  function ParseFields(s: Bytes, n: nat): (r: Option<(seq<Bytes>, Bytes)>)
    ensures r.Some? ==> |r.value.0| == n
    decreases n
  {
    if n == 0 then Some(([], s))
    else
      match SplitAt(s, SPACE)
      case None => None
      case Some((field, rest)) =>
        match ParseFields(rest, n - 1)
        case None => None
        case Some((fields, tail)) => Some(([field] + fields, tail))
  }

  /** Reads a whole encoded message. */
  function Decode(b: Bytes): Option<Decoded> {
    match ParsePri(b)
    case None => None
    case Some((pri, afterPri)) =>
      if |afterPri| < 2 || afterPri[0] != DIGIT_ONE || afterPri[1] != SPACE then None
      else
        match ParseFields(afterPri[2..], 5)
        case None => None
        case Some((fields, afterFields)) =>
          match ParseStructuredData(afterFields)
          case None => None
          case Some((structuredData, afterData)) =>
            match ParseBody(afterData)
            case None => None
            case Some(message) =>
              Some(Decoded(pri, fields[0], fields[1], fields[2], fields[3], fields[4], structuredData, message))
  }

  // Reading back what was written

  lemma {:induction false} ParseFieldsOfTerminated(fields: seq<Bytes>, rest: Bytes)
    requires forall i :: 0 <= i < |fields| ==> SPACE !in fields[i]
    ensures ParseFields(Terminated(fields) + rest, |fields|) == Some((fields, rest))
  {
    if fields != [] {
      var tail := Terminated(fields[1..]) + rest;
      assert Terminated(fields) + rest == fields[0] + [SPACE] + tail;
      SplitAtConcat(fields[0], SPACE, tail);
      ParseFieldsOfTerminated(fields[1..], rest);
      assert [fields[0]] + fields[1..] == fields;
    } else {
      assert Terminated(fields) + rest == rest;
    }
  }

  lemma ParsePriOfDecimal(n: nat, rest: Bytes)
    ensures ParsePri([LESS] + Decimal(n) + [GREATER] + rest) == Some((n, rest))
  {
    var digits := Decimal(n);
    assert ([LESS] + digits + [GREATER] + rest)[1..] == digits + [GREATER] + rest;
    assert GREATER !in digits by {
      forall k | 0 <= k < |digits| ensures digits[k] != GREATER {
        assert IsDigit(digits[k]);
      }
    }
    SplitAtConcat(digits, GREATER, rest);
    ParseDecimalOfDecimal(n);
  }

  /** What the structured-data reader needs of the names: an SD-ID ends at
      the first space or `]`, a PARAM-NAME at the first `=`. */
  predicate Readable(e: SdElement) {
    && (forall k :: 0 <= k < |e.id| ==> !IdStop(e.id[k]))
    && forall p :: p in e.parameters ==> EQUALS !in p.name
  }

  lemma ElementOkReadable(e: SdElement)
    requires ElementOk(e)
    ensures Readable(e)
  {
    forall p | p in e.parameters
      ensures EQUALS !in p.name
    {
      assert ParamOk(p);
      forall k | 0 <= k < |p.name| ensures p.name[k] != EQUALS {
        assert SdNameByte(p.name[k]);
      }
    }
    forall k | 0 <= k < |e.id| ensures !IdStop(e.id[k]) {
      assert SdNameByte(e.id[k]);
    }
  }

  /** One rendered parameter is read back, and reading continues after it. */
  lemma ParseParamsStep(p: SdParam, tail: Bytes)
    requires EQUALS !in p.name
    ensures ParseParams(RenderParam(p) + tail) ==
      match ParseParams(tail)
      case None => None
      case Some((params, rest)) => Some(([p] + params, rest))
  {
    var afterName := [QUOTE] + (Escaped(p.value) + [QUOTE] + tail);
    var s := RenderParam(p) + tail;
    assert s == [SPACE] + (p.name + [EQUALS] + afterName);
    assert s[1..] == p.name + [EQUALS] + afterName;
    SplitAtConcat(p.name, EQUALS, afterName);
    assert afterName[1..] == Escaped(p.value) + [QUOTE] + tail;
    UnescapeEscaped(p.value, tail);
  }

  lemma {:induction false} ParseParamsOfRendered(params: seq<SdParam>, rest: Bytes)
    requires forall p :: p in params ==> EQUALS !in p.name
    requires rest == [] || rest[0] != SPACE
    ensures ParseParams(ConcatMap(RenderParam, params) + rest) == Some((params, rest))
  {
    if params != [] {
      var tail := ConcatMap(RenderParam, params[1..]) + rest;
      ConcatMapCons(RenderParam, params, rest);
      ParseParamsOfRendered(params[1..], rest);
      ParseParamsStep(params[0], tail);
      assert ParseParams(RenderParam(params[0]) + tail) == Some(([params[0]] + params[1..], rest));
      assert [params[0]] + params[1..] == params;
    } else {
      assert ConcatMap(RenderParam, params) + rest == rest;
    }
  }

  lemma ParseElementOfRendered(e: SdElement, rest: Bytes)
    requires Readable(e)
    ensures ParseElement(RenderElement(e) + rest) == Some((e, rest))
  {
    var params := ConcatMap(RenderParam, e.parameters);
    var s := RenderElement(e) + rest;
    var afterId := params + ([RIGHT_BRACKET] + rest);
    assert s[1..] == e.id + afterId;
    assert params == [] || params[0] == SPACE by {
      if e.parameters != [] {
        assert params == RenderParam(e.parameters[0]) + ConcatMap(RenderParam, e.parameters[1..]);
      }
    }
    TakeIdConcat(e.id, afterId);
    ParseParamsOfRendered(e.parameters, [RIGHT_BRACKET] + rest);
  }

  lemma {:induction false} ParseElementsOfRendered(elements: seq<SdElement>, rest: Bytes)
    requires forall e :: e in elements ==> Readable(e)
    requires rest == [] || rest[0] != LEFT_BRACKET
    ensures ParseElements(ConcatMap(RenderElement, elements) + rest) == Some((elements, rest))
  {
    if elements != [] {
      var tail := ConcatMap(RenderElement, elements[1..]) + rest;
      var s := RenderElement(elements[0]) + tail;
      ConcatMapCons(RenderElement, elements, rest);
      assert s[0] == LEFT_BRACKET;
      ParseElementOfRendered(elements[0], tail);
      ParseElementsOfRendered(elements[1..], rest);
      assert [elements[0]] + elements[1..] == elements;
    } else {
      assert ConcatMap(RenderElement, elements) + rest == rest;
    }
  }

  lemma ParseStructuredDataOfRendered(elements: seq<SdElement>, body: Bytes)
    requires forall e :: e in elements ==> Readable(e)
    requires body == [] || body[0] == SPACE
    ensures ParseStructuredData(RenderStructuredData(elements) + body) == Some((elements, body))
  {
    if elements != [] {
      var s := ConcatMap(RenderElement, elements);
      assert s == RenderElement(elements[0]) + ConcatMap(RenderElement, elements[1..]);
      ParseElementsOfRendered(elements, body);
    }
  }

  /** The header fields of a valid message hold no space. */
  lemma PrintableHasNoSpace(s: Bytes)
    requires PrintableUsAscii(s)
    ensures SPACE !in Nilify(s)
  {
    forall k | 0 <= k < |s|
      ensures s[k] != SPACE
    {
      assert PrintableByte(s[k]);
    }
  }

  /** Bytes laid out as the encoder lays them out read back as their parts,
      one reader at a time. */
  lemma DecodeOfParts(pri: nat, fields: seq<Bytes>, elements: seq<SdElement>, message: Bytes)
    requires |fields| == 5 && forall i :: 0 <= i < |fields| ==> SPACE !in fields[i]
    requires forall e :: e in elements ==> Readable(e)
    ensures Decode([LESS] + Decimal(pri) + [GREATER] + ([DIGIT_ONE, SPACE] + (Terminated(fields) + (RenderStructuredData(elements) + RenderBody(message)))))
      == Some(Decoded(pri, fields[0], fields[1], fields[2], fields[3], fields[4], elements, message))
  {
    var body := RenderBody(message);
    var afterFields := RenderStructuredData(elements) + body;
    var afterPri := [DIGIT_ONE, SPACE] + (Terminated(fields) + afterFields);
    ParsePriOfDecimal(pri, afterPri);
    assert afterPri[2..] == Terminated(fields) + afterFields;
    ParseFieldsOfTerminated(fields, afterFields);
    ParseStructuredDataOfRendered(elements, body);
    assert ParseBody(body) == Some(message);
  }

  /** The encoding of a valid message whose timestamp holds no space reads
      back as its PRI, its nilified header fields, its structured data and
      its body. */
  lemma DecodeMarshal(m: Message)
    requires Valid(m) && SPACE !in m.timestamp
    ensures Marshal(m).Success?
    ensures Decode(Marshal(m).value) == Some(Decoded(
      Pri(m.severity, m.facility), m.timestamp,
      Nilify(m.hostname), Nilify(m.appName), Nilify(m.processId), Nilify(m.messageId),
      m.structuredData, m.message))
  {
    MarshalLayout(m);
    ValidIsReadable(m);
    DecodeOfParts(Pri(m.severity, m.facility), HeaderFieldList(m), m.structuredData, m.message);
  }

  /** The encoding of a valid message, grouped as the reader takes it apart. */
  lemma MarshalLayout(m: Message)
    requires Valid(m)
    ensures m.severity >= 0 && m.facility >= 0
    ensures Marshal(m) == Success([LESS] + Decimal(Pri(m.severity, m.facility)) + [GREATER] +
      ([DIGIT_ONE, SPACE] + (Terminated(HeaderFieldList(m)) + (RenderStructuredData(m.structuredData) + RenderBody(m.message)))))
  {
    CheckNoneIffValid(m);
    MarshalOfValid(m);
    HeaderLayout(m, RenderStructuredData(m.structuredData), RenderBody(m.message));
  }

  /** The header followed by any bytes, regrouped field by field. */
  lemma HeaderLayout(m: Message, data: Bytes, body: Bytes)
    requires m.severity >= 0 && m.facility >= 0
    ensures Header(m) + data + body == [LESS] + Decimal(Pri(m.severity, m.facility)) + [GREATER] +
      ([DIGIT_ONE, SPACE] + (Terminated(HeaderFieldList(m)) + (data + body)))
  {
    var pri := [LESS] + Decimal(Pri(m.severity, m.facility)) + [GREATER];
    assert Header(m) == pri + [DIGIT_ONE, SPACE] + Terminated(HeaderFieldList(m));
  }

  /** The header fields of a valid message with such a timestamp hold no
      space, and its elements can be read back. */
  lemma ValidIsReadable(m: Message)
    requires Valid(m) && SPACE !in m.timestamp
    ensures forall i :: 0 <= i < |HeaderFieldList(m)| ==> SPACE !in HeaderFieldList(m)[i]
    ensures forall e :: e in m.structuredData ==> Readable(e)
  {
    HeaderOkUnfolded(m);
    PrintableHasNoSpace(m.hostname);
    PrintableHasNoSpace(m.appName);
    PrintableHasNoSpace(m.processId);
    PrintableHasNoSpace(m.messageId);
    forall e | e in m.structuredData
      ensures Readable(e)
    {
      ElementOkReadable(e);
    }
  }

  /** For the RFC's severities 0..7, the decoded PRI gives back the severity
      and the facility. */
  lemma DecodeMarshalPri(m: Message)
    requires Valid(m) && SPACE !in m.timestamp && m.severity < 8
    ensures Marshal(m).Success? && Decode(Marshal(m).value).Some?
    ensures var d := Decode(Marshal(m).value).value;
      d.pri % 8 == m.severity && d.pri / 8 == m.facility
  {
    DecodeMarshal(m);
    HeaderOkUnfolded(m);
    PriDecomposes(m.severity, m.facility);
  }
}
