/** The wire-format message and its validation against the header and
    structured-data rules of section 6 of RFC 5424. */
module Validate {
  import opened Wrappers
  import opened Text
  import opened Utf8

  /** When true, names longer than the RFC's 32 bytes are accepted (a
      deliberate deviation from RFC 5424). */
  const AllowLongSdNames: bool := true

  datatype SdParam = SdParam(name: Bytes, value: Bytes)
  datatype SdElement = SdElement(id: Bytes, parameters: seq<SdParam>)

  /** A message as handed to the encoder. The timestamp is already formatted
      (RFC 3339 with nanoseconds); the message body is raw bytes. */
  datatype Message = Message(
    severity: int,
    facility: int,
    timestamp: Bytes,
    hostname: Bytes,
    appName: Bytes,
    processId: Bytes,
    messageId: Bytes,
    structuredData: seq<SdElement>,
    message: Bytes)

  /** The property a validation error names. */
  datatype Property =
    | Severity | Facility | Hostname | AppName | ProcessID | MessageID
    | StructuredDataID | StructuredDataName | StructuredDataValue

  /** The offending value carried by a validation error. */
  datatype Value = IntValue(n: int) | StringValue(s: Bytes)

  datatype InvalidValue = InvalidValue(property: Property, value: Value)

  // Character classes

  predicate PrintableByte(b: Byte) {
    33 <= b <= 126
  }

  /** PRINTUSASCII throughout (the empty string included). */
  predicate PrintableUsAscii(s: Bytes) {
    forall k :: 0 <= k < |s| ==> PrintableByte(s[k])
  }

  predicate SdNameByte(b: Byte) {
    PrintableByte(b) && b != EQUALS && b != RIGHT_BRACKET && b != QUOTE
  }

  /** SD-NAME: printable US-ASCII except `=`, `]` and `"`, at most 32 bytes
      unless long names are allowed. */
  predicate ValidSdName(allowLong: bool, s: Bytes) {
    (allowLong || |s| <= 32) && forall k :: 0 <= k < |s| ==> SdNameByte(s[k])
  }

  /** `isPrintableUsASCII`: scans the runes of `s` and stops at the first one
      outside 33..126. Decoding by rune and checking bytes agree, since a
      byte at or above 0x80 always yields a rune at or above 0x80. */
  method IsPrintableUsAscii(s: Bytes) returns (ok: bool)
    ensures ok == PrintableUsAscii(s)
  {
    var i := 0;
    while i < |s|
      invariant 0 <= i <= |s|
      invariant PrintableUsAscii(s[..i])
    {
      var (ch, width) := DecodeRune(s[i..]);
      DecodeRuneAscii(s[i..]);
      if ch < 33 || ch > 126 {
        assert !PrintableByte(s[i]);
        return false;
      }
      assert s[..i + 1] == s[..i] + [s[i]];
      i := i + width;
    }
    assert s[..i] == s;
    return true;
  }

  /** `isValidSdName`: the length cap first, then a rune scan. */
  method IsValidSdName(allowLong: bool, s: Bytes) returns (ok: bool)
    ensures ok == ValidSdName(allowLong, s)
  {
    if !allowLong && |s| > 32 {
      return false;
    }
    var i := 0;
    while i < |s|
      invariant 0 <= i <= |s|
      invariant forall k :: 0 <= k < i ==> SdNameByte(s[k])
    {
      var (ch, width) := DecodeRune(s[i..]);
      DecodeRuneAscii(s[i..]);
      if ch < 33 || ch > 126 {
        assert !SdNameByte(s[i]);
        return false;
      }
      if ch == EQUALS || ch == RIGHT_BRACKET || ch == QUOTE {
        assert !SdNameByte(s[i]);
        return false;
      }
      i := i + width;
    }
    return true;
  }

  // Validation, as a specification

  /** HOSTNAME, APP-NAME, PROCID and MSGID: NILVALUE (empty) or printable
      US-ASCII up to `maxLength` bytes. */
  predicate HeaderFieldOk(s: Bytes, maxLength: nat) {
    PrintableUsAscii(s) && |s| <= maxLength
  }

  predicate IsHeaderProperty(p: Property) {
    !(p.StructuredDataID? || p.StructuredDataName? || p.StructuredDataValue?)
  }

  /** The position of a header property in the order of the checks. */
  function Rank(p: Property): nat {
    match p
    case Severity => 0
    case Facility => 1
    case Hostname => 2
    case AppName => 3
    case ProcessID => 4
    case MessageID => 5
    case _ => 6
  }

  /** Whether the header property `p` of `m` is valid. */
  predicate HeaderCheck(m: Message, p: Property)
    requires IsHeaderProperty(p)
  {
    match p
    case Severity => 0 <= m.severity <= 8
    case Facility => 0 <= m.facility <= 23
    case Hostname => HeaderFieldOk(m.hostname, 255)
    case AppName => HeaderFieldOk(m.appName, 48)
    case ProcessID => HeaderFieldOk(m.processId, 128)
    case MessageID => HeaderFieldOk(m.messageId, 32)
  }

  /** The value of header property `p` of `m`, as an error reports it. */
  function HeaderValue(m: Message, p: Property): Value
    requires IsHeaderProperty(p)
  {
    match p
    case Severity => IntValue(m.severity)
    case Facility => IntValue(m.facility)
    case Hostname => StringValue(m.hostname)
    case AppName => StringValue(m.appName)
    case ProcessID => StringValue(m.processId)
    case MessageID => StringValue(m.messageId)
  }

  /** The first invalid property of `m` in the order of `assertValid`, or
      None when `m` is valid. */
  function Check(m: Message): Option<InvalidValue> {
    if !(0 <= m.severity <= 8) then Some(InvalidValue(Severity, IntValue(m.severity)))
    else if !(0 <= m.facility <= 23) then Some(InvalidValue(Facility, IntValue(m.facility)))
    else if !HeaderFieldOk(m.hostname, 255) then Some(InvalidValue(Hostname, StringValue(m.hostname)))
    else if !HeaderFieldOk(m.appName, 48) then Some(InvalidValue(AppName, StringValue(m.appName)))
    else if !HeaderFieldOk(m.processId, 128) then Some(InvalidValue(ProcessID, StringValue(m.processId)))
    else if !HeaderFieldOk(m.messageId, 32) then Some(InvalidValue(MessageID, StringValue(m.messageId)))
    else CheckElements(m.structuredData)
  }

  function CheckElements(elements: seq<SdElement>): Option<InvalidValue> {
    if elements == [] then None
    else if !ValidSdName(AllowLongSdNames, elements[0].id) then
      Some(InvalidValue(StructuredDataID, StringValue(elements[0].id)))
    else
      match CheckParams(elements[0].parameters)
      case Some(e) => Some(e)
      case None => CheckElements(elements[1..])
  }

  function CheckParams(params: seq<SdParam>): Option<InvalidValue> {
    if params == [] then None
    else if !ValidSdName(AllowLongSdNames, params[0].name) then
      Some(InvalidValue(StructuredDataName, StringValue(params[0].name)))
    else if !ValidUtf8(params[0].value) then
      Some(InvalidValue(StructuredDataValue, StringValue(params[0].value)))
    else CheckParams(params[1..])
  }

  // Validity, stated declaratively

  predicate ParamOk(p: SdParam) {
    ValidSdName(AllowLongSdNames, p.name) && ValidUtf8(p.value)
  }

  predicate ElementOk(e: SdElement) {
    ValidSdName(AllowLongSdNames, e.id) && forall p :: p in e.parameters ==> ParamOk(p)
  }

  predicate HeaderOk(m: Message) {
    forall p :: IsHeaderProperty(p) ==> HeaderCheck(m, p)
  }

  /** Every field of `m` satisfies its rule. */
  predicate Valid(m: Message) {
    HeaderOk(m) && forall e :: e in m.structuredData ==> ElementOk(e)
  }

  lemma HeaderOkUnfolded(m: Message)
    ensures HeaderOk(m) <==>
      0 <= m.severity <= 8 && 0 <= m.facility <= 23 &&
      HeaderFieldOk(m.hostname, 255) && HeaderFieldOk(m.appName, 48) &&
      HeaderFieldOk(m.processId, 128) && HeaderFieldOk(m.messageId, 32)
  {
    if !HeaderOk(m) {
      var p :| IsHeaderProperty(p) && !HeaderCheck(m, p);
    } else {
      assert HeaderCheck(m, Severity) && HeaderCheck(m, Facility) && HeaderCheck(m, Hostname);
      assert HeaderCheck(m, AppName) && HeaderCheck(m, ProcessID) && HeaderCheck(m, MessageID);
    }
  }

  lemma {:induction false} CheckParamsNoneIff(params: seq<SdParam>)
    ensures CheckParams(params) == None <==> forall p :: p in params ==> ParamOk(p)
  {
    if params != [] {
      CheckParamsNoneIff(params[1..]);
      assert forall p :: p in params <==> p == params[0] || p in params[1..];
      if !ParamOk(params[0]) {
        assert CheckParams(params).Some?;
      } else {
        assert CheckParams(params) == CheckParams(params[1..]);
      }
    }
  }

  lemma {:induction false} CheckElementsNoneIff(elements: seq<SdElement>)
    ensures CheckElements(elements) == None <==> forall e :: e in elements ==> ElementOk(e)
  {
    if elements != [] {
      CheckParamsNoneIff(elements[0].parameters);
      CheckElementsNoneIff(elements[1..]);
      assert forall e :: e in elements <==> e == elements[0] || e in elements[1..];
      if !ElementOk(elements[0]) {
        assert CheckElements(elements).Some?;
      } else {
        assert CheckElements(elements) == CheckElements(elements[1..]);
      }
    }
  }

  /** Validation succeeds exactly for valid messages. */
  lemma CheckNoneIffValid(m: Message)
    ensures Check(m) == None <==> Valid(m)
  {
    HeaderOkUnfolded(m);
    CheckElementsNoneIff(m.structuredData);
  }

  /** The error belongs to the first failing parameter check of `p`. */
  predicate ParamFailure(p: SdParam, e: InvalidValue) {
    || (e == InvalidValue(StructuredDataName, StringValue(p.name)) && !ValidSdName(AllowLongSdNames, p.name))
    || (e == InvalidValue(StructuredDataValue, StringValue(p.value)) && ValidSdName(AllowLongSdNames, p.name) && !ValidUtf8(p.value))
  }

  /** The error belongs to the first failing check of element `el`: its ID,
      or a parameter after only valid parameters. */
  predicate ElementFailure(el: SdElement, e: InvalidValue) {
    || (e == InvalidValue(StructuredDataID, StringValue(el.id)) && !ValidSdName(AllowLongSdNames, el.id))
    || (ValidSdName(AllowLongSdNames, el.id) &&
        exists j :: 0 <= j < |el.parameters| &&
          (forall k :: 0 <= k < j ==> ParamOk(el.parameters[k])) &&
          ParamFailure(el.parameters[j], e))
  }

  lemma {:induction false} CheckParamsFirstFailure(params: seq<SdParam>, e: InvalidValue)
    requires CheckParams(params) == Some(e)
    ensures exists j :: 0 <= j < |params| && (forall k :: 0 <= k < j ==> ParamOk(params[k])) && ParamFailure(params[j], e)
  {
    if !ParamFailure(params[0], e) {
      var tail := params[1..];
      CheckParamsFirstFailure(tail, e);
      var j :| 0 <= j < |tail| && (forall k :: 0 <= k < j ==> ParamOk(tail[k])) && ParamFailure(tail[j], e);
      assert forall k :: 0 < k <= j ==> params[k] == tail[k - 1];
      assert params[j + 1] == tail[j];
    }
  }

  lemma {:induction false} CheckElementsFirstFailure(elements: seq<SdElement>, e: InvalidValue)
    requires CheckElements(elements) == Some(e)
    ensures exists i :: 0 <= i < |elements| && (forall k :: 0 <= k < i ==> ElementOk(elements[k])) && ElementFailure(elements[i], e)
  {
    var el := elements[0];
    if !ValidSdName(AllowLongSdNames, el.id) {
    } else if CheckParams(el.parameters).Some? {
      CheckParamsFirstFailure(el.parameters, e);
    } else {
      CheckParamsNoneIff(el.parameters);
      var tail := elements[1..];
      CheckElementsFirstFailure(tail, e);
      var i :| 0 <= i < |tail| && (forall k :: 0 <= k < i ==> ElementOk(tail[k])) && ElementFailure(tail[i], e);
      assert forall k :: 0 < k <= i ==> elements[k] == tail[k - 1];
      assert elements[i + 1] == tail[i];
    }
  }

  /** Validation reports the first violated check in the fixed order Severity,
      Facility, Hostname, AppName, ProcessID, MessageID, then element by
      element the ID and parameter by parameter the name and the value; the
      error carries the offending value. */
  lemma CheckFirstFailure(m: Message, e: InvalidValue)
    requires Check(m) == Some(e)
    ensures IsHeaderProperty(e.property) ==>
      && !HeaderCheck(m, e.property)
      && e.value == HeaderValue(m, e.property)
      && forall p :: IsHeaderProperty(p) && Rank(p) < Rank(e.property) ==> HeaderCheck(m, p)
    ensures !IsHeaderProperty(e.property) ==>
      && HeaderOk(m)
      && exists i :: 0 <= i < |m.structuredData| &&
           (forall k :: 0 <= k < i ==> ElementOk(m.structuredData[k])) &&
           ElementFailure(m.structuredData[i], e)
  {
    HeaderOkUnfolded(m);
    if HeaderOk(m) {
      CheckElementsFirstFailure(m.structuredData, e);
    }
  }

  // Validation, as the source performs it

  lemma CheckElementsStep(elements: seq<SdElement>, i: nat)
    requires i < |elements|
    requires ValidSdName(AllowLongSdNames, elements[i].id) && CheckParams(elements[i].parameters) == None
    ensures CheckElements(elements[i..]) == CheckElements(elements[i + 1..])
  {
    assert elements[i..][1..] == elements[i + 1..];
  }

  lemma CheckParamsStep(params: seq<SdParam>, j: nat)
    requires j < |params| && ParamOk(params[j])
    ensures CheckParams(params[j..]) == CheckParams(params[j + 1..])
  {
    assert params[j..][1..] == params[j + 1..];
  }

  /** `Message.assertValid`: a sequence of early-return checks, then nested
      loops over the elements and their parameters. */
  method AssertValid(m: Message) returns (err: Option<InvalidValue>)
    ensures err == Check(m)
  {
    if m.severity < 0 || m.severity > 8 {
      return Some(InvalidValue(Severity, IntValue(m.severity)));
    }
    if m.facility < 0 || m.facility > 23 {
      return Some(InvalidValue(Facility, IntValue(m.facility)));
    }

    var ok := IsPrintableUsAscii(m.hostname);
    if !ok {
      return Some(InvalidValue(Hostname, StringValue(m.hostname)));
    }
    if |m.hostname| > 255 {
      return Some(InvalidValue(Hostname, StringValue(m.hostname)));
    }

    ok := IsPrintableUsAscii(m.appName);
    if !ok {
      return Some(InvalidValue(AppName, StringValue(m.appName)));
    }
    if |m.appName| > 48 {
      return Some(InvalidValue(AppName, StringValue(m.appName)));
    }

    ok := IsPrintableUsAscii(m.processId);
    if !ok {
      return Some(InvalidValue(ProcessID, StringValue(m.processId)));
    }
    if |m.processId| > 128 {
      return Some(InvalidValue(ProcessID, StringValue(m.processId)));
    }

    ok := IsPrintableUsAscii(m.messageId);
    if !ok {
      return Some(InvalidValue(MessageID, StringValue(m.messageId)));
    }
    if |m.messageId| > 32 {
      return Some(InvalidValue(MessageID, StringValue(m.messageId)));
    }

    var elements := m.structuredData;
    for i := 0 to |elements|
      invariant CheckElements(elements[i..]) == CheckElements(elements)
    {
      var element := elements[i];
      ok := IsValidSdName(AllowLongSdNames, element.id);
      if !ok {
        return Some(InvalidValue(StructuredDataID, StringValue(element.id)));
      }
      var params := element.parameters;
      for j := 0 to |params|
        invariant CheckParams(params[j..]) == CheckParams(params)
      {
        var param := params[j];
        ok := IsValidSdName(AllowLongSdNames, param.name);
        if !ok {
          return Some(InvalidValue(StructuredDataName, StringValue(param.name)));
        }
        if !ValidUtf8(param.value) {
          return Some(InvalidValue(StructuredDataValue, StringValue(param.value)));
        }
        CheckParamsStep(params, j);
      }
      CheckElementsStep(elements, i);
    }
    return None;
  }
}
