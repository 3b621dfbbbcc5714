/** `reflectImpl`: how a record type is read as a log message. Fields named
    after a header part take that role (the last such field wins), their
    `log` tags set defaults, and every other field that is exported or
    tagged becomes a structured-data parameter, or the message body when it
    is tagged `,message`. A field named `SDID` is never a parameter: its tag
    sets the SD-ID of the parameters declared after it. A misconfigured tag stops the whole reflection. */
module Reflect {
  import opened Wrappers
  import opened Text
  import opened SdTag

  /** Field names are non-empty identifiers. */
  type FieldName = s: Bytes | |s| > 0 witness [0x41]

  /** A field of a record type: its name, the value of its `log` tag (empty
      when there is none) and whether it is exported. */
  datatype Field = Field(name: FieldName, tag: Bytes, exported: bool)

  /** A record type: its package, its name and its fields; two record types
      are the same type when all three are equal. */
  datatype RecordType = RecordType(pkg: Bytes, name: Bytes, fields: seq<Field>)

  /** How one field becomes an SD-PARAM: the field's position, whether an
      empty value is left out, the PARAM-NAME and the SD-ID. */
  datatype SdFieldReflection = SdFieldReflection(fieldIndex: nat, omitEmpty: bool, fieldName: Bytes, sdId: Bytes)

  /** The `reflection` record; an index of -1 means no field has the role. */
  datatype Reflection = Reflection(
    recordType: RecordType,
    severityFieldIndex: int,
    severityDefault: int,
    facilityFieldIndex: int,
    facilityDefault: int,
    timestampFieldIndex: int,
    hostnameFieldIndex: int,
    appNameFieldIndex: int,
    appNameDefault: Bytes,
    processIdFieldIndex: int,
    messageIdFieldIndex: int,
    messageIdDefault: Bytes,
    messageFieldIndex: int,
    sdIdDefault: Bytes,
    sdFields: seq<SdFieldReflection>)

  /** The panics of `reflectImpl`; an unknown attribute names the attribute,
      the field and the type. */
  datatype ConfigError =
    | InvalidSeverityTag
    | InvalidFacilityTag
    | UnknownTagAttribute(attribute: Bytes, fieldName: Bytes, typeName: Bytes)

  /** What the reflection takes from the rest of the program: the tables of
      Severity and Facility names and the default APP-NAME (the base name of
      the running program). */
  datatype Env = Env(severityNames: map<Bytes, int>, facilityNames: map<Bytes, int>, defaultAppName: Bytes)

  /** Severity Info and Facility Local0 (RFC 5424 codes 6 and 16). */
  const INFO: int := 6
  const LOCAL0: int := 16
  const DEFAULT_SD_ID: Bytes := [0x30, 0x40, 0x6C, 0x6F, 0x63, 0x61, 0x6C] // "0@local"

  const NAME_SEVERITY: Bytes := [0x53, 0x65, 0x76, 0x65, 0x72, 0x69, 0x74, 0x79] // "Severity"
  const NAME_FACILITY: Bytes := [0x46, 0x61, 0x63, 0x69, 0x6C, 0x69, 0x74, 0x79] // "Facility"
  const NAME_TIMESTAMP: Bytes := [0x54, 0x69, 0x6D, 0x65, 0x73, 0x74, 0x61, 0x6D, 0x70] // "Timestamp"
  const NAME_HOSTNAME: Bytes := [0x48, 0x6F, 0x73, 0x74, 0x6E, 0x61, 0x6D, 0x65] // "Hostname"
  const NAME_APP_NAME: Bytes := [0x41, 0x70, 0x70, 0x4E, 0x61, 0x6D, 0x65] // "AppName"
  const NAME_PROCESS_ID: Bytes := [0x50, 0x72, 0x6F, 0x63, 0x65, 0x73, 0x73, 0x49, 0x44] // "ProcessID"
  const NAME_MESSAGE_ID: Bytes := [0x4D, 0x65, 0x73, 0x73, 0x61, 0x67, 0x65, 0x49, 0x44] // "MessageID"
  const NAME_SDID: Bytes := [0x53, 0x44, 0x49, 0x44] // "SDID"
  const NAME_MESSAGE: Bytes := [0x4D, 0x65, 0x73, 0x73, 0x61, 0x67, 0x65] // "Message"

  const ATTR_OMITEMPTY: Bytes := [0x6F, 0x6D, 0x69, 0x74, 0x65, 0x6D, 0x70, 0x74, 0x79] // "omitempty"
  const ATTR_MESSAGE: Bytes := [0x6D, 0x65, 0x73, 0x73, 0x61, 0x67, 0x65] // "message"

  /** The cases of the switch on the field name. */
  datatype Role = Severity | Facility | Timestamp | Hostname | AppName | ProcessId | MessageId | SdId | Body | Other

  /** The role a field name selects. */
  function RoleOf(name: Bytes): Role {
    if name == NAME_SEVERITY then Severity
    else if name == NAME_FACILITY then Facility
    else if name == NAME_TIMESTAMP then Timestamp
    else if name == NAME_HOSTNAME then Hostname
    else if name == NAME_APP_NAME then AppName
    else if name == NAME_PROCESS_ID then ProcessId
    else if name == NAME_MESSAGE_ID then MessageId
    else if name == NAME_SDID then SdId
    else if name == NAME_MESSAGE then Body
    else Other
  }

  /** A tag `,message...`: the field holds the body. */
  predicate IsMessageMarker(parts: seq<Bytes>) {
    |parts| > 1 && parts[0] == [] && parts[1] == ATTR_MESSAGE
  }

  /** An unexported field without a tag is ignored. */
  predicate Ignored(f: Field) {
    f.tag == [] && !f.exported
  }

  /** `strings.ToLower` of a string of one byte: ASCII letters are lowered,
      other ASCII bytes kept, and a byte that is not valid UTF-8 on its own
      becomes the encoding of U+FFFD. */
  function LowerByte(b: Byte): (r: Bytes)
    ensures |r| > 0
  {
    if 0x41 <= b <= 0x5A then [b + 0x20]
    else if b < 0x80 then [b]
    else [0xEF, 0xBF, 0xBD]
  }

  /** The field name with its first byte lowered. */
  function LowerFirst(name: FieldName): Bytes {
    LowerByte(name[0]) + name[1..]
  }

  /** The reflection before any field is looked at. */
  function Initial(env: Env, t: RecordType): Reflection {
    Reflection(t, -1, INFO, -1, LOCAL0, -1, -1, -1, env.defaultAppName, -1, -1, t.name, -1, [], [])
  }

  /** The parameter descriptor of field `i`: the tag's first piece names the
      parameter, unless it matches the SD tag syntax and so gives the SD-ID
      and the name; the SD-ID otherwise comes from the SDID tag seen so far
      or is `0@local`; an empty name falls back to the field name. */
  function Describe(t: RecordType, i: nat, sdIdDefault: Bytes): SdFieldReflection
    requires i < |t.fields|
  {
    var field := t.fields[i];
    var parts := SplitComma(field.tag);
    var fallback := if sdIdDefault != [] then sdIdDefault else DEFAULT_SD_ID;
    var groups := match MatchSdTag(parts[0]) case Some(g) => g case None => (fallback, parts[0]);
    SdFieldReflection(i, |parts| > 1, if groups.1 == [] then LowerFirst(field.name) else groups.1, groups.0)
  }

  /** The `default` case of the switch on the field name. */
  function OtherField(t: RecordType, r: Reflection, i: nat): Result<Reflection, ConfigError>
    requires i < |t.fields|
  {
    var field := t.fields[i];
    if Ignored(field) then Success(r)
    else
      var parts := SplitComma(field.tag);
      if IsMessageMarker(parts) then Success(r.(messageFieldIndex := i))
      else if |parts| > 1 && parts[1] != ATTR_OMITEMPTY then
        Failure(UnknownTagAttribute(parts[1], field.name, t.name))
      else Success(r.(sdFields := r.sdFields + [Describe(t, i, r.sdIdDefault)]))
  }

  /** One iteration of the field loop of `reflectImpl`. */
  function Step(env: Env, t: RecordType, r: Reflection, i: nat): Result<Reflection, ConfigError>
    requires i < |t.fields|
  {
    var field := t.fields[i];
    var tag := field.tag;
    match RoleOf(field.name)
    case Severity =>
      var next := r.(severityFieldIndex := i);
      if tag == [] then Success(next)
      else if tag in env.severityNames then Success(next.(severityDefault := env.severityNames[tag]))
      else Failure(InvalidSeverityTag)
    case Facility =>
      var next := r.(facilityFieldIndex := i);
      if tag == [] then Success(next)
      else if tag in env.facilityNames then Success(next.(facilityDefault := env.facilityNames[tag]))
      else Failure(InvalidFacilityTag)
    case Timestamp => Success(r.(timestampFieldIndex := i))
    case Hostname => Success(r.(hostnameFieldIndex := i))
    case AppName =>
      Success(r.(appNameFieldIndex := i, appNameDefault := if tag != [] then tag else r.appNameDefault))
    case ProcessId => Success(r.(processIdFieldIndex := i))
    case MessageId =>
      Success(r.(messageIdFieldIndex := i, messageIdDefault := if tag != [] then tag else r.messageIdDefault))
    case SdId => Success(if tag != [] then r.(sdIdDefault := tag) else r)
    case Body => Success(r.(messageFieldIndex := i))
    case Other => OtherField(t, r, i)
  }

  /** The reflection after the first `n` fields, or the first panic. */
  function ReflectUpTo(env: Env, t: RecordType, n: nat): Result<Reflection, ConfigError>
    requires n <= |t.fields|
  {
    if n == 0 then Success(Initial(env, t))
    else
      match ReflectUpTo(env, t, n - 1)
      case Failure(e) => Failure(e)
      case Success(r) => Step(env, t, r, n - 1)
  }

  /** The reflection of a whole record type. */
  function ReflectSpec(env: Env, t: RecordType): Result<Reflection, ConfigError> {
    ReflectUpTo(env, t, |t.fields|)
  }

  /** `&r`: the reflection as a shared object. */
  class ReflectionRef {
    const value: Reflection

    constructor (value: Reflection)
      ensures this.value == value
    {
      this.value := value;
    }

    /** `GetStructuredDataFieldReflection`: the first descriptor with both
        the SD-ID and the PARAM-NAME asked for, or none. */
    method GetStructuredDataFieldReflection(sdId: Bytes, fieldName: Bytes) returns (found: Option<SdFieldReflection>)
      ensures found.None? <==> forall k :: 0 <= k < |value.sdFields| ==> !Names(value.sdFields[k], sdId, fieldName)
      ensures found.Some? ==> exists k :: 0 <= k < |value.sdFields| && value.sdFields[k] == found.value &&
                                          Names(found.value, sdId, fieldName) &&
                                          forall j :: 0 <= j < k ==> !Names(value.sdFields[j], sdId, fieldName)
    {
      var fields := value.sdFields;
      for k := 0 to |fields|
        invariant forall j :: 0 <= j < k ==> !Names(fields[j], sdId, fieldName)
      {
        var fieldReflection := fields[k];
        if fieldReflection.sdId == sdId && fieldReflection.fieldName == fieldName {
          return Some(fieldReflection);
        }
      }
      return None;
    }
  }

  /** Whether a descriptor has the SD-ID and PARAM-NAME given. */
  predicate Names(d: SdFieldReflection, sdId: Bytes, fieldName: Bytes) {
    d.sdId == sdId && d.fieldName == fieldName
  }

  /** The `default` case of the field loop of `reflectImpl`. */
  method ReflectOtherField(t: RecordType, r: Reflection, fieldIndex: nat) returns (res: Result<Reflection, ConfigError>)
    requires fieldIndex < |t.fields|
    ensures res == OtherField(t, r, fieldIndex)
    ensures res.Success? ==> res.value.recordType == r.recordType
  {
    var field := t.fields[fieldIndex];
    var fieldTag := field.tag;
    // An unexported field without a tag is skipped.
    if fieldTag == [] && !field.exported {
      return Success(r);
    }
    var tagParts := SplitComma(fieldTag);
    if |tagParts| > 1 && tagParts[0] == [] && tagParts[1] == ATTR_MESSAGE {
      return Success(r.(messageFieldIndex := fieldIndex));
    }
    var fieldName := tagParts[0];
    var sdId := if r.sdIdDefault != [] then r.sdIdDefault else DEFAULT_SD_ID;
    var matches := MatchSdTag(fieldName);
    if matches.Some? {
      sdId := matches.value.0;
      fieldName := matches.value.1;
    }
    if fieldName == [] {
      fieldName := LowerFirst(field.name);
    }
    var omitEmpty := false;
    if |tagParts| > 1 {
      // Every attribute is checked by looking at the first one.
      for k := 1 to |tagParts|
        invariant omitEmpty == (k > 1)
        invariant k > 1 ==> tagParts[1] == ATTR_OMITEMPTY
      {
        if tagParts[1] == ATTR_OMITEMPTY {
          omitEmpty := true;
        } else {
          return Failure(UnknownTagAttribute(tagParts[k], field.name, t.name));
        }
      }
    }
    var fieldReflection := SdFieldReflection(fieldIndex, omitEmpty, fieldName, sdId);
    assert fieldReflection == Describe(t, fieldIndex, r.sdIdDefault);
    return Success(r.(sdFields := r.sdFields + [fieldReflection]));
  }

  /** One iteration of the field loop of `reflectImpl`: the switch on the
      field name. */
  method ReflectField(env: Env, t: RecordType, r: Reflection, fieldIndex: nat) returns (res: Result<Reflection, ConfigError>)
    requires fieldIndex < |t.fields|
    ensures res == Step(env, t, r, fieldIndex)
    ensures res.Success? ==> res.value.recordType == r.recordType
  {
    var field := t.fields[fieldIndex];
    var fieldTag := field.tag;
    var next := r;
    match RoleOf(field.name) {
    case Severity =>
      next := next.(severityFieldIndex := fieldIndex);
      if fieldTag != [] {
        if fieldTag !in env.severityNames {
          return Failure(InvalidSeverityTag);
        }
        next := next.(severityDefault := env.severityNames[fieldTag]);
      }
    case Facility =>
      next := next.(facilityFieldIndex := fieldIndex);
      if fieldTag != [] {
        if fieldTag !in env.facilityNames {
          return Failure(InvalidFacilityTag);
        }
        next := next.(facilityDefault := env.facilityNames[fieldTag]);
      }
    case Timestamp =>
      next := next.(timestampFieldIndex := fieldIndex);
    case Hostname =>
      next := next.(hostnameFieldIndex := fieldIndex);
    case AppName =>
      next := next.(appNameFieldIndex := fieldIndex);
      if fieldTag != [] {
        next := next.(appNameDefault := fieldTag);
      }
    case ProcessId =>
      next := next.(processIdFieldIndex := fieldIndex);
    case MessageId =>
      next := next.(messageIdFieldIndex := fieldIndex);
      if fieldTag != [] {
        next := next.(messageIdDefault := fieldTag);
      }
    case SdId =>
      if fieldTag != [] {
        next := next.(sdIdDefault := fieldTag);
      }
    case Body =>
      next := next.(messageFieldIndex := fieldIndex);
    case Other =>
      res := ReflectOtherField(t, r, fieldIndex);
      return;
    }
    return Success(next);
  }

  /** `reflectImpl`: the initial reflection, then each field in declaration
      order; a panic stops the loop. */
  method ReflectImpl(env: Env, t: RecordType) returns (res: Result<ReflectionRef, ConfigError>)
    ensures ReflectSpec(env, t).Failure? ==> res == Failure(ReflectSpec(env, t).error)
    ensures ReflectSpec(env, t).Success? ==> res.Success? && fresh(res.value) && res.value.value == ReflectSpec(env, t).value
    ensures res.Success? ==> res.value.value.recordType == t
  {
    var r := Initial(env, t);
    for fieldIndex := 0 to |t.fields|
      invariant ReflectUpTo(env, t, fieldIndex) == Success(r)
      invariant r.recordType == t
    {
      var step := ReflectField(env, t, r, fieldIndex);
      if step.Failure? {
        FailureIsFinal(env, t, fieldIndex + 1);
        return Failure(step.error);
      }
      r := step.value;
    }
    var reflection := new ReflectionRef(r);
    return Success(reflection);
  }

  /** Once a field has panicked, later fields change nothing. */
  lemma {:induction false} FailureIsFinal(env: Env, t: RecordType, n: nat)
    requires n <= |t.fields| && ReflectUpTo(env, t, n).Failure?
    ensures ReflectSpec(env, t) == ReflectUpTo(env, t, n)
    decreases |t.fields| - n
  {
    if n < |t.fields| {
      FailureIsFinal(env, t, n + 1);
    }
  }

  // Independent descriptions of the result

  /** The index of the last of the first `n` fields whose name selects
      `role`, or -1. */
  function LastWithRole(fields: seq<Field>, n: nat, role: Role): (i: int)
    requires n <= |fields|
    ensures -1 <= i < n
  {
    if n == 0 then -1
    else if RoleOf(fields[n - 1].name) == role then n - 1
    else LastWithRole(fields, n - 1, role)
  }

  /** Whether the field holds the body: it is named `Message`, or it is an
      ordinary field tagged `,message`. */
  predicate IsMessageField(f: Field) {
    RoleOf(f.name) == Body || (RoleOf(f.name) == Other && !Ignored(f) && IsMessageMarker(SplitComma(f.tag)))
  }

  /** The index of the last of the first `n` fields that holds the body, or -1. */
  function LastMessageField(fields: seq<Field>, n: nat): (i: int)
    requires n <= |fields|
    ensures -1 <= i < n
  {
    if n == 0 then -1
    else if IsMessageField(fields[n - 1]) then n - 1
    else LastMessageField(fields, n - 1)
  }

  /** The tag of the last of the first `n` fields that has a tag and whose
      name selects `role`, or empty when there is none. */
  function LastTag(fields: seq<Field>, n: nat, role: Role): (tag: Bytes)
    requires n <= |fields|
  {
    if n == 0 then []
    else if RoleOf(fields[n - 1].name) == role && fields[n - 1].tag != [] then fields[n - 1].tag
    else LastTag(fields, n - 1, role)
  }

  /** `LastWithRole` is the last matching field below `n`. */
  lemma {:induction false} LastWithRoleIs(fields: seq<Field>, n: nat, role: Role)
    requires n <= |fields|
    ensures var i := LastWithRole(fields, n, role);
      && (i >= 0 ==> RoleOf(fields[i].name) == role)
      && forall j :: i < j < n ==> RoleOf(fields[j].name) != role
  {
    if n > 0 && RoleOf(fields[n - 1].name) != role {
      LastWithRoleIs(fields, n - 1, role);
    }
  }

  /** `LastMessageField` is the last body field below `n`. */
  lemma {:induction false} LastMessageFieldIs(fields: seq<Field>, n: nat)
    requires n <= |fields|
    ensures var i := LastMessageField(fields, n);
      && (i >= 0 ==> IsMessageField(fields[i]))
      && forall j :: i < j < n ==> !IsMessageField(fields[j])
  {
    if n > 0 && !IsMessageField(fields[n - 1]) {
      LastMessageFieldIs(fields, n - 1);
    }
  }

  /** `LastTag` is the tag of the last tagged field with the role below `n`. */
  lemma {:induction false} LastTagIs(fields: seq<Field>, n: nat, role: Role)
    requires n <= |fields|
    ensures var tag := LastTag(fields, n, role);
      && (tag == [] ==> forall j :: 0 <= j < n && RoleOf(fields[j].name) == role ==> fields[j].tag == [])
      && (tag != [] ==> exists j :: 0 <= j < n && RoleOf(fields[j].name) == role && fields[j].tag == tag &&
                                    forall k :: j < k < n && RoleOf(fields[k].name) == role ==> fields[k].tag == [])
  {
    if n > 0 && !(RoleOf(fields[n - 1].name) == role && fields[n - 1].tag != []) {
      LastTagIs(fields, n - 1, role);
    }
  }

  /** Whether the field becomes an SD-PARAM. */
  predicate IsSdField(f: Field) {
    RoleOf(f.name) == Other && !Ignored(f) && !IsMessageMarker(SplitComma(f.tag))
  }

  /** The positions among the first `n` elements of `xs` of those that
      satisfy `p`, in order. */
  function Positions<T>(p: T -> bool, xs: seq<T>, n: nat): (idx: seq<nat>)
    requires n <= |xs|
    ensures forall k :: 0 <= k < |idx| ==> idx[k] < n
  {
    if n == 0 then []
    else
      var front := Positions(p, xs, n - 1);
      if p(xs[n - 1]) then front + [n - 1] else front
  }

  /** Every position holds an element that satisfies `p`, and the
      positions increase. */
  lemma {:induction false} PositionsSatisfy<T>(p: T -> bool, xs: seq<T>, n: nat)
    requires n <= |xs|
    ensures forall k :: 0 <= k < |Positions(p, xs, n)| ==> p(xs[Positions(p, xs, n)[k]])
    ensures forall k, l :: 0 <= k < l < |Positions(p, xs, n)| ==> Positions(p, xs, n)[k] < Positions(p, xs, n)[l]
  {
    if n > 0 {
      PositionsSatisfy(p, xs, n - 1);
      var front := Positions(p, xs, n - 1);
      var idx := Positions(p, xs, n);
      assert forall k :: 0 <= k < |front| ==> idx[k] == front[k];
      assert |idx| > |front| ==> idx[|front|] == n - 1 && p(xs[n - 1]);
      forall k, l | 0 <= k < l < |idx|
        ensures idx[k] < idx[l]
      {
        if l < |front| {
          assert front[k] < front[l];
        }
      }
    }
  }

  /** Every element below `n` that satisfies `p` has its position listed. */
  lemma {:induction false} PositionsCover<T>(p: T -> bool, xs: seq<T>, n: nat, i: nat)
    requires i < n <= |xs| && p(xs[i])
    ensures exists k :: 0 <= k < |Positions(p, xs, n)| && Positions(p, xs, n)[k] == i
  {
    var front := Positions(p, xs, n - 1);
    if i == n - 1 {
      assert Positions(p, xs, n)[|front|] == i;
    } else {
      PositionsCover(p, xs, n - 1, i);
      var k :| 0 <= k < |front| && front[k] == i;
      assert Positions(p, xs, n)[k] == i;
    }
  }

  /** The positions among the first `n` fields of those that become
      SD-PARAMs, in order. */
  function SdFieldIndices(fields: seq<Field>, n: nat): (idx: seq<nat>)
    requires n <= |fields|
    ensures forall k :: 0 <= k < |idx| ==> idx[k] < n
  {
    Positions(IsSdField, fields, n)
  }

  /** Why field `i` stops the reflection, if it does; this depends on the
      field alone. */
  function FieldError(env: Env, t: RecordType, i: nat): Option<ConfigError>
    requires i < |t.fields|
  {
    var f := t.fields[i];
    var parts := SplitComma(f.tag);
    if RoleOf(f.name) == Severity && f.tag != [] && f.tag !in env.severityNames then Some(InvalidSeverityTag)
    else if RoleOf(f.name) == Facility && f.tag != [] && f.tag !in env.facilityNames then Some(InvalidFacilityTag)
    else if IsSdField(f) && |parts| > 1 && parts[1] != ATTR_OMITEMPTY then
      Some(UnknownTagAttribute(parts[1], f.name, t.name))
    else None
  }

  // What the reflection of the first `n` fields is

  /** A field stops the reflection exactly when `FieldError` says so,
      whatever was reflected before it. */
  lemma StepError(env: Env, t: RecordType, r: Reflection, i: nat)
    requires i < |t.fields|
    ensures Step(env, t, r, i).Failure? <==> FieldError(env, t, i).Some?
    ensures Step(env, t, r, i).Failure? ==> FieldError(env, t, i) == Some(Step(env, t, r, i).error)
  {
  }

  /** The first misconfigured field below `n` and its error. */
  function FirstError(env: Env, t: RecordType, n: nat): Option<(nat, ConfigError)>
    requires n <= |t.fields|
  {
    if n == 0 then None
    else if FirstError(env, t, n - 1).Some? then FirstError(env, t, n - 1)
    else if FieldError(env, t, n - 1).Some? then Some((n - 1, FieldError(env, t, n - 1).value))
    else None
  }

  lemma {:induction false} FirstErrorIs(env: Env, t: RecordType, n: nat)
    requires n <= |t.fields|
    ensures FirstError(env, t, n).None? ==> forall j :: 0 <= j < n ==> FieldError(env, t, j).None?
    ensures FirstError(env, t, n).Some? ==>
      var (i, e) := FirstError(env, t, n).value;
      i < n && FieldError(env, t, i) == Some(e) && forall j :: 0 <= j < i ==> FieldError(env, t, j).None?
  {
    if n > 0 {
      FirstErrorIs(env, t, n - 1);
    }
  }

  /** The step after a successful prefix fails exactly on a misconfigured field. */
  lemma StepOutcome(env: Env, t: RecordType, n: nat)
    requires 0 < n <= |t.fields| && ReflectUpTo(env, t, n - 1).Success?
    ensures ReflectUpTo(env, t, n).Failure? <==> FieldError(env, t, n - 1).Some?
    ensures ReflectUpTo(env, t, n).Failure? ==> FieldError(env, t, n - 1) == Some(ReflectUpTo(env, t, n).error)
  {
    StepError(env, t, ReflectUpTo(env, t, n - 1).value, n - 1);
  }

  lemma {:induction false} ReflectFailsFirst(env: Env, t: RecordType, n: nat)
    requires n <= |t.fields|
    ensures ReflectUpTo(env, t, n).Failure? <==> FirstError(env, t, n).Some?
    ensures ReflectUpTo(env, t, n).Failure? ==> ReflectUpTo(env, t, n).error == FirstError(env, t, n).value.1
  {
    if n > 0 {
      ReflectFailsFirst(env, t, n - 1);
      if ReflectUpTo(env, t, n - 1).Success? {
        StepOutcome(env, t, n);
      }
    }
  }

  /** The reflection fails exactly when one of the fields is misconfigured,
      and then with the error of the first such field. */
  lemma ReflectFails(env: Env, t: RecordType, n: nat)
    requires n <= |t.fields|
    ensures ReflectUpTo(env, t, n).Failure? <==> exists i :: 0 <= i < n && FieldError(env, t, i).Some?
    ensures ReflectUpTo(env, t, n).Failure? ==>
      exists i :: 0 <= i < n && FieldError(env, t, i) == Some(ReflectUpTo(env, t, n).error) &&
                  forall j :: 0 <= j < i ==> FieldError(env, t, j).None?
  {
    ReflectFailsFirst(env, t, n);
    FirstErrorIs(env, t, n);
    if FirstError(env, t, n).Some? {
      var i := FirstError(env, t, n).value.0;
      assert FieldError(env, t, i).Some?;
    }
  }

  /** What one successful step changes in the role indices and defaults. */
  lemma StepRoles(env: Env, t: RecordType, r: Reflection, i: nat)
    requires i < |t.fields| && Step(env, t, r, i).Success?
    ensures var next, role, tag := Step(env, t, r, i).value, RoleOf(t.fields[i].name), t.fields[i].tag;
      && next.recordType == r.recordType
      && next.severityFieldIndex == (if role == Severity then i else r.severityFieldIndex)
      && next.facilityFieldIndex == (if role == Facility then i else r.facilityFieldIndex)
      && next.timestampFieldIndex == (if role == Timestamp then i else r.timestampFieldIndex)
      && next.hostnameFieldIndex == (if role == Hostname then i else r.hostnameFieldIndex)
      && next.appNameFieldIndex == (if role == AppName then i else r.appNameFieldIndex)
      && next.processIdFieldIndex == (if role == ProcessId then i else r.processIdFieldIndex)
      && next.messageIdFieldIndex == (if role == MessageId then i else r.messageIdFieldIndex)
      && next.messageFieldIndex == (if IsMessageField(t.fields[i]) then i else r.messageFieldIndex)
  {
  }

  /** What one successful step changes in the defaults and the descriptors. */
  lemma StepDefaults(env: Env, t: RecordType, r: Reflection, i: nat)
    requires i < |t.fields| && Step(env, t, r, i).Success?
    ensures var next, role, tag := Step(env, t, r, i).value, RoleOf(t.fields[i].name), t.fields[i].tag;
      && (role == Severity && tag != [] ==> tag in env.severityNames && next.severityDefault == env.severityNames[tag])
      && (role != Severity || tag == [] ==> next.severityDefault == r.severityDefault)
      && (role == Facility && tag != [] ==> tag in env.facilityNames && next.facilityDefault == env.facilityNames[tag])
      && (role != Facility || tag == [] ==> next.facilityDefault == r.facilityDefault)
      && next.appNameDefault == (if role == AppName && tag != [] then tag else r.appNameDefault)
      && next.messageIdDefault == (if role == MessageId && tag != [] then tag else r.messageIdDefault)
      && next.sdIdDefault == (if role == SdId && tag != [] then tag else r.sdIdDefault)
      && next.sdFields == r.sdFields + (if IsSdField(t.fields[i]) then [Describe(t, i, r.sdIdDefault)] else [])
  {
  }

  /** Each role is taken by the last field with its name, and the body by
      the last field named `Message` or tagged `,message`. */
  lemma {:induction false} ReflectIndices(env: Env, t: RecordType, n: nat)
    requires n <= |t.fields| && ReflectUpTo(env, t, n).Success?
    ensures var r := ReflectUpTo(env, t, n).value;
      && r.recordType == t
      && r.severityFieldIndex == LastWithRole(t.fields, n, Severity)
      && r.facilityFieldIndex == LastWithRole(t.fields, n, Facility)
      && r.timestampFieldIndex == LastWithRole(t.fields, n, Timestamp)
      && r.hostnameFieldIndex == LastWithRole(t.fields, n, Hostname)
      && r.appNameFieldIndex == LastWithRole(t.fields, n, AppName)
      && r.processIdFieldIndex == LastWithRole(t.fields, n, ProcessId)
      && r.messageIdFieldIndex == LastWithRole(t.fields, n, MessageId)
      && r.messageFieldIndex == LastMessageField(t.fields, n)
  {
    if n > 0 {
      ReflectIndices(env, t, n - 1);
      StepRoles(env, t, ReflectUpTo(env, t, n - 1).value, n - 1);
    }
  }

  /** The defaults come from the last non-empty tag of the field with the
      role, or else from the initial reflection; the SD-ID default is the
      last non-empty tag of an `SDID` field. */
  lemma {:induction false} ReflectDefaults(env: Env, t: RecordType, n: nat)
    requires n <= |t.fields| && ReflectUpTo(env, t, n).Success?
    ensures var r := ReflectUpTo(env, t, n).value;
      var severityTag, facilityTag := LastTag(t.fields, n, Severity), LastTag(t.fields, n, Facility);
      && (severityTag == [] ==> r.severityDefault == INFO)
      && (severityTag != [] ==> severityTag in env.severityNames && r.severityDefault == env.severityNames[severityTag])
      && (facilityTag == [] ==> r.facilityDefault == LOCAL0)
      && (facilityTag != [] ==> facilityTag in env.facilityNames && r.facilityDefault == env.facilityNames[facilityTag])
      && r.appNameDefault == (if LastTag(t.fields, n, AppName) != [] then LastTag(t.fields, n, AppName) else env.defaultAppName)
      && r.messageIdDefault == (if LastTag(t.fields, n, MessageId) != [] then LastTag(t.fields, n, MessageId) else t.name)
      && r.sdIdDefault == LastTag(t.fields, n, SdId)
  {
    if n > 0 {
      ReflectDefaults(env, t, n - 1);
      StepDefaults(env, t, ReflectUpTo(env, t, n - 1).value, n - 1);
    }
  }

  /** The descriptors are those of the SD fields, in declaration order, each
      with the SD-ID default of the `SDID` fields declared before it only. */
  lemma {:induction false} ReflectSdFields(env: Env, t: RecordType, n: nat)
    requires n <= |t.fields| && ReflectUpTo(env, t, n).Success?
    ensures var r := ReflectUpTo(env, t, n).value;
      var idx := SdFieldIndices(t.fields, n);
      && |r.sdFields| == |idx|
      && forall k :: 0 <= k < |idx| ==> r.sdFields[k] == Describe(t, idx[k], LastTag(t.fields, idx[k], SdId))
  {
    if n > 0 {
      ReflectSdFields(env, t, n - 1);
      ReflectDefaults(env, t, n - 1);
      StepDefaults(env, t, ReflectUpTo(env, t, n - 1).value, n - 1);
    }
  }

  // The descriptor of one field

  /** A descriptor always names its field and a non-empty PARAM-NAME, and
      omits empty values exactly when the tag has attributes. A first piece
      that is not in the SD tag syntax (one without `@`, or `user@host`,
      `1@`, `1@a\tb`) is the PARAM-NAME as it is, with the current SD-ID. */
  lemma DescribePlain(t: RecordType, i: nat, sdIdDefault: Bytes)
    requires i < |t.fields|
    ensures var d, tag := Describe(t, i, sdIdDefault), t.fields[i].tag;
      var first := SplitComma(tag)[0];
      && d.fieldIndex == i && d.fieldName != []
      && (d.omitEmpty <==> COMMA in tag)
      && ((forall d: nat, e: nat :: e <= |first| ==> !Shape(first, d, e)) ==>
            && d.sdId == (if sdIdDefault != [] then sdIdDefault else DEFAULT_SD_ID)
            && d.fieldName == (if first == [] then LowerFirst(t.fields[i].name) else first))
  {
    SplitCommaPieces(t.fields[i].tag);
    var first := SplitComma(t.fields[i].tag)[0];
    if MatchSdTag(first).Some? {
      MatchSdTagSound(first);
    }
  }

  /** A first piece in the SD tag syntax `ID[ NAME]` gives the SD-ID `ID`
      whatever SDID field came before, and the PARAM-NAME `NAME` when it is
      not empty. */
  lemma DescribeTagged(t: RecordType, i: nat, sdIdDefault: Bytes, d: nat, e: nat)
    requires i < |t.fields| && Shape(SplitComma(t.fields[i].tag)[0], d, e)
    ensures var r, first := Describe(t, i, sdIdDefault), SplitComma(t.fields[i].tag)[0];
      && r.sdId == first[..e]
      && r.fieldName == (if e + 1 >= |first| then LowerFirst(t.fields[i].name) else first[e + 1..])
  {
    MatchSdTagComplete(SplitComma(t.fields[i].tag)[0], d, e);
  }

  // Two consequences of the loop, on small record types

  lemma OneField(env: Env, t: RecordType)
    requires |t.fields| == 1
    ensures ReflectSpec(env, t) == Step(env, t, Initial(env, t), 0)
  {
    assert ReflectUpTo(env, t, 0) == Success(Initial(env, t));
  }

  /** The tag `first,attribute,rest`. */
  function Tagged(first: Bytes, attribute: Bytes, rest: Bytes): Bytes {
    first + [COMMA] + attribute + [COMMA] + rest
  }

  lemma TaggedParts(first: Bytes, attribute: Bytes, rest: Bytes)
    requires COMMA !in first && COMMA !in attribute
    ensures SplitComma(Tagged(first, attribute, rest)) == [first, attribute] + SplitComma(rest)
  {
    assert Tagged(first, attribute, rest) == first + [COMMA] + (attribute + [COMMA] + rest);
    SplitCommaAt(first, attribute + [COMMA] + rest);
    SplitCommaAt(attribute, rest);
  }

  /** Only the first attribute is checked: an ordinary field tagged
      `x,omitempty,...` is the SD-PARAM `x` with empty values left out,
      whatever the later attributes are. */
  lemma LaterAttributesIgnored(env: Env, t: RecordType, first: Bytes, rest: Bytes)
    requires |t.fields| == 1 && RoleOf(t.fields[0].name) == Other
    requires t.fields[0].tag == Tagged(first, ATTR_OMITEMPTY, rest)
    requires first != [] && COMMA !in first && AT_SIGN !in first
    ensures ReflectSpec(env, t) == Success(Initial(env, t).(sdFields := [SdFieldReflection(0, true, first, DEFAULT_SD_ID)]))
  {
    TaggedParts(first, ATTR_OMITEMPTY, rest);
    OneField(env, t);
    DescribePlain(t, 0, []);
    assert COMMA in t.fields[0].tag by {
      assert t.fields[0].tag[|first|] == COMMA;
    }
    var d := SdFieldReflection(0, true, first, DEFAULT_SD_ID);
    assert Describe(t, 0, []) == d;
    assert Initial(env, t).sdFields + [d] == [d];
  }

  /** ... while a first attribute other than `omitempty` stops the
      reflection naming that attribute, whatever follows it. */
  lemma FirstAttributeDecides(env: Env, t: RecordType, first: Bytes, attribute: Bytes, rest: Bytes)
    requires |t.fields| == 1 && RoleOf(t.fields[0].name) == Other
    requires t.fields[0].tag == Tagged(first, attribute, rest)
    requires first != [] && COMMA !in first && COMMA !in attribute && attribute != ATTR_OMITEMPTY
    ensures ReflectSpec(env, t) == Failure(UnknownTagAttribute(attribute, t.fields[0].name, t.name))
  {
    TaggedParts(first, attribute, rest);
    OneField(env, t);
  }

  /** An `SDID` field sets the SD-ID of the fields declared after it only:
      in `{A; SDID "id"; B}` the parameter for `A` stays in `0@local` and
      the one for `B` goes to `id`. */
  lemma SdIdAppliesToLaterFields(env: Env, t: RecordType, id: Bytes)
    requires |t.fields| == 3 && id != []
    requires RoleOf(t.fields[0].name) == Other && t.fields[0].tag == [] && t.fields[0].exported
    requires t.fields[1].name == NAME_SDID && t.fields[1].tag == id
    requires RoleOf(t.fields[2].name) == Other && t.fields[2].tag == [] && t.fields[2].exported
    ensures ReflectSpec(env, t) == Success(Initial(env, t).(sdIdDefault := id, sdFields := [
      SdFieldReflection(0, false, LowerFirst(t.fields[0].name), DEFAULT_SD_ID),
      SdFieldReflection(2, false, LowerFirst(t.fields[2].name), id)]))
  {
    var r0 := Initial(env, t);
    assert ReflectUpTo(env, t, 0) == Success(r0);
    DescribePlain(t, 0, []);
    var r1 := r0.(sdFields := [Describe(t, 0, [])]);
    assert r0.sdFields + [Describe(t, 0, [])] == r1.sdFields;
    assert ReflectUpTo(env, t, 1) == Success(r1);
    assert RoleOf(t.fields[1].name) == SdId;
    var r2 := r1.(sdIdDefault := id);
    assert ReflectUpTo(env, t, 2) == Success(r2);
    DescribePlain(t, 2, id);
    var d2 := SdFieldReflection(2, false, LowerFirst(t.fields[2].name), id);
    assert Describe(t, 2, id) == d2;
    assert r2.sdFields + [d2] == [Describe(t, 0, []), d2];
    assert ReflectUpTo(env, t, 3) == Success(r2.(sdFields := r2.sdFields + [d2]));
  }
}
