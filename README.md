# RFC 5424 syslog encoder: a verified model

This project models the core of a Go library that writes syslog messages in the format of RFC 5424. The model has two parts.

**The encoder** (`marshal.go`) covers the following:
- the PARAM-VALUE escaping of section 6.3.3 of RFC 5424 (`escapeSDParam`);
- the character-class checks `isPrintableUsASCII` and `isValidSdName`, which scan by rune;
- header and structured-data validation (`Message.assertValid`);
- serialisation (`Message.MarshalBinary`), which writes `<PRI>1 TIMESTAMP HOSTNAME APP-NAME PROCID MSGID STRUCTURED-DATA[ MSG]` and puts the NILVALUE `-` in place of each empty field.

**The type reflector** (`reflect.go`) covers the following:
- `reflectImpl` walks the fields of a record type in declaration order and builds a `reflection` record (`Reflect.Reflection`). That record holds:
  - the index of the field that plays each header role, or -1;
  - the defaults taken from `log` tags;
  - the ordered list of structured-data parameter descriptors (`structuredDataFieldReflection`).
- `Reflect` memoises reflections in `reflectionCache`. That cache maps a type name to a list of reflections.
- `GetStructuredDataFieldReflection` looks up a descriptor.
- The `sdRegexp` tag syntax `^(\d+@\S+)( (.*))?$` is matched by hand.

How the model is organised:
- Strings and byte slices are `seq<Byte>`.
- The imperative code is written as Dafny methods, each proved against a specification function:
  - the first loop of `escapeSDParam` counts the bytes to escape and the second fills a fresh array of the final size;
  - `assertValid` is a chain of early returns with nested loops;
  - `MarshalBinary` appends to a buffer;
  - `reflectImpl` loops over the fields, updating the record `r`;
  - `Reflect` updates a cache object whose map field it reassigns;
  - the descriptor lookup is a linear search with an early return.
- Each specification function is then described independently:
  - a declarative validity predicate, and which check fails first;
  - a decoder, with a round trip back from the encoding;
  - an unescaper, with a round trip back from the escaping;
  - per-role "last field wins" reference functions;
  - the positions of the structured-data fields;
  - the first misconfigured field.

The modules, in dependency order:
- `Wrappers`: `Option` and `Result`.
- `Text`:
  - bytes and byte constants;
  - `%d` formatting;
  - `strings.Split` on `,`.
- `Utf8`: Go's rune decoding and `utf8.ValidString`.
- `Escape`: the escaping, a cheap count of the bytes that need escaping, and the unescaper.
- `Validate`:
  - the message datatype;
  - the checks as functions and as methods;
  - declarative validity.
- `Encode`: PRI, the layout, and the writer methods.
- `Decode`: a reader for the layout, and the round-trip lemma.
- `SdTag`: the tag syntax matcher.
- `Reflect`: the `reflection` record, the field loop, and its properties.
- `ReflectCache`: the cache class.

Two behaviours of the code that the lemmas make explicit:
- `allowLongSdNames` is the constant `true` (marshal.go:10-12, `Validate.AllowLongSdNames`), so SD-IDs and PARAM-NAMEs are not capped at 32 bytes. The code's own comment says this violates RFC 5424, whose SD-NAME is at most 32 characters.
- Validation accepts Severity 8 (marshal.go:89). Its PRI bits then overlap the facility's lowest bit, so with an odd facility it is encoded exactly as Severity 0 (`Encode.SeverityEightOverlapsFacility`).

## Model

| member | source | states |
|---|---|---|
| Encode.Nilify | marshal.go:29-34 | the result is never empty; it is `-` for the empty field and the field itself otherwise |
| Encode.NilifyInvertible | marshal.go:29-34 | a nilified field reads `-` exactly when it was empty or `-`; nilifying twice changes nothing |
| Escape.EscapeSdParam | marshal.go:36-62 | the count-then-fill loops produce the byte-wise escaping (each of `\`, `"`, `]` gets a backslash, other bytes are copied in order), and return the input itself when nothing needs escaping |
| Escape.EscapedLength | marshal.go:37-48 | the escaped value is as long as the input plus the number of special bytes, which is the size the buffer is allocated with |
| Escape.EscapedIdentity | marshal.go:44-46 | escaping leaves a value unchanged exactly when it holds no special byte |
| Escape.UnescapeEscaped | marshal.go:48-61 | reading the escaped value up to the closing quote gives back the original value and leaves what follows the quote |
| Escape.EscapedQuotesAreEscaped | marshal.go:50-59 | in the escaped value every `"` and `]` follows an odd run of backslashes, and the value ends in an even run, so it cannot close the quoted value early |
| Utf8.DecodeRuneAscii | marshal.go:65-66 | a rune decoded from the text is below 0x80 exactly when its first byte is, and then it is that byte with width 1 |
| Validate.IsPrintableUsAscii | marshal.go:64-71 | the rune scan accepts exactly the strings all of whose bytes lie in 33..126, the empty string included |
| Validate.IsValidSdName | marshal.go:73-86 | the rune scan accepts exactly the printable strings without `=`, `]` or `"`, within 32 bytes unless long names are allowed |
| Utf8.InvalidLeadRejected | marshal.go:136-137 | a PARAM-VALUE starting with a continuation byte, an impossible lead byte, or a lead byte whose sequence the end of the value cuts short is not valid UTF-8 |
| Utf8.AsciiIsValidUtf8 | marshal.go:136-137 | a PARAM-VALUE made only of ASCII bytes is valid UTF-8 |
| Validate.AssertValid | marshal.go:88-142 | the early-return checks and the nested element and parameter loops return exactly the first failure that `Check` describes |
| Validate.CheckNoneIffValid | marshal.go:88-142 | validation finds no error exactly when every header field and every SD-ID, PARAM-NAME and PARAM-VALUE satisfies its rule |
| Validate.CheckFirstFailure | marshal.go:88-142 | an error names the first violated check in the order Severity, Facility, Hostname, AppName, ProcessID, MessageID, then per element the ID and per parameter the name and the value; every earlier check passes and the error carries the offending value |
| Encode.WriteElement | marshal.go:162-168 | one element is written as `[ID`, then ` name="escaped"` per parameter in order, then `]` |
| Encode.WriteStructuredData | marshal.go:159-169 | the structured data is `-` when there are no elements, and otherwise the elements in order |
| Encode.MarshalBinary | marshal.go:144-176 | the method fails with the validation error, or returns the header, the structured data and (after a space) the non-empty body |
| Encode.MarshalFailsIffInvalid | marshal.go:145-148 | encoding fails exactly for invalid messages, with the first violated check |
| Encode.MarshalFraming | marshal.go:150-175 | a valid message's encoding starts with `<`, the PRI in decimal and `>1 `; it ends with a space and the body when there is a body, and with `-` when there is neither body nor structured data |
| Encode.PriDecomposes | marshal.go:151-152 | for severities 0..7, `Severity \| Facility<<3` is `8 * Facility + Severity`, so both can be read back |
| Encode.SeverityEightOverlapsFacility | marshal.go:89-152 | for a valid message of Severity 0 and an odd facility, the same message with Severity 8 also passes validation and is encoded to exactly the same bytes |
| Decode.DecodeMarshal | marshal.go:145-176 | the encoding of a valid message whose timestamp has no space reads back as its PRI, its nilified header fields, its structured data and its body |
| Decode.DecodeMarshalPri | marshal.go:151-152 | for severities 0..7, the PRI that is read back gives the severity and the facility |
| Text.JoinSplitComma | reflect.go:165 | splitting a tag at commas loses nothing: joining the pieces with commas gives the tag back |
| Text.SplitCommaPieces | reflect.go:165 | a tag splits into more than one piece exactly when it holds a comma |
| SdTag.MatchSdTagSound | reflect.go:92 | every match comes from digits, `@`, a run without whitespace, and then either the end of the text or a space followed by text without a newline; the groups are the SD-ID and the text after the space |
| SdTag.MatchSdTagComplete | reflect.go:92 | every text of that shape matches, with exactly those groups |
| SdTag.NoAtNoMatch | reflect.go:182-186 | a first tag piece without `@` never matches |
| Reflect.ReflectionRef.GetStructuredDataFieldReflection | reflect.go:62-70 | the search finds nothing exactly when no descriptor has both the SD-ID and the name; otherwise it returns the first descriptor that has both |
| Reflect.ReflectOtherField | reflect.go:156-207 | the `default` case skips an unexported untagged field, takes a `,message` field as the body, panics on a first attribute other than `omitempty`, and otherwise appends the descriptor |
| Reflect.ReflectField | reflect.go:113-155 | one iteration of the switch on the field name computes the step of the specification and keeps the reflected type |
| Reflect.ReflectImpl | reflect.go:94-210 | the loop from the initial record returns a fresh reflection equal to the specification, or that specification's panic |
| Reflect.FailureIsFinal | reflect.go:112-208 | once a field has panicked, the fields after it are never looked at |
| Reflect.StepError | reflect.go:115-203 | a field makes the loop panic whatever was reflected before it, decided by the field alone: a Severity or Facility tag outside its names table, or an SD field whose first attribute is not `omitempty` |
| Reflect.ReflectFails | reflect.go:112-203 | reflection panics exactly when some field is misconfigured, and then with the error of the first misconfigured field |
| Reflect.ReflectIndices | reflect.go:115-155 | each role index is the position of the last field with that name, or -1; the body index is the last field named `Message` or tagged `,message` |
| Reflect.ReflectDefaults | reflect.go:95-153 | the Severity and Facility defaults come from the names table for the last non-empty tag of that field, or else Info and Local0; the APP-NAME and MSGID defaults come from the last non-empty tag, or else the program name and the type name; the SD-ID default comes from the last non-empty `SDID` tag |
| Reflect.ReflectSdFields | reflect.go:173-206 | the descriptors are those of the SD fields in declaration order, each one built with the SD-ID default of the `SDID` fields declared before it |
| Reflect.DescribePlain | reflect.go:173-191 | a descriptor names its field, has a non-empty PARAM-NAME, and leaves out empty values exactly when the tag holds a comma; a first piece that the tag syntax rejects (one without `@`, as `SdTag.NoAtNoMatch` shows, or one such as `user@host`, `1@` or `1@a\tb`) is the name as written, under the current SD-ID (or `0@local`), and an empty name becomes the field name with its first letter lowered |
| Reflect.DescribeTagged | reflect.go:182-186 | a first piece in the form `ID[ NAME]` gives the SD-ID `ID` whatever `SDID` field came before, and the PARAM-NAME `NAME` when it is not empty |
| Reflect.LaterAttributesIgnored | reflect.go:193-203 | for a record type with one ordinary field, the tag `x,omitempty,anything` gives the single parameter `x` with empty values left out, because only the first attribute is checked; the general rule is `Reflect.ReflectFails` with `FieldError`, which looks only at the first attribute |
| Reflect.FirstAttributeDecides | reflect.go:193-203 | for a record type with one ordinary field, a first attribute other than `omitempty` panics and names that attribute, whatever follows it; for any record type, `Reflect.ReflectFails` gives the first such field's error |
| Reflect.SdIdAppliesToLaterFields | reflect.go:150-153 | in the three-field type `{A; SDID "id"; B}`, the parameter for `A` keeps `0@local` and the one for `B` gets `id`; for any record type, `Reflect.ReflectSdFields` builds each descriptor with the `SDID` tags declared before it |
| ReflectCache.ReflectionCache.Reflect | reflect.go:74-90 | a cached reflection of the type is returned without change to the cache; otherwise a new reflection is computed and stored under the type's name (a new list, or appended to the existing one), and a panic leaves the cache as it was; every returned reflection is the specification's and is the cached one |
| ReflectCache.ReflectTwice | reflect.go:74-90 | asking twice for the same type returns the same object, or the same panic |

## Left out

- The OS-derived defaults (`os.Hostname`, `os.Args`, `os.Getpid`): they are taken as given.
  - The default APP-NAME is the parameter `Env.defaultAppName`.
  - The default hostname and process ID are not read by the modelled code.
- `time.Time.Format(time.RFC3339Nano)`: the timestamp is taken as an already formatted byte string, so no calendar is modelled.
- The Go `reflect` API and `field.Tag.Get("log")`. A type is its package, its name and its fields. A field is its name, its `log` tag and whether it is exported (`PkgPath == ""`).
- The general regexp engine: `sdRegexp` is replaced by a matcher for that one expression. Go's `FindAllStringSubmatch` can only match that anchored expression once, so its first match is the one the matcher describes.
- `strings.ToLower` is modelled for the one-byte string the code passes it, and for nothing else.
- `fmt` and `bytes.Buffer`: the buffer is a byte sequence that the writer methods append to.
- The text of `log.Panicf` and of `errorInvalidValue.Error()`: panics are `ConfigError` values, and validation errors carry the property and the offending value.
- The Severity and Facility names tables, and the declarations of those types, are not part of this model. The tables are the maps `Env.severityNames` and `Env.facilityNames`. Info and Local0 are RFC 5424's codes 6 and 16.
- Thread safety of `reflectionCache`: it is an unsynchronised global map, modelled as a single-threaded object.
- The adapter from a record to a `Message` is not part of this model.
- Decode.DecodeMarshal: the round trip needs a timestamp without spaces, which any RFC 3339 time satisfies. It recovers the PRI, not the severity and facility: Severity 8 with an odd facility encodes as Severity 0 (Encode.SeverityEightOverlapsFacility), and only for severities 0..7 does the PRI give both back (Decode.DecodeMarshalPri). The decoder cannot tell an empty header field from one that is literally `-`.
- Go type identity: `r.Type == t` (reflect.go:83) compares types by identity, but the model compares `RecordType` values (package, name and fields). Two distinct Go types with the same package, name and fields, such as two function-local `type T struct{A string}`, are one type to the model. Go's `Reflect` caches a reflection for each of them under `T`; `ReflectCache.ReflectionCache.Reflect` returns the first one's object for the second.
- `GetStructuredDataFieldReflection` returns `&fieldReflection` (reflect.go:66), a pointer to a fresh copy of the loop variable. `Reflect.ReflectionRef.GetStructuredDataFieldReflection` returns the descriptor value, so the model does not capture that the result is a new object, separate from the list, whose changes never reach the reflection.
- The worked examples of section 6.5 of RFC 5424 are not stated as lemmas about concrete byte strings. Only their general shape is proved (Encode.MarshalFraming, Decode.DecodeMarshal).
