/** The PostgreSQL responses of internal/probe/postgresql.go: message framing, ErrorResponse and
    NegotiateProtocolVersion. */
module Postgresql {
  import opened Common
  import Ber

  const MAX_MESSAGE_LENGTH := 0x10_0000

  datatype PgError = EndOfInput | BadLength | Short | Malformed | MissingCodeOrMessage | TrailingData

  // ---------------------------------------------------------------- nul-terminated strings

  function IsNul(b: byte): bool {
    b == 0
  }

  /** How many bytes stand before the first zero. */
  function Cut(s: seq<byte>): nat {
    FirstIndex(s, IsNul, 0)
  }

  // A value that can be written before a terminating zero: not empty, and without one.
  predicate Text(s: seq<byte>) {
    s != [] && 0 !in s
  }

  /** Reading a nul-terminated value undoes writing it. */
  lemma CutTerminated(value: seq<byte>, rest: seq<byte>)
    requires 0 !in value
    ensures var s := value + [0] + rest;
            Cut(s) == |value| && s[..|value|] == value && s[|value| + 1..] == rest
  {
    var s := value + [0] + rest;
    assert s[|value|] == 0;
    assert forall k :: 0 <= k < |value| ==> s[k] == value[k];
  }

  lemma CutSplits(s: seq<byte>)
    requires Cut(s) < |s|
    ensures s == s[..Cut(s)] + [0] + s[Cut(s) + 1..] && 0 !in s[..Cut(s)]
  {
  }

  lemma SliceOfSlice(s: seq<byte>, from: nat, a: nat, b: nat)
    requires from <= |s| && a <= b <= |s| - from
    ensures s[from..][a..b] == s[from + a..from + b] && s[from..][b..] == s[from + b..]
  {
  }

  // ---------------------------------------------------------------- ErrorResponse

  datatype Field = Field(kind: byte, value: seq<byte>)

  function EncodeFields(fields: seq<Field>): seq<byte> {
    if fields == [] then []
    else [fields[0].kind] + (fields[0].value + [0] + EncodeFields(fields[1..]))
  }

  predicate AllText(fields: seq<Field>) {
    forall i :: 0 <= i < |fields| ==> Text(fields[i].value)
  }

  function Kinds(fields: seq<Field>): set<byte> {
    set i | 0 <= i < |fields| :: fields[i].kind
  }

  function Prepend<T>(done: seq<T>, r: Option<seq<T>>): Option<seq<T>> {
    if r.Some? then Some(done + r.value) else None
  }

  /** The fields of a payload, read from the front; one closing zero may remain. */
  function ParseFields(payload: seq<byte>): Option<seq<Field>> {
    if |payload| < 2 then
      if payload == [] || payload == [0] then Some([]) else None
    else
      var k := Cut(payload[1..]);
      if k == 0 || k == |payload| - 1 then None
      else Prepend([Field(payload[0], payload[1..k + 1])], ParseFields(payload[k + 2..]))
  }

  // The first field read back from an encoding, whatever follows it.
  lemma FirstFieldReadsBack(payload: seq<byte>, f: Field, rest: seq<byte>)
    requires Text(f.value) && payload == [f.kind] + (f.value + [0] + rest)
    ensures var k := Cut(payload[1..]);
            && 0 < k < |payload| - 1 && payload[0] == f.kind && payload[1..k + 1] == f.value
            && payload[k + 2..] == rest
  {
    var s := payload[1..];
    assert s == f.value + [0] + rest;
    CutTerminated(f.value, rest);
    SliceOfSlice(payload, 1, 0, |f.value|);
    SliceOfSlice(payload, 1, |f.value| + 1, |s|);
  }

  lemma ParsesFirstField(payload: seq<byte>, f: Field, rest: seq<byte>)
    requires Text(f.value) && payload == [f.kind] + (f.value + [0] + rest)
    ensures ParseFields(payload) == Prepend([f], ParseFields(rest))
  {
    FirstFieldReadsBack(payload, f, rest);
  }

  lemma SplitFirstField(payload: seq<byte>) returns (f: Field, rest: seq<byte>)
    requires |payload| >= 2 && ParseFields(payload).Some?
    ensures Text(f.value) && payload == [f.kind] + (f.value + [0] + rest) && |rest| < |payload|
  {
    var s := payload[1..];
    var k := Cut(s);
    CutSplits(s);
    f, rest := Field(payload[0], s[..k]), s[k + 1..];
  }

  lemma {:induction false} ParsedFieldsEncode(payload: seq<byte>, fields: seq<Field>)
    requires ParseFields(payload) == Some(fields)
    ensures AllText(fields) && (payload == EncodeFields(fields) || payload == EncodeFields(fields) + [0])
    decreases |payload|
  {
    if |payload| >= 2 {
      var f, rest := SplitFirstField(payload);
      ParsesFirstField(payload, f, rest);
      assert fields == [f] + fields[1..];
      ParsedFieldsEncode(rest, fields[1..]);
    }
  }

  lemma EncodeFirst(fields: seq<Field>, tail: seq<byte>)
    requires fields != []
    ensures EncodeFields(fields) + tail ==
            [fields[0].kind] + (fields[0].value + [0] + (EncodeFields(fields[1..]) + tail))
  {
  }

  lemma {:induction false} EncodedFieldsParse(fields: seq<Field>, tail: seq<byte>)
    requires AllText(fields) && (tail == [] || tail == [0])
    ensures ParseFields(EncodeFields(fields) + tail) == Some(fields)
  {
    if fields != [] {
      EncodedFieldsParse(fields[1..], tail);
      EncodeFirst(fields, tail);
      ParsesFirstField(EncodeFields(fields) + tail, fields[0], EncodeFields(fields[1..]) + tail);
      assert [fields[0]] + fields[1..] == fields;
    }
  }

  /** A payload reads as these fields exactly when it is their encoding, with at most one closing
      zero after it; so no payload is the encoding of two lists of fields. */
  lemma FieldsTileThePayload(payload: seq<byte>, fields: seq<Field>)
    ensures ParseFields(payload) == Some(fields) <==>
            AllText(fields) && (payload == EncodeFields(fields) || payload == EncodeFields(fields) + [0])
  {
    if ParseFields(payload) == Some(fields) { ParsedFieldsEncode(payload, fields); }
    if AllText(fields) {
      EncodedFieldsParse(fields, []);
      EncodedFieldsParse(fields, [0]);
      assert EncodeFields(fields) + [] == EncodeFields(fields);
    }
  }

  // One turn of the loop, on what is left from `offset`.
  lemma FieldStep(payload: seq<byte>, offset: nat, end: nat)
    requires offset + 1 < end < |payload| && end == offset + 1 + Cut(payload[offset + 1..])
    ensures ParseFields(payload[offset..]) ==
            Prepend([Field(payload[offset], payload[offset + 1..end])], ParseFields(payload[end + 1..]))
  {
    var f, s := Field(payload[offset], payload[offset + 1..end]), payload[offset + 1..];
    CutSplits(s);
    SliceOfSlice(payload, offset + 1, 0, end - offset - 1);
    SliceOfSlice(payload, offset + 1, end - offset, |s|);
    assert payload[offset..] == [f.kind] + s;
    ParsesFirstField(payload[offset..], f, payload[end + 1..]);
  }

  lemma FieldFails(payload: seq<byte>, offset: nat, end: nat)
    requires offset + 1 < |payload| && end == offset + 1 + Cut(payload[offset + 1..])
    requires end == |payload| || end == offset + 1
    ensures ParseFields(payload[offset..]).None?
  {
    SliceOfSlice(payload, offset, 1, |payload| - offset);
  }

  // What the parse gives after the fields `done`, with the rest starting at `offset`.
  ghost function FieldsFrom(payload: seq<byte>, done: seq<Field>, offset: nat): Option<seq<Field>>
    requires offset <= |payload|
  {
    Prepend(done, ParseFields(payload[offset..]))
  }

  lemma FieldTurn(payload: seq<byte>, done: seq<Field>, offset: nat, end: nat)
    requires offset + 1 < |payload| && end == offset + 1 + Cut(payload[offset + 1..])
    ensures end == |payload| || end == offset + 1 ==> FieldsFrom(payload, done, offset).None?
    ensures offset + 1 < end < |payload| ==>
              FieldsFrom(payload, done, offset) ==
              FieldsFrom(payload, done + [Field(payload[offset], payload[offset + 1..end])], end + 1)
  {
    if end == |payload| || end == offset + 1 {
      FieldFails(payload, offset, end);
    } else {
      FieldStep(payload, offset, end);
      PrependTwice(done, Field(payload[offset], payload[offset + 1..end]), ParseFields(payload[end + 1..]));
    }
  }

  lemma NothingDone(payload: seq<byte>)
    ensures FieldsFrom(payload, [], 0) == ParseFields(payload)
  {
    PrependNothing(ParseFields(payload));
    assert payload[0..] == payload;
  }

  lemma AllDone(payload: seq<byte>, done: seq<Field>, offset: nat)
    requires |payload| - 1 <= offset <= |payload| && payload != [] && payload[|payload| - 1] == 0
    ensures FieldsFrom(payload, done, offset) == Some(done)
  {
    assert payload[offset..] == [] || payload[offset..] == [0];
    assert done + [] == done;
  }

  lemma KindsAppend(fields: seq<Field>, f: Field)
    ensures Kinds(fields + [f]) == Kinds(fields) + {f.kind}
  {
    var more := fields + [f];
    assert forall i :: 0 <= i < |fields| ==> more[i] == fields[i];
    assert more[|fields|] == f;
  }

  const CODE: byte := 'C' as int
  const MESSAGE: byte := 'M' as int

  predicate HasCodeAndMessage(fields: seq<Field>) {
    CODE in Kinds(fields) && MESSAGE in Kinds(fields)
  }

  /** The payload is fields, a code and a message among them. */
  predicate Accepts(payload: seq<byte>) {
    ParseFields(payload).Some? && HasCodeAndMessage(ParseFields(payload).value)
  }

  /** validatePostgreSQLError accepts exactly these payloads. */
  method ValidatePostgreSQLError(payload: seq<byte>) returns (error: Option<PgError>)
    ensures var fields := ParseFields(payload);
            && (error.None? <==> Accepts(payload))
            && (error.None? <==> fields.Some? && 67 in Kinds(fields.value) && 77 in Kinds(fields.value))   // C and M
            && (error == Some(Malformed) ==> fields.None? || fields.value == [])
            && (error == Some(MissingCodeOrMessage) ==> fields.Some?)
  {
    if |payload| < 2 || payload[|payload| - 1] != 0 {
      NotFields(payload);
      return Some(Malformed);
    }
    var hasCode, hasMessage := false, false;
    var offset: nat := 0;
    ghost var done: seq<Field> := [];
    ghost var whole := ParseFields(payload);
    NothingDone(payload);
    while offset < |payload| - 1
      invariant offset <= |payload| && whole == FieldsFrom(payload, done, offset)
      invariant hasCode == (CODE in Kinds(done)) && hasMessage == (MESSAGE in Kinds(done))
    {
      ghost var start := offset;
      var fieldType := payload[offset];
      offset := offset + 1;
      var end := EndOfString(payload, offset);
      FieldTurn(payload, done, start, end);
      if end == |payload| || end == offset { return Some(Malformed); }
      ghost var f := Field(fieldType, payload[offset..end]);
      KindsAppend(done, f);
      if fieldType == CODE { hasCode := true; }
      else if fieldType == MESSAGE { hasMessage := true; }
      done := done + [f];
      offset := end + 1;
    }
    AllDone(payload, done, offset);
    if !hasCode || !hasMessage { return Some(MissingCodeOrMessage); }
    return None;
  }

  lemma PrependNothing<T>(r: Option<seq<T>>)
    ensures Prepend([], r) == r
  {
    if r.Some? { assert [] + r.value == r.value; }
  }

  lemma PrependTwice<T>(done: seq<T>, x: T, r: Option<seq<T>>)
    ensures Prepend(done + [x], r) == Prepend(done, Prepend([x], r))
  {
    if r.Some? { assert done + [x] + r.value == done + ([x] + r.value); }
  }

  // The scan `for end < len(payload) && payload[end] != 0`.
  method EndOfString(payload: seq<byte>, offset: nat) returns (end: nat)
    requires offset <= |payload|
    ensures end == offset + Cut(payload[offset..])
  {
    end := offset;
    while end < |payload| && payload[end] != 0
      invariant offset <= end <= |payload|
      invariant forall k :: offset <= k < end ==> payload[k] != 0
    {
      end := end + 1;
    }
    ghost var s := payload[offset..];
    assert forall k :: 0 <= k < end - offset ==> s[k] == payload[offset + k];
    if end < |payload| { assert s[end - offset] == 0; }
  }

  // A payload that does not end in zero is not made of fields.
  lemma {:induction false} NotFields(payload: seq<byte>)
    requires |payload| < 2 || payload[|payload| - 1] != 0
    ensures ParseFields(payload).None? || ParseFields(payload).value == []
  {
    if |payload| >= 2 {
      var s := payload[1..];
      var k := Cut(s);
      if 0 < k < |s| {
        assert s[k] == 0;
        assert payload[k + 1] == 0;
        var rest := payload[k + 2..];
        assert rest[|rest| - 1] == payload[|payload| - 1];
        NotFields(rest);
        if |rest| >= 2 { NeverNoFields(rest); }
      }
    }
  }

  lemma NeverNoFields(payload: seq<byte>)
    requires |payload| >= 2
    ensures ParseFields(payload) != Some([])
  {
  }

  // ---------------------------------------------------------------- ErrorResponse in the protocol

  /** The protocol's own layout: fields of a non-zero type and a value that may be empty, and a zero
      that closes the list. */
  ghost predicate Layout(payload: seq<byte>, fields: seq<Field>) {
    && (forall i :: 0 <= i < |fields| ==> fields[i].kind != 0 && 0 !in fields[i].value)
    && payload == EncodeFields(fields) + [0]
  }

  // Where a value is empty, nothing is read.
  lemma {:induction false} EmptyValueFails(fields: seq<Field>)
    requires (forall i :: 0 <= i < |fields| ==> 0 !in fields[i].value) && !AllText(fields)
    ensures ParseFields(EncodeFields(fields) + [0]).None?
  {
    var f, rest := fields[0], EncodeFields(fields[1..]) + [0];
    EncodeFirst(fields, [0]);
    if f.value == [] {
      var payload := EncodeFields(fields) + [0];
      assert payload[1..] == f.value + [0] + rest;
      CutTerminated(f.value, rest);
    } else {
      ParsesFirstField(EncodeFields(fields) + [0], f, rest);
      EmptyValueFails(fields[1..]);
    }
  }

  /** When what was read has the protocol's layout: exactly when the closing zero is there and no
      field has type zero, which in the protocol ends the list. */
  lemma LayoutOfParsed(payload: seq<byte>, fields: seq<Field>)
    requires ParseFields(payload) == Some(fields)
    ensures (exists layout :: Layout(payload, layout)) <==>
            payload == EncodeFields(fields) + [0] && forall i :: 0 <= i < |fields| ==> fields[i].kind != 0
  {
    FieldsTileThePayload(payload, fields);
    forall layout | Layout(payload, layout) ensures layout == fields {
      if AllText(layout) { EncodedFieldsParse(layout, [0]); } else { EmptyValueFails(layout); }
    }
    if payload == EncodeFields(fields) + [0] && forall i :: 0 <= i < |fields| ==> fields[i].kind != 0 {
      assert Layout(payload, fields);
    }
  }

  /** When a payload in the protocol's layout is accepted: exactly when no value is empty and a code
      and a message are present. */
  lemma LayoutIsAccepted(payload: seq<byte>, fields: seq<Field>)
    requires Layout(payload, fields)
    ensures Accepts(payload) <==> AllText(fields) && (exists i :: 0 <= i < |fields| && fields[i].kind == 67)
                                  && (exists i :: 0 <= i < |fields| && fields[i].kind == 77)   // C and M
  {
    assert CODE == 67 && MESSAGE == 77;
    if AllText(fields) { EncodedFieldsParse(fields, [0]); } else { EmptyValueFails(fields); }
  }

  // The fields C "1", M "x", and one more of this type and value.
  function CodeAndMessage(kind: byte, value: seq<byte>): seq<Field> {
    [Field(CODE, [49]), Field(MESSAGE, [120]), Field(kind, value)]
  }

  lemma EncodeCons(f: Field, rest: seq<Field>)
    ensures EncodeFields([f] + rest) == [f.kind] + (f.value + [0] + EncodeFields(rest))
  {
    assert ([f] + rest)[1..] == rest;
  }

  lemma EncodeCodeAndMessage(kind: byte, value: seq<byte>)
    ensures EncodeFields(CodeAndMessage(kind, value)) == [67, 49, 0, 77, 120, 0, kind] + value + [0]
    ensures EncodeFields(CodeAndMessage(kind, value)[..2]) == [67, 49, 0, 77, 120, 0]
    ensures HasCodeAndMessage(CodeAndMessage(kind, value)) && HasCodeAndMessage(CodeAndMessage(kind, value)[..2])
  {
    var fields := CodeAndMessage(kind, value);
    var two := fields[..2];
    assert two == [fields[0]] + ([fields[1]] + []) && fields == [fields[0]] + ([fields[1]] + ([fields[2]] + []));
    EncodeCons(fields[2], []);
    EncodeCons(fields[1], [fields[2]] + []);
    EncodeCons(fields[0], [fields[1]] + ([fields[2]] + []));
    EncodeCons(fields[1], []);
    EncodeCons(fields[0], [fields[1]] + []);
    assert CODE == 67 && MESSAGE == 77;
    assert fields[0].kind == two[0].kind == CODE && fields[1].kind == two[1].kind == MESSAGE;
  }

  /** Accepted without the closing zero. */
  lemma MissingTerminatorIsAccepted()
    ensures var payload: seq<byte> := [67, 49, 0, 77, 120, 0];
            Accepts(payload) && forall layout :: !Layout(payload, layout)
  {
    var fields := CodeAndMessage(0, [])[..2];
    EncodeCodeAndMessage(0, []);
    FieldsTileThePayload(EncodeFields(fields), fields);
    LayoutOfParsed(EncodeFields(fields), fields);
  }

  /** Accepted with a field of type zero, closing zero or not. */
  lemma TypeZeroIsAccepted(tail: seq<byte>)
    requires tail == [] || tail == [0]
    ensures var payload := [67, 49, 0, 77, 120, 0, 0, 121, 0] + tail;
            Accepts(payload) && forall layout :: !Layout(payload, layout)
  {
    var fields := CodeAndMessage(0, [121]);
    var payload := EncodeFields(fields) + tail;
    EncodeCodeAndMessage(0, [121]);
    assert [67, 49, 0, 77, 120, 0, 0, 121, 0] + tail == payload;
    assert fields[2].kind == 0;
    EncodedFieldsParse(fields, tail);
    LayoutOfParsed(payload, fields);
  }

  /** Rejected for an empty value, although it has the layout, a code and a message. */
  lemma EmptyValueIsRejected()
    ensures var payload, fields := [67, 49, 0, 77, 120, 0, 72, 0, 0], CodeAndMessage(72, []);
            Layout(payload, fields) && HasCodeAndMessage(fields) && !Accepts(payload)
  {
    var fields := CodeAndMessage(72, []);
    EncodeCodeAndMessage(72, []);
    assert EncodeFields(fields) + [0] == [67, 49, 0, 77, 120, 0, 72, 0, 0];
    assert fields[2].value == [];
    LayoutIsAccepted(EncodeFields(fields) + [0], fields);
  }

  // ---------------------------------------------------------------- NegotiateProtocolVersion

  function Uint32At(s: seq<byte>, offset: nat): nat
    requires offset + 4 <= |s|
  {
    Uint16At(s, offset) * 65536 + Uint16At(s, offset + 2)
  }

  function EncodeStrings(strings: seq<seq<byte>>): seq<byte> {
    if strings == [] then [] else strings[0] + [0] + EncodeStrings(strings[1..])
  }

  predicate AllTexts(strings: seq<seq<byte>>) {
    forall i :: 0 <= i < |strings| ==> Text(strings[i])
  }

  /** The n strings that fill the bytes. */
  function ParseStrings(s: seq<byte>, n: nat): Option<seq<seq<byte>>> {
    if n == 0 then (if s == [] then Some([]) else None)
    else
      var k := Cut(s);
      if k == 0 || k == |s| then None else Prepend([s[..k]], ParseStrings(s[k + 1..], n - 1))
  }

  /** Bytes read as these strings exactly when they are n non-empty nul-terminated strings, end to
      end with nothing left. */
  lemma StringsFillTheBytes(s: seq<byte>, n: nat, strings: seq<seq<byte>>)
    ensures ParseStrings(s, n) == Some(strings) <==> |strings| == n && AllTexts(strings) && s == EncodeStrings(strings)
  {
    if ParseStrings(s, n) == Some(strings) { ParsedStringsEncode(s, n, strings); }
    if AllTexts(strings) { EncodedStringsParse(strings); }
  }

  lemma {:induction false} ParsedStringsEncode(s: seq<byte>, n: nat, strings: seq<seq<byte>>)
    requires ParseStrings(s, n) == Some(strings)
    ensures |strings| == n && AllTexts(strings) && s == EncodeStrings(strings)
  {
    if n > 0 {
      var k := Cut(s);
      CutSplits(s);
      assert strings == [s[..k]] + strings[1..];
      ParsedStringsEncode(s[k + 1..], n - 1, strings[1..]);
    }
  }

  lemma {:induction false} EncodedStringsParse(strings: seq<seq<byte>>)
    requires AllTexts(strings)
    ensures ParseStrings(EncodeStrings(strings), |strings|) == Some(strings)
  {
    if strings != [] {
      CutTerminated(strings[0], EncodeStrings(strings[1..]));
      EncodedStringsParse(strings[1..]);
      assert [strings[0]] + strings[1..] == strings;
    }
  }

  // One turn of the loop, on what is left from `offset`.
  lemma StringStep(payload: seq<byte>, offset: nat, end: nat, n: nat)
    requires offset <= |payload| && end == offset + Cut(payload[offset..]) && n > 0
    ensures end == |payload| || end == offset ==> ParseStrings(payload[offset..], n).None?
    ensures offset < end < |payload| ==>
              ParseStrings(payload[offset..], n) == Prepend([payload[offset..end]], ParseStrings(payload[end + 1..], n - 1))
  {
    if offset < end < |payload| {
      SliceOfSlice(payload, offset, 0, end - offset);
      SliceOfSlice(payload, offset, end - offset + 1, |payload| - offset);
    }
  }

  // What the parse gives after the strings `done`, with n more to come from `offset` on.
  ghost function StringsFrom(payload: seq<byte>, done: seq<seq<byte>>, offset: nat, n: nat): Option<seq<seq<byte>>>
    requires offset <= |payload|
  {
    Prepend(done, ParseStrings(payload[offset..], n))
  }

  lemma StringTurn(payload: seq<byte>, done: seq<seq<byte>>, offset: nat, n: nat, end: nat)
    requires offset <= |payload| && end == offset + Cut(payload[offset..]) && n > 0
    ensures end == |payload| || end == offset ==> StringsFrom(payload, done, offset, n).None?
    ensures offset < end < |payload| ==>
              StringsFrom(payload, done, offset, n) == StringsFrom(payload, done + [payload[offset..end]], end + 1, n - 1)
  {
    StringStep(payload, offset, end, n);
    if offset < end < |payload| {
      PrependTwice(done, payload[offset..end], ParseStrings(payload[end + 1..], n - 1));
    }
  }

  /** validatePostgreSQLNegotiation accepts exactly the payloads whose bytes after the eighth are
      parameterCount strings, and however large that count is, it looks for at most
      (len - 8) / 2 + 1 of them. */
  method ValidatePostgreSQLNegotiation(payload: seq<byte>) returns (error: Option<PgError>, steps: nat)
    ensures error.None? <==> |payload| >= 8 && ParseStrings(payload[8..], Uint32At(payload, 4)).Some?
    ensures error == Some(Short) <==> |payload| < 8
    ensures |payload| >= 8 ==> steps <= (|payload| - 8) / 2 + 1
  {
    steps := 0;
    if |payload| < 8 { return Some(Short), 0; }
    var parameterCount := Uint32At(payload, 4);
    var offset: nat := 8;
    ghost var done: seq<seq<byte>> := [];
    ghost var whole, missing: nat := ParseStrings(payload[8..], parameterCount), parameterCount;
    PrependNothing(whole);
    for index := 0 to parameterCount
      invariant 8 + 2 * steps <= offset <= |payload| && steps == index && missing == parameterCount - index
      invariant whole == StringsFrom(payload, done, offset, missing)
    {
      steps := steps + 1;
      var end := EndOfString(payload, offset);
      StringTurn(payload, done, offset, missing, end);
      if end == |payload| || end == offset { return Some(Malformed), steps; }
      done := done + [payload[offset..end]];
      missing := missing - 1;
      offset := end + 1;
    }
    if offset != |payload| { return Some(TrailingData), steps; }
    return None, steps;
  }

  // ---------------------------------------------------------------- framing

  function EncodeUint32(n: nat): seq<byte> {
    [n / 0x100_0000 % 256, n / 0x1_0000 % 256, n / 0x100 % 256, n % 256]
  }

  /** A message: its type, its length with the four length bytes counted, its payload. */
  function EncodeMessage(kind: byte, payload: seq<byte>): seq<byte> {
    [kind] + EncodeUint32(|payload| + 4) + payload
  }

  function ReadMessage(stream: seq<byte>): (Result<(byte, seq<byte>), PgError>, seq<byte>) {
    if |stream| < 5 then (Err(EndOfInput), [])
    else
      var length := Uint32At(stream, 1);
      if length < 4 || length > MAX_MESSAGE_LENGTH then (Err(BadLength), stream[5..])
      else if |stream| < length + 1 then (Err(EndOfInput), [])
      else (Ok((stream[0], stream[5..length + 1])), stream[length + 1..])
  }

  lemma Digits(n: nat)
    requires n < 0x1_0000_0000
    ensures n == (n / 0x100_0000 % 256 * 256 + n / 0x1_0000 % 256) * 65536 + (n / 0x100 % 256 * 256 + n % 256)
  {
    var a := n / 256;
    var b := a / 256;
    assert b == n / 0x1_0000 && b / 256 == n / 0x100_0000 < 256;
  }

  lemma Uint32ReadsBack(n: nat, stream: seq<byte>, kind: byte, rest: seq<byte>)
    requires n < 0x1_0000_0000 && stream == [kind] + EncodeUint32(n) + rest
    ensures Uint32At(stream, 1) == n
  {
    assert stream[1] == n / 0x100_0000 % 256 && stream[2] == n / 0x1_0000 % 256;
    assert stream[3] == n / 0x100 % 256 && stream[4] == n % 256;
    Digits(n);
  }

  // The four length bytes are those of the number they hold.
  lemma DigitsOfBytes(a: byte, b: byte, c: byte, d: byte)
    ensures EncodeUint32((a as int * 256 + b as int) * 65536 + (c as int * 256 + d as int)) == [a, b, c, d]
  {
    var q := (a as int * 256 + b as int) * 256 + c as int;
    var n := q * 256 + d as int;
    assert n / 256 == q && n % 256 == d as int;
    assert q / 256 == a as int * 256 + b as int && q % 256 == c as int;
    assert n / 0x1_0000 == q / 256 && n / 0x100_0000 == q / 256 / 256;
  }

  lemma ReadMessageIsFrame(stream: seq<byte>)
    requires ReadMessage(stream).0.Ok?
    ensures var (r, rest) := ReadMessage(stream);
            stream == EncodeMessage(r.value.0, r.value.1) + rest && |r.value.1| + 4 <= MAX_MESSAGE_LENGTH
  {
    var length := Uint32At(stream, 1);
    DigitsOfBytes(stream[1], stream[2], stream[3], stream[4]);
    assert stream[1..5] == [stream[1], stream[2], stream[3], stream[4]] == EncodeUint32(length);
    assert stream == [stream[0]] + stream[1..5] + stream[5..length + 1] + stream[length + 1..];
  }

  /** A message is read back, and the stream after it left untouched, exactly when its length field
      is within the limit. */
  lemma MessageReadsBack(kind: byte, payload: seq<byte>, suffix: seq<byte>)
    ensures ReadMessage(EncodeMessage(kind, payload) + suffix) == (Ok((kind, payload)), suffix) <==>
            |payload| + 4 <= MAX_MESSAGE_LENGTH
  {
    var stream := EncodeMessage(kind, payload) + suffix;
    if |payload| + 4 <= MAX_MESSAGE_LENGTH {
      assert stream == [kind] + EncodeUint32(|payload| + 4) + (payload + suffix);
      Uint32ReadsBack(|payload| + 4, stream, kind, payload + suffix);
      assert stream[5..|payload| + 5] == payload && stream[|payload| + 5..] == suffix;
    } else if ReadMessage(stream) == (Ok((kind, payload)), suffix) {
      ReadMessageIsFrame(stream);
    }
  }

  /** What the reader accepts is a frame: it gives a message and leaves a rest exactly when the
      stream is that message's encoding followed by that rest, its length within the limit. */
  lemma FramesAreRead(stream: seq<byte>)
    ensures var (r, left) := ReadMessage(stream);
            && (r.Ok? ==> stream == EncodeMessage(r.value.0, r.value.1) + left && |r.value.1| + 4 <= MAX_MESSAGE_LENGTH)
            && (forall kind: byte, payload: seq<byte>, rest: seq<byte> :: stream == EncodeMessage(kind, payload) + rest ==>
                  (r == Ok((kind, payload)) && left == rest <==> |payload| + 4 <= MAX_MESSAGE_LENGTH))
  {
    var (r, left) := ReadMessage(stream);
    if r.Ok? { ReadMessageIsFrame(stream); }
    forall kind: byte, payload: seq<byte>, rest: seq<byte> | stream == EncodeMessage(kind, payload) + rest
      ensures r == Ok((kind, payload)) && left == rest <==> |payload| + 4 <= MAX_MESSAGE_LENGTH {
      MessageReadsBack(kind, payload, rest);
    }
  }

  method ReadPostgreSQLMessage(reader: Ber.Reader) returns (r: Result<(byte, seq<byte>), PgError>)
    modifies reader
    ensures (r, reader.rest) == ReadMessage(old(reader.rest))
    ensures r.Ok? ==> old(reader.rest) == EncodeMessage(r.value.0, r.value.1) + reader.rest
                      && |r.value.1| + 4 <= 0x10_0000
    ensures r.Err? ==> forall kind: byte, payload: seq<byte>, rest: seq<byte> :: old(reader.rest) == EncodeMessage(kind, payload) + rest ==>
                         |payload| + 4 > 0x10_0000
  {
    ghost var stream := reader.rest;
    FramesAreRead(stream);
    var header := reader.ReadFull(5);
    if header.None? { return Err(EndOfInput); }
    assert Uint32At(header.value, 1) == Uint32At(stream, 1);
    var length := Uint32At(header.value, 1);
    if length < 4 || length > MAX_MESSAGE_LENGTH { return Err(BadLength); }
    var payload := reader.ReadFull(length - 4);
    if payload.None? { return Err(EndOfInput); }
    SliceOfSlice(stream, 5, 0, length - 4);
    r := Ok((header.value[0], payload.value));
  }
}
