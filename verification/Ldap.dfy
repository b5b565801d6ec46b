/** The LDAP probe of internal/probe/ldap.go: three levels of BER reads of a BindResponse, with the
    message layout of sections 4.1.1 and 4.2.2 of RFC 4511. */
module Ldap {
  import opened Common
  import opened Ber

  const MESSAGE_LIMIT := 1048576
  const FIELD_LIMIT := 8

  datatype LdapError = UnreadableMessage | BadMessageTag | BadMessageId | BadResponse | BadResultCode

  /** How a BindResponse to message 1 stands in a stream, section 4.2.2 of RFC 4511: a SEQUENCE of the
      message id and the protocol operation, which starts with the result code. What may follow at
      each level is left open. */
  ghost predicate Layout(stream: seq<byte>, code: byte, message: seq<byte>, afterMessage: seq<byte>,
                         afterId: seq<byte>, response: seq<byte>, afterResponse: seq<byte>, afterCode: seq<byte>) {
    && StartsWith(stream, Element(0x30, message), afterMessage) && |message| <= 0x10_0000
    && StartsWith(message, Element(0x02, [1]), afterId)
    && StartsWith(afterId, Element(0x61, response), afterResponse)
    && StartsWith(response, Element(0x0a, [code]), afterCode)
  }

  /** The stream starts with a message of id 1 that holds a BindResponse with this one-octet result
      code. */
  ghost predicate AnswersBind(stream: seq<byte>, code: byte) {
    exists message, afterMessage, afterId, response, afterResponse, afterCode ::
      Layout(stream, code, message, afterMessage, afterId, response, afterResponse, afterCode)
  }

  // The reads that find that layout.
  ghost predicate ReadsBind(stream: seq<byte>, code: byte) {
    var (message, _) := ReadElement(stream, MESSAGE_LIMIT);
    && message.Ok? && message.value.tag == 0x30
    && var (id, afterId) := ReadElement(message.value.content, FIELD_LIMIT);
       && id == Ok(Element(INTEGER, [1]))
       && var (response, _) := ReadElement(afterId, MESSAGE_LIMIT);
          && response.Ok? && response.value.tag == 0x61
          && ReadElement(response.value.content, FIELD_LIMIT).0 == Ok(Element(0x0a, [code]))
  }

  lemma LayoutIsRead(stream: seq<byte>, code: byte, message: seq<byte>, afterMessage: seq<byte>,
                     afterId: seq<byte>, response: seq<byte>, afterResponse: seq<byte>, afterCode: seq<byte>)
    requires Layout(stream, code, message, afterMessage, afterId, response, afterResponse, afterCode)
    ensures ReadsBind(stream, code)
  {
    ReadsBer(stream, MESSAGE_LIMIT, Element(0x30, message), afterMessage);
    ReadsBer(message, FIELD_LIMIT, Element(INTEGER, [1]), afterId);
    PartsAreShorter(message, Element(INTEGER, [1]), afterId);
    PartsAreShorter(afterId, Element(0x61, response), afterResponse);
    ReadsBer(afterId, MESSAGE_LIMIT, Element(0x61, response), afterResponse);
    ReadsBer(response, FIELD_LIMIT, Element(0x0a, [code]), afterCode);
  }

  lemma PartsAreShorter(stream: seq<byte>, e: Element, rest: seq<byte>)
    requires StartsWith(stream, e, rest)
    ensures |e.content| <= |stream| && |rest| <= |stream|
  {
  }

  lemma ReadsHaveLayout(stream: seq<byte>, code: byte)
    requires ReadsBind(stream, code)
    ensures AnswersBind(stream, code)
  {
    var (message, afterMessage) := ReadElement(stream, MESSAGE_LIMIT);
    var (id, afterId) := ReadElement(message.value.content, FIELD_LIMIT);
    var (response, afterResponse) := ReadElement(afterId, MESSAGE_LIMIT);
    var (result, afterCode) := ReadElement(response.value.content, FIELD_LIMIT);
    ReadsBer(stream, MESSAGE_LIMIT, message.value, afterMessage);
    ReadsBer(message.value.content, FIELD_LIMIT, id.value, afterId);
    ReadsBer(afterId, MESSAGE_LIMIT, response.value, afterResponse);
    ReadsBer(response.value.content, FIELD_LIMIT, result.value, afterCode);
    assert Layout(stream, code, message.value.content, afterMessage, afterId, response.value.content, afterResponse, afterCode);
  }

  lemma ReadsAreTheLayout(stream: seq<byte>, code: byte)
    ensures ReadsBind(stream, code) <==> AnswersBind(stream, code)
  {
    if ReadsBind(stream, code) { ReadsHaveLayout(stream, code); }
    if AnswersBind(stream, code) {
      var message, afterMessage, afterId, response, afterResponse, afterCode :|
        Layout(stream, code, message, afterMessage, afterId, response, afterResponse, afterCode);
      LayoutIsRead(stream, code, message, afterMessage, afterId, response, afterResponse, afterCode);
    }
  }

  /** probeLDAP reports a code exactly when the stream has that layout. */
  method ProbeLdap(connection: Reader) returns (r: Result<byte, LdapError>)
    modifies connection
    ensures forall code: byte :: r == Ok(code) <==> AnswersBind(old(connection.rest), code)
  {
    ghost var stream := connection.rest;
    forall code: byte ensures ReadsBind(stream, code) <==> AnswersBind(stream, code) { ReadsAreTheLayout(stream, code); }
    var message := ReadBERElement(connection, MESSAGE_LIMIT);
    if message.Err? { return Err(UnreadableMessage); }
    if message.value.tag != 0x30 { return Err(BadMessageTag); }
    var reader := new Reader(message.value.content);
    var id := ReadBERElement(reader, FIELD_LIMIT);
    if id.Err? || id.value.tag != INTEGER || |id.value.content| != 1 || id.value.content[0] != 1 {
      return Err(BadMessageId);
    }
    assert id.value.content == [1];
    var response := ReadBERElement(reader, MESSAGE_LIMIT);
    if response.Err? || response.value.tag != 0x61 { return Err(BadResponse); }
    var inner := new Reader(response.value.content);
    var result := ReadBERElement(inner, FIELD_LIMIT);
    if result.Err? || result.value.tag != 0x0a || |result.value.content| != 1 { return Err(BadResultCode); }
    assert result.value.content == [result.value.content[0]];
    r := Ok(result.value.content[0]);
  }

  /** A BindResponse to message 1: result code, the rest of the result, and any controls. */
  function BindResponse(code: byte, others: seq<Tree>, controls: seq<Tree>): Tree {
    Constructed(0x30, [Primitive(INTEGER, [1]),
                       Constructed(0x61, [Primitive(0x0a, [code])] + others)] + controls)
  }

  /** Every DER-encoded BindResponse of at most 65535 octets is recognised, whatever follows it on
      the stream, and its result code is the one reported. */
  lemma EveryBindResponseAnswers(code: byte, others: seq<Tree>, controls: seq<Tree>, suffix: seq<byte>)
    requires |Body(BindResponse(code, others, controls))| <= 65535
    ensures AnswersBind(Encode(BindResponse(code, others, controls)) + suffix, code)
  {
    var id, result := Primitive(INTEGER, [1]), Primitive(0x0a, [code]);
    var inside := [result] + others;
    var response := Constructed(0x61, inside);
    var children := [id, response] + controls;
    assert children[1..] == [response] + controls && children[1..][1..] == controls && inside[1..] == others;
    assert EncodeAll(children) == Encode(id) + (Encode(response) + EncodeAll(controls));
    assert EncodeAll(inside) == Encode(result) + EncodeAll(others);
    ReadUndoesWrap(0x30, EncodeAll(children), suffix, MESSAGE_LIMIT);
    ReadUndoesWrap(INTEGER, [1], Encode(response) + EncodeAll(controls), FIELD_LIMIT);
    WrapIsLonger(0x61, EncodeAll(inside));
    ReadUndoesWrap(0x61, EncodeAll(inside), EncodeAll(controls), MESSAGE_LIMIT);
    ReadUndoesWrap(0x0a, [code], EncodeAll(others), FIELD_LIMIT);
    ReadsAreTheLayout(Encode(BindResponse(code, others, controls)) + suffix, code);
  }
}
