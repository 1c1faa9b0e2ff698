/** The send-message client: builds a 603 request and reads the 2103 answer.
    The server's 603 handler is empty, so this client is the only written form
    of the layout. */
module SendMessageClient {
  import opened Wrappers
  import opened Bytes
  import opened Wire
  import opened ClientErrors
  import Registry
  import Server

  /** The send-message payload: destination id, kind, content length as a
      four-byte little-endian number, content. */
  function SendMessagePayload(dest: Bytes, msgType: Byte, content: Bytes): (p: Bytes)
    requires |content| < 0x1_0000_0000
    ensures |p| == |dest| + 5 + |content|
  {
    dest + [msgType] + EncodeU32(|content|) + content
  }

  /** A send-message payload as its fields. */
  datatype SendRequest = SendRequest(dest: Id, msgType: Byte, content: Bytes)

  /** A reference reader of that layout, with no counterpart in the source
      (the server's 603 handler is empty): a 16-byte id, a kind byte and a
      length field that matches the number of content bytes that follow. It
      exists to pin the layout the script writes by a round trip. */
  function ParseSendMessagePayload(p: Bytes): (r: Option<SendRequest>)
    ensures r.Some? ==> |p| == 21 + |r.value.content|
  {
    if |p| < 21 then None
    else if DecodeU32(p[17..21]) != |p| - 21 then None
    else Some(SendRequest(p[..16], p[16], p[21..]))
  }

  /** Reading back a payload gives the destination, kind and content it was
      built from. */
  lemma ParseSendMessagePayloadRoundTrip(dest: Id, msgType: Byte, content: Bytes)
    requires |content| < 0x1_0000_0000
    ensures ParseSendMessagePayload(SendMessagePayload(dest, msgType, content))
         == Some(SendRequest(dest, msgType, content))
  {
    var p := SendMessagePayload(dest, msgType, content);
    assert p[17..21] == EncodeU32(|content|);
    DecodeEncodeU32(|content|);
    assert p[..16] == dest;
    assert p[21..] == content;
  }

  /** The request the script sends. A kind outside 1..3 raises before
      anything is built; ids of the wrong length only print a warning and are
      used as given; a length that does not fit four bytes makes
      `to_bytes` raise. The script's content is its own text naming the
      sender; here it is any byte string. */
  function BuildSendMessageRequest(sender: Bytes, dest: Bytes, msgType: int, content: Bytes)
    : (r: Result<Bytes, ClientError>)
    ensures !(1 <= msgType <= 3) ==> r == Err(InvalidMessageType)
    ensures r.Ok? <==> 1 <= msgType <= 3 && |dest| + 5 + |content| < 0x1_0000_0000
    ensures r.Ok? ==>
      && |r.value| == |sender| + 7 + |dest| + 5 + |content|
      && r.value[..|sender|] == sender
      && r.value[|sender|..|sender| + 7] == [Version] + EncodeU16(OpSendMessage) + EncodeU32(|dest| + 5 + |content|)
      && r.value[|sender| + 7..] == SendMessagePayload(dest, msgType, content)
  {
    if !(1 <= msgType <= 3) then Err(InvalidMessageType)
    else if |content| >= 0x1_0000_0000 then Err(SizeOverflow)
    else
      var payload := SendMessagePayload(dest, msgType, content);
      if |payload| >= 0x1_0000_0000 then Err(SizeOverflow)
      else
        var r := sender + [Version] + EncodeU16(OpSendMessage) + EncodeU32(|payload|) + payload;
        assert r[..|sender|] == sender;
        assert r[|sender|..|sender| + 7] == [Version] + EncodeU16(OpSendMessage) + EncodeU32(|payload|);
        assert r[|sender| + 7..] == payload;
        Ok(r)
  }

  /** With a 16-byte sender id the server reads the request's header as
      (sender, 1, 603, payload length) and the payload as exactly the built
      one; its 603 handler is empty, so it answers nothing and changes
      nothing. */
  lemma SendRequestAsServerReadsIt(reg: Registry.Registry, sender: Id, dest: Bytes, msgType: int, content: Bytes, newId: Id)
    requires BuildSendMessageRequest(sender, dest, msgType, content).Ok?
    ensures var request := BuildSendMessageRequest(sender, dest, msgType, content).value;
      var h := DecodeRequestHeader(request[..RequestHeaderSize]);
      && h == RequestHeader(sender, Version, OpSendMessage, |dest| + 5 + |content|)
      && Server.ReadPayload(request, h.payloadSize) == SendMessagePayload(dest, msgType, content)
      && Server.HandleRequest(reg, request, newId) == Server.Step(reg, None)
  {
    var request := BuildSendMessageRequest(sender, dest, msgType, content).value;
    var payload := SendMessagePayload(dest, msgType, content);
    var h := RequestHeader(sender, Version, OpSendMessage, |payload|);
    assert request == EncodeRequestHeader(h) + payload;
    Server.ReadsEncodedRequest(reg, h, payload, [], newId);
    assert request == EncodeRequestHeader(h) + payload + [];
    assert request[..RequestHeaderSize] == EncodeRequestHeader(h);
    DecodeEncodeRequestHeader(h);
  }

  /** What the script makes of the answer. */
  datatype SendOutcome =
    | Sent(dest: Bytes, messageId: U32)   // 2103 with its 20-byte payload
    | Rejected                            // 9000
    | Unexpected(code: U16)               // any other code

  /** Reads the answer: a 7-byte header; for 2103 a payload of exactly 20
      bytes, split into the destination id and a four-byte message id. */
  function ParseSendMessageResponse(resp: Bytes): (r: Result<SendOutcome, ClientError>)
    ensures |resp| < ResponseHeaderSize ==> r == Err(IncompleteHeader)
    ensures |resp| >= ResponseHeaderSize ==>
      var h := DecodeResponseHeader(resp[..ResponseHeaderSize]);
      && (h.code == CodeMessageSent ==>
            && (r.Ok? <==> Min(|resp| - ResponseHeaderSize, h.payloadSize) == 20)
            && (r.Ok? ==> r.value.Sent?)
            && (r.Err? ==> r.error == IncompletePayload))
      && (h.code == CodeError ==> r == Ok(Rejected))
      && (h.code != CodeMessageSent && h.code != CodeError ==> r == Ok(Unexpected(h.code)))
    ensures r.Ok? && r.value.Sent? ==>
      && |resp| >= ResponseHeaderSize + 20
      && DecodeResponseHeader(resp[..ResponseHeaderSize]).code == CodeMessageSent
      && |r.value.dest| == IdSize
      && r.value.dest == resp[ResponseHeaderSize..ResponseHeaderSize + IdSize]
      && EncodeU32(r.value.messageId) == resp[ResponseHeaderSize + IdSize..ResponseHeaderSize + 20]
  {
    if |resp| < ResponseHeaderSize then Err(IncompleteHeader)
    else
      var h := DecodeResponseHeader(resp[..ResponseHeaderSize]);
      if h.code == CodeMessageSent then
        var payload := resp[ResponseHeaderSize..Min(|resp|, ResponseHeaderSize + h.payloadSize)];
        if |payload| != 20 then Err(IncompletePayload)
        else
          Ok(Sent(payload[..16], DecodeU32(payload[16..])))
      else if h.code == CodeError then Ok(Rejected)
      else Ok(Unexpected(h.code))
  }

  /** A 2103 answer whose payload is a destination id and a four-byte
      message id is read back as exactly that id and number. */
  lemma SentResponseRoundTrip(dest: Id, messageId: U32)
    ensures ParseSendMessageResponse(Response(CodeMessageSent, dest + EncodeU32(messageId)))
         == Ok(Sent(dest, messageId))
  {
    var payload := dest + EncodeU32(messageId);
    var resp := Response(CodeMessageSent, payload);
    assert resp[ResponseHeaderSize..] == payload;
    var h := DecodeResponseHeader(resp[..ResponseHeaderSize]);
    assert h.code == CodeMessageSent && h.payloadSize == 20;
    assert resp[ResponseHeaderSize..Min(|resp|, ResponseHeaderSize + h.payloadSize)] == payload;
    assert payload[..16] == dest;
    assert payload[16..] == EncodeU32(messageId);
    DecodeEncodeU32(messageId);
  }

  /** The generic error is read as a rejection. */
  lemma ErrorResponseRejected()
    ensures ParseSendMessageResponse(ErrorResponse) == Ok(Rejected)
  {
    assert ErrorResponse[..ResponseHeaderSize] == ErrorResponse;
  }
}
