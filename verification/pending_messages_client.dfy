/** The pending-messages client: builds a 604 request and decodes the
    envelopes of a 2104 answer. The server's 604 handler is empty, so this
    client's decoder is the only written form of the envelope layout. */
module PendingMessagesClient {
  import opened Wrappers
  import opened Bytes
  import opened Wire
  import opened ClientErrors
  import Registry
  import Server

  /** Sender id, message id, kind and content length come before the content. */
  const EnvelopeHeaderSize := 25

  /** The 604 request for `clientId`, with an empty payload. An id that is
      not 16 bytes is refused before anything is sent. */
  function BuildPendingRequest(clientId: Bytes): (r: Result<Bytes, ClientError>)
    ensures r.Err? <==> |clientId| != IdSize
    ensures r.Ok? ==>
      && |r.value| == RequestHeaderSize
      && DecodeRequestHeader(r.value) == RequestHeader(clientId, Version, OpPendingMessages, 0)
  {
    if |clientId| != IdSize then Err(InvalidIdLength)
    else
      var h := RequestHeader(clientId, Version, OpPendingMessages, 0);
      DecodeEncodeRequestHeader(h);
      Ok(clientId + [Version] + EncodeU16(OpPendingMessages) + EncodeU32(0))
  }

  /** The server's 604 handler is empty: the request gets no answer and the
      registry is left as it was. */
  lemma PendingRequestUnanswered(reg: Registry.Registry, clientId: Bytes, newId: Id)
    requires BuildPendingRequest(clientId).Ok?
    ensures Server.HandleRequest(reg, BuildPendingRequest(clientId).value, newId) == Server.Step(reg, None)
  {
  }

  /** One queued message as the client reads it. */
  datatype Envelope = Envelope(sender: Bytes, messageId: U32, msgType: Byte, content: Option<Bytes>)

  /** Envelopes that can be written out and read back: a 16-byte sender and
      content that is either absent or non-empty and short enough for its
      four-byte length field. */
  predicate WellFormed(e: Envelope)
  {
    |e.sender| == IdSize && (e.content.Some? ==> 0 < |e.content.value| < 0x1_0000_0000)
  }

  function ContentLength(e: Envelope): U32
    requires WellFormed(e)
  {
    match e.content
    case None => 0
    case Some(c) => |c|
  }

  /** A reference writer of the envelope layout the script reads, with no
      counterpart in the source (the server's 604 handler is empty): sender
      id, message id, kind, content length, content. It exists to pin the
      decoder by a round trip. */
  function EncodeEnvelope(e: Envelope): (r: Bytes)
    requires WellFormed(e)
    ensures |r| == EnvelopeHeaderSize + ContentLength(e)
  {
    e.sender + EncodeU32(e.messageId) + [e.msgType] + EncodeU32(ContentLength(e))
      + (match e.content case None => [] case Some(c) => c)
  }

  /** Reference writer of a whole 2104 payload: the envelopes one after
      the other. */
  function EncodeEnvelopes(es: seq<Envelope>): Bytes
    requires forall i :: 0 <= i < |es| ==> WellFormed(es[i])
  {
    if |es| == 0 then [] else EncodeEnvelope(es[0]) + EncodeEnvelopes(es[1..])
  }

  /** The content length field of the envelope at the front of `p`. */
  function ContentSizeField(p: Bytes): U32
    requires |p| >= EnvelopeHeaderSize
  {
    DecodeU32(p[21..25])
  }

  /** The envelope at the front of `p`. A content length of 0 means absent
      content; a content length reaching past the end takes what is left,
      since a Python slice stops at the end of the bytes. */
  function FirstEnvelope(p: Bytes): Envelope
    requires |p| >= EnvelopeHeaderSize
  {
    var size := ContentSizeField(p);
    var content := if size > 0 then Some(p[EnvelopeHeaderSize..Min(|p|, EnvelopeHeaderSize + size)]) else None;
    Envelope(p[..16], DecodeU32(p[16..20]), p[20], content)
  }

  /** The bytes after the front envelope; none when its content length
      reaches past the end, which ends the loop. */
  function AfterFirst(p: Bytes): (rest: Bytes)
    requires |p| >= EnvelopeHeaderSize
    ensures |rest| < |p|
  {
    var end := EnvelopeHeaderSize + ContentSizeField(p);
    if end <= |p| then p[end..] else []
  }

  /** The decoding of a 2104 payload, one envelope at a time from the front.
      Fewer than 25 bytes left for an envelope header is an error
      (`struct.unpack` or an index raises). */
  function ParseEnvelopes(p: Bytes): (r: Result<seq<Envelope>, ClientError>)
    ensures r.Ok? ==> EnvelopeHeaderSize * |r.value| <= |p|

    ensures r.Ok? && |p| > 0 ==> |r.value| > 0
    decreases |p|
  {
    if |p| == 0 then Ok([])
    else if |p| < EnvelopeHeaderSize then Err(MalformedEnvelope)
    else Prepend([FirstEnvelope(p)], ParseEnvelopes(AfterFirst(p)))
  }

  /** The fields of the envelope starting at `start`, read in place. */
  lemma EnvelopeInPlace(payload: Bytes, start: nat, size: U32)
    requires start + EnvelopeHeaderSize <= |payload|
    requires size == DecodeU32(payload[start + 21..start + 25])
    ensures ContentSizeField(payload[start..]) == size
    ensures FirstEnvelope(payload[start..]).sender == payload[start..start + 16]
    ensures FirstEnvelope(payload[start..]).messageId == DecodeU32(payload[start + 16..start + 20])
    ensures FirstEnvelope(payload[start..]).msgType == payload[start + 20]
    ensures size == 0 ==> FirstEnvelope(payload[start..]).content == None
    ensures size > 0 ==>
      FirstEnvelope(payload[start..]).content == Some(payload[start + 25..Min(|payload|, start + 25 + size)])
  {
    var p := payload[start..];
    assert p[21..25] == payload[start + 21..start + 25];
    assert p[16..20] == payload[start + 16..start + 20];
    assert p[..16] == payload[start..start + 16];
    assert p[EnvelopeHeaderSize..Min(|p|, EnvelopeHeaderSize + size)]
        == payload[start + 25..Min(|payload|, start + 25 + size)];
  }

  /** One turn of the decoding loop: the envelope at `start` joins the
      decoded ones and decoding goes on after its content, or stops when the
      content reaches past the end. */
  lemma LoopStep(payload: Bytes, start: nat, msgs: seq<Envelope>)
    requires start + EnvelopeHeaderSize <= |payload|
    ensures var p := payload[start..];
      var next := start + EnvelopeHeaderSize + ContentSizeField(p);
      && (next <= |payload| ==>
            Prepend(msgs, ParseEnvelopes(p)) == Prepend(msgs + [FirstEnvelope(p)], ParseEnvelopes(payload[next..])))
      && (next > |payload| ==>
            Prepend(msgs, ParseEnvelopes(p)) == Ok(msgs + [FirstEnvelope(p)]))
  {
    var p := payload[start..];
    var e := FirstEnvelope(p);
    assert ParseEnvelopes(p) == Prepend([e], ParseEnvelopes(AfterFirst(p)));
    PrependTwice(msgs, [e], ParseEnvelopes(AfterFirst(p)));
    var next := start + EnvelopeHeaderSize + ContentSizeField(p);
    if next <= |payload| {
      assert AfterFirst(p) == payload[next..];
    } else {
      assert AfterFirst(p) == [];
      assert msgs + [e] + [] == msgs + [e];
    }
  }

  /** One pass of the script's loop body: reads the envelope at `offset`
      field by field and returns it with the offset after it. */
  method ReadEnvelope(payload: Bytes, offset: nat) returns (e: Envelope, next: nat)
    requires offset + EnvelopeHeaderSize <= |payload|
    ensures e == FirstEnvelope(payload[offset..])
    ensures next == offset + EnvelopeHeaderSize + ContentSizeField(payload[offset..])
  {
    next := offset;
    var sender := payload[next..next + 16];
    next := next + 16;
    var msgId := DecodeU32(payload[next..next + 4]);
    next := next + 4;
    var msgType := payload[next];
    next := next + 1;
    var size := DecodeU32(payload[next..next + 4]);
    next := next + 4;
    var content: Option<Bytes> := None;
    if size > 0 {
      content := Some(payload[next..Min(|payload|, next + size)]);
      next := next + size;
    }
    e := Envelope(sender, msgId, msgType, content);
    EnvelopeInPlace(payload, offset, size);
  }

  /** The script's decoding loop over a 2104 payload. */
  method DecodeEnvelopes(payload: Bytes) returns (r: Result<seq<Envelope>, ClientError>)
    ensures r == ParseEnvelopes(payload)
  {
    var offset := 0;
    var msgs: seq<Envelope> := [];
    assert payload[offset..] == payload;
    PrependNothing(ParseEnvelopes(payload));
    while offset < |payload|
      invariant offset <= |payload| ==> ParseEnvelopes(payload) == Prepend(msgs, ParseEnvelopes(payload[offset..]))
      invariant offset > |payload| ==> ParseEnvelopes(payload) == Ok(msgs)
      decreases |payload| - offset
    {
      // Any of the reads raises when fewer than 25 bytes are left.
      if |payload| - offset < EnvelopeHeaderSize {
        return Err(MalformedEnvelope);
      }
      LoopStep(payload, offset, msgs);
      var e, next := ReadEnvelope(payload, offset);
      offset := next;
      msgs := msgs + [e];
    }
    if offset == |payload| {
      assert payload[offset..] == [];
      assert msgs + [] == msgs;
    }
    return Ok(msgs);
  }

  /** Decoding the concatenation of well-formed envelopes gives back the
      same envelopes, in order and just as many. */
  lemma {:induction false} ParseEncodedEnvelopes(es: seq<Envelope>)
    requires forall i :: 0 <= i < |es| ==> WellFormed(es[i])
    ensures ParseEnvelopes(EncodeEnvelopes(es)) == Ok(es)
  {
    if |es| > 0 {
      var e := es[0];
      var head := EncodeEnvelope(e);
      var tail := EncodeEnvelopes(es[1..]);
      var p := head + tail;
      assert p[..16] == e.sender;
      assert p[16..20] == EncodeU32(e.messageId);
      assert p[20] == e.msgType;
      assert p[21..25] == EncodeU32(ContentLength(e));
      DecodeEncodeU32(e.messageId);
      DecodeEncodeU32(ContentLength(e));
      var end := EnvelopeHeaderSize + ContentLength(e);
      assert p[end..] == tail;
      match e.content {
        case None =>
        case Some(c) => assert p[EnvelopeHeaderSize..end] == c;
      }
      ParseEncodedEnvelopes(es[1..]);
      assert [e] + es[1..] == es;
    }
  }

  /** A content length of 0 gives absent content and moves straight on to
      the next envelope. */
  lemma ZeroLengthContent(p: Bytes)
    requires |p| >= EnvelopeHeaderSize
    requires DecodeU32(p[21..25]) == 0
    ensures ParseEnvelopes(p)
         == Prepend([Envelope(p[..16], DecodeU32(p[16..20]), p[20], None)], ParseEnvelopes(p[EnvelopeHeaderSize..]))
  {
  }

  /** An envelope that ends the payload is the last one decoded. */
  lemma LastEnvelope(p: Bytes)
    requires |p| >= EnvelopeHeaderSize
    requires AfterFirst(p) == []
    ensures ParseEnvelopes(p) == Ok([FirstEnvelope(p)])
  {
    assert ParseEnvelopes([]) == Ok([]);
    assert [FirstEnvelope(p)] + [] == [FirstEnvelope(p)];
  }

  /** An envelope whose content length reaches past the end of the payload is
      still accepted, with the content cut short: the decoder does not check
      that the declared content is all there. */
  lemma TruncatedContentAccepted(p: Bytes)
    requires |p| >= EnvelopeHeaderSize
    requires DecodeU32(p[21..25]) > |p| - EnvelopeHeaderSize
    ensures ParseEnvelopes(p)
         == Ok([Envelope(p[..16], DecodeU32(p[16..20]), p[20], Some(p[EnvelopeHeaderSize..]))])
  {
    var size := ContentSizeField(p);
    assert AfterFirst(p) == [];
    LastEnvelope(p);
    assert p[EnvelopeHeaderSize..Min(|p|, EnvelopeHeaderSize + size)] == p[EnvelopeHeaderSize..];
  }

  /** What the script makes of the answer. */
  datatype PendingOutcome =
    | Messages(envelopes: seq<Envelope>)   // 2104
    | Rejected                             // 9000
    | Ignored(code: U16)                   // any other code: nothing is done

  /** Reads the answer: a 7-byte header; for 2104 with size 0 no messages and
      no decoding, otherwise the declared payload decoded envelope by
      envelope. */
  function ParsePendingResponse(resp: Bytes): (r: Result<PendingOutcome, ClientError>)
    ensures |resp| < ResponseHeaderSize ==> r == Err(IncompleteHeader)
    ensures (|resp| >= ResponseHeaderSize
             && DecodeResponseHeader(resp[..ResponseHeaderSize]).code == CodePendingMessages
             && DecodeResponseHeader(resp[..ResponseHeaderSize]).payloadSize == 0)
        ==> r == Ok(Messages([]))
    ensures |resp| >= ResponseHeaderSize ==>
      var h := DecodeResponseHeader(resp[..ResponseHeaderSize]);
      && (h.code == CodeError ==> r == Ok(Rejected))
      && (h.code != CodePendingMessages && h.code != CodeError ==> r == Ok(Ignored(h.code)))
      && (h.code == CodePendingMessages && h.payloadSize > 0 ==>
            (r.Ok? <==> ParseEnvelopes(resp[ResponseHeaderSize..Min(|resp|, ResponseHeaderSize + h.payloadSize)]).Ok?))
  {
    if |resp| < ResponseHeaderSize then Err(IncompleteHeader)
    else
      var h := DecodeResponseHeader(resp[..ResponseHeaderSize]);
      if h.code == CodePendingMessages then
        if h.payloadSize == 0 then Ok(Messages([]))
        else
          match ParseEnvelopes(resp[ResponseHeaderSize..Min(|resp|, ResponseHeaderSize + h.payloadSize)])
          case Ok(es) => Ok(Messages(es))
          case Err(e) => Err(e)
      else if h.code == CodeError then Ok(Rejected)
      else Ok(Ignored(h.code))
  }

  /** A 2104 answer carrying encoded envelopes is read back as exactly those
      envelopes, including the empty answer. */
  lemma PendingResponseRoundTrip(es: seq<Envelope>)
    requires forall i :: 0 <= i < |es| ==> WellFormed(es[i])
    requires |EncodeEnvelopes(es)| < 0x1_0000_0000
    ensures ParsePendingResponse(Response(CodePendingMessages, EncodeEnvelopes(es))) == Ok(Messages(es))
  {
    var payload := EncodeEnvelopes(es);
    var resp := Response(CodePendingMessages, payload);
    assert resp[ResponseHeaderSize..Min(|resp|, ResponseHeaderSize + |payload|)] == payload;
    ParseEncodedEnvelopes(es);
  }
}
