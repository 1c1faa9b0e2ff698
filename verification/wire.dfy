/** The fixed headers of the protocol. A request starts with a 23-byte header
    (client id, version, request code, payload size); a response starts with a
    7-byte header (version, response code, payload size). All integers are
    little-endian. */
module Wire {
  import opened Bytes

  const Version: Byte := 1

  const IdSize := 16
  const RequestHeaderSize := 23
  const ResponseHeaderSize := 7

  const OpRegister: U16 := 600
  const OpClientsList: U16 := 601
  const OpPublicKey: U16 := 602
  const OpSendMessage: U16 := 603
  const OpPendingMessages: U16 := 604

  const CodeRegistered: U16 := 2100
  const CodeClientsList: U16 := 2101
  const CodePublicKey: U16 := 2102
  const CodeMessageSent: U16 := 2103
  const CodePendingMessages: U16 := 2104
  const CodeError: U16 := 9000

  /** A 128-bit client identifier as its 16 raw bytes. */
  type Id = s: Bytes | |s| == IdSize witness Repeat(0, IdSize)

  datatype RequestHeader = RequestHeader(clientId: Id, version: Byte, code: U16, payloadSize: U32)

  datatype ResponseHeader = ResponseHeader(version: Byte, code: U16, payloadSize: U32)

  function EncodeRequestHeader(h: RequestHeader): (r: Bytes)
    ensures |r| == RequestHeaderSize
  {
    h.clientId + [h.version] + EncodeU16(h.code) + EncodeU32(h.payloadSize)
  }

  /** The field split of `handle_client`: id, version, `<H` code, `<I` size.
      Every 23 bytes are the encoding of the header they split into, so the
      split loses nothing. */
  function DecodeRequestHeader(b: Bytes): (h: RequestHeader)
    requires |b| == RequestHeaderSize
    ensures EncodeRequestHeader(h) == b
  {
    assert b == b[..16] + [b[16]] + b[17..19] + b[19..23];
    RequestHeader(b[..16], b[16], DecodeU16(b[17..19]), DecodeU32(b[19..23]))
  }

  /** `struct.pack('<BHI', version, code, size)`. */
  function EncodeResponseHeader(h: ResponseHeader): (r: Bytes)
    ensures |r| == ResponseHeaderSize
  {
    [h.version] + EncodeU16(h.code) + EncodeU32(h.payloadSize)
  }

  /** `struct.unpack('<BHI', header)`. Every 7 bytes are the encoding of the
      header they unpack to. */
  function DecodeResponseHeader(b: Bytes): (h: ResponseHeader)
    requires |b| == ResponseHeaderSize
    ensures EncodeResponseHeader(h) == b
  {
    assert b == [b[0]] + b[1..3] + b[3..7];
    ResponseHeader(b[0], DecodeU16(b[1..3]), DecodeU32(b[3..7]))
  }

  /** Decoding an encoded request header gives back its four fields. */
  lemma DecodeEncodeRequestHeader(h: RequestHeader)
    ensures DecodeRequestHeader(EncodeRequestHeader(h)) == h
  {
    var b := EncodeRequestHeader(h);
    assert b[..16] == h.clientId;
    assert b[17..19] == EncodeU16(h.code);
    assert b[19..23] == EncodeU32(h.payloadSize);
    DecodeEncodeU16(h.code);
    DecodeEncodeU32(h.payloadSize);
  }

  /** Decoding an encoded response header gives back its three fields. */
  lemma DecodeEncodeResponseHeader(h: ResponseHeader)
    ensures DecodeResponseHeader(EncodeResponseHeader(h)) == h
  {
    var b := EncodeResponseHeader(h);
    assert b[1..3] == EncodeU16(h.code);
    assert b[3..7] == EncodeU32(h.payloadSize);
    DecodeEncodeU16(h.code);
    DecodeEncodeU32(h.payloadSize);
  }

  /** A complete response: the header `(1, code, len(payload))` followed by
      the payload. Packing a size of 2^32 or more raises in the source, so the
      payload must fit the four-byte size field. */
  function Response(code: U16, payload: Bytes): (r: Bytes)
    requires |payload| < 0x1_0000_0000
    ensures |r| == ResponseHeaderSize + |payload|
    ensures DecodeResponseHeader(r[..ResponseHeaderSize]) == ResponseHeader(Version, code, |payload|)
    ensures r[ResponseHeaderSize..] == payload
  {
    var h := ResponseHeader(Version, code, |payload|);
    DecodeEncodeResponseHeader(h);
    var r := EncodeResponseHeader(h) + payload;
    assert r[..ResponseHeaderSize] == EncodeResponseHeader(h);
    r
  }

  /** The answer of `send_error`: version 1, code 9000, no payload. */
  const ErrorResponse: Bytes := Response(CodeError, [])

  /** The generic error is the same seven bytes whatever went wrong. */
  lemma ErrorResponseBytes()
    ensures ErrorResponse == [1, 0x28, 0x23, 0, 0, 0, 0]
  {
  }

  /** A response that carries a payload is never mistaken for the error. */
  lemma ResponseIsNotError(code: U16, payload: Bytes)
    requires |payload| < 0x1_0000_0000
    requires code != CodeError || |payload| > 0
    ensures Response(code, payload) != ErrorResponse
  {
  }
}
