/** The client-list client: sends a fixed 601 request, receives the answer
    until its header and declared payload are complete, and splits the payload
    into fixed-size entries. Its entry decoder is the inverse of the server's
    list encoder. */
module ClientsListClient {
  import opened Wrappers
  import opened Bytes
  import opened Wire
  import opened ClientErrors
  import opened Registry
  import Server

  const EntrySize := 271
  const MaxChunk := 4096

  /** The dummy id the script asks with: sixteen 0x01 bytes. */
  const ProbeId: Id := Repeat(1, IdSize)

  /** The 23-byte request: the dummy id, version 1, code 601, an empty
      payload. */
  const ClientsListRequest: Bytes := ProbeId + [Version] + EncodeU16(OpClientsList) + EncodeU32(0)

  /** The server reads the request as the dummy id asking for the list with
      no payload. */
  lemma ClientsListRequestHeader()
    ensures |ClientsListRequest| == RequestHeaderSize
    ensures DecodeRequestHeader(ClientsListRequest) == RequestHeader(ProbeId, Version, OpClientsList, 0)
  {
    DecodeEncodeRequestHeader(RequestHeader(ProbeId, Version, OpClientsList, 0));
  }

  // ---------------------------------------------------------------------
  // Receiving
  // ---------------------------------------------------------------------

  /** The script's receive loops: keeps calling `recv` until `n` bytes have
      arrived, asking each time for what is missing but at most `cap` bytes.
      `stream` is everything the server writes before it closes the
      connection; the i-th call returns the next min(asked, grants[i], bytes
      left) bytes, and past the end of `grants` min(asked, bytes left). An
      empty chunk means the connection is closed and raises. However the
      transport splits the bytes, the outcome is the first `n` bytes of the
      stream or, when it is shorter, the error. */
  method ReceiveExactly(stream: Bytes, grants: seq<nat>, n: nat, cap: nat) returns (r: Result<Bytes, ClientError>)
    requires cap > 0
    requires forall i :: 0 <= i < |grants| ==> grants[i] > 0
    ensures r.Ok? <==> n <= |stream|
    ensures r.Ok? ==> r.value == stream[..n]
    ensures r.Err? ==> r.error == ConnectionClosed
  {
    var received: Bytes := [];
    var total := 0;
    var calls := 0;
    while total < n
      invariant total == |received| <= n
      invariant total <= |stream|
      invariant received == stream[..total]
      decreases n - total
    {
      var asked := Min(cap, n - total);
      var grant := if calls < |grants| then grants[calls] else asked;
      var chunk := stream[total..total + Min(asked, Min(grant, |stream| - total))];
      calls := calls + 1;
      if |chunk| == 0 {
        return Err(ConnectionClosed);
      }
      received := received + chunk;
      total := total + |chunk|;
    }
    return Ok(received);
  }

  // ---------------------------------------------------------------------
  // Entries
  // ---------------------------------------------------------------------

  /** One listed client: its id and the username before the first NUL of
      its field. */
  datatype ClientEntry = ClientEntry(id: Bytes, username: Bytes)

  /** `len(payload) // 271`: the number of whole entries; trailing bytes
      that do not make a whole entry are ignored. */
  function EntryCount(p: Bytes): (n: nat)
    ensures EntrySize * n <= |p| < EntrySize * (n + 1)
  {
    |p| / EntrySize
  }

  /** The entries of a list payload, taken from the front: each entry is 16
      id bytes and a 255-byte username field; a username that is not ASCII
      makes `decode('ascii')` raise. */
  function ParseEntries(p: Bytes): (r: Result<seq<ClientEntry>, ClientError>)
    ensures r.Ok? ==> |r.value| == EntryCount(p)
    ensures r.Ok? ==> forall i :: 0 <= i < |r.value| ==> NUL !in r.value[i].username
    decreases |p|
  {
    if |p| < EntrySize then Ok([])
    else
      var e := ClientEntry(p[..IdSize], BeforeNul(p[IdSize..EntrySize]));
      if !IsAscii(e.username) then Err(NonAsciiUsername)
      else Prepend([e], ParseEntries(p[EntrySize..]))
  }

  /** Whole entries lie inside the payload. */
  lemma EntryBounds(p: Bytes, i: nat)
    requires i < EntryCount(p)
    ensures EntrySize * i + EntrySize <= |p|
  {
    assert EntrySize * i + EntrySize == EntrySize * (i + 1) <= EntrySize * EntryCount(p);
  }

  /** The id bytes of entry i: `payload[271i : 271i + 16]`. */
  function IdField(p: Bytes, i: nat): (f: Bytes)
    requires i < EntryCount(p)
    ensures |f| == IdSize
  {
    EntryBounds(p, i);
    p[EntrySize * i..EntrySize * i + IdSize]
  }

  /** The username field of entry i: `payload[271i + 16 : 271i + 271]`. */
  function NameField(p: Bytes, i: nat): (f: Bytes)
    requires i < EntryCount(p)
    ensures |f| == UsernameFieldSize
  {
    EntryBounds(p, i);
    p[EntrySize * i + IdSize..EntrySize * i + EntrySize]
  }

  /** Past the first entry, the fields of entry i + 1 are those of entry i
      of the remaining bytes. */
  lemma FieldsOfRest(p: Bytes, i: nat)
    requires |p| >= EntrySize
    requires i < EntryCount(p[EntrySize..])
    ensures i + 1 < EntryCount(p)
    ensures IdField(p[EntrySize..], i) == IdField(p, i + 1)
    ensures NameField(p[EntrySize..], i) == NameField(p, i + 1)
  {
    var rest := p[EntrySize..];
    assert EntryCount(rest) == EntryCount(p) - 1;
    EntryBounds(rest, i);
    assert EntrySize * (i + 1) == EntrySize * i + EntrySize;
  }

  /** Entry i of a decoded payload is the id of its 16 bytes and the username
      before the first NUL of its 255-byte field. */
  lemma {:induction false} ParsedEntryAt(p: Bytes, i: nat)
    requires ParseEntries(p).Ok?
    requires i < EntryCount(p)
    ensures ParseEntries(p).value[i] == ClientEntry(IdField(p, i), BeforeNul(NameField(p, i)))
    decreases i
  {
    var rest := p[EntrySize..];
    var e := ClientEntry(p[..IdSize], BeforeNul(p[IdSize..EntrySize]));
    assert ParseEntries(p) == Prepend([e], ParseEntries(rest));
    if i == 0 {
      assert IdField(p, 0) == p[..IdSize];
      assert NameField(p, 0) == p[IdSize..EntrySize];
    } else {
      assert EntryCount(rest) == EntryCount(p) - 1;
      ParsedEntryAt(rest, i - 1);
      FieldsOfRest(p, i - 1);
    }
  }

  /** Decoding fails exactly when some whole entry has a username that is
      not ASCII. */
  lemma {:induction false} ParseEntriesFails(p: Bytes)
    ensures ParseEntries(p).Err? <==>
      exists i :: 0 <= i < EntryCount(p) && !IsAscii(BeforeNul(NameField(p, i)))
    decreases |p|
  {
    if |p| >= EntrySize {
      var rest := p[EntrySize..];
      assert NameField(p, 0) == p[IdSize..EntrySize];
      if IsAscii(BeforeNul(p[IdSize..EntrySize])) {
        ParseEntriesFails(rest);
        if ParseEntries(rest).Err? {
          var j :| 0 <= j < EntryCount(rest) && !IsAscii(BeforeNul(NameField(rest, j)));
          FieldsOfRest(p, j);
        } else {
          forall i | 0 <= i < EntryCount(p)
            ensures IsAscii(BeforeNul(NameField(p, i)))
          {
            if i > 0 {
              assert EntryCount(rest) == EntryCount(p) - 1;
              FieldsOfRest(p, i - 1);
            }
          }
        }
      }
    }
  }

  /** The entry at index i, read in place. */
  lemma EntryInPlace(p: Bytes, i: nat)
    requires EntrySize * (i + 1) <= |p|
    ensures var q := p[EntrySize * i..];
      && q[..IdSize] == p[EntrySize * i..EntrySize * i + IdSize]
      && q[IdSize..EntrySize] == p[EntrySize * i + IdSize..EntrySize * i + EntrySize]
      && q[EntrySize..] == p[EntrySize * (i + 1)..]
  {
  }

  /** The script's loop over the entry indices 0 .. count-1. */
  method DecodeClientEntries(payload: Bytes) returns (r: Result<seq<ClientEntry>, ClientError>)
    ensures r == ParseEntries(payload)
  {
    var count := |payload| / EntrySize;
    var entries: seq<ClientEntry> := [];
    var i := 0;
    assert payload[EntrySize * i..] == payload;
    PrependNothing(ParseEntries(payload));
    while i < count
      invariant i <= count
      invariant ParseEntries(payload) == Prepend(entries, ParseEntries(payload[EntrySize * i..]))
    {
      var startIdx := i * EntrySize;
      var clientId := payload[startIdx..startIdx + IdSize];
      var usernameField := payload[startIdx + IdSize..startIdx + IdSize + 255];
      var username := BeforeNul(usernameField);
      EntryInPlace(payload, i);
      if !IsAscii(username) {
        return Err(NonAsciiUsername);
      }
      PrependTwice(entries, [ClientEntry(clientId, username)], ParseEntries(payload[EntrySize * (i + 1)..]));
      entries := entries + [ClientEntry(clientId, username)];
      i := i + 1;
    }
    assert ParseEntries(payload[EntrySize * i..]) == Ok([]);
    assert entries + [] == entries;
    return Ok(entries);
  }

  /** What the script makes of the whole answer. It never looks at the
      response code: a size of 0, the generic error included, means no other
      clients, and any payload is split into entries. */
  function ParseClientsListResponse(stream: Bytes): (r: Result<seq<ClientEntry>, ClientError>)
    ensures |stream| < ResponseHeaderSize ==> r == Err(ConnectionClosed)
    ensures |stream| >= ResponseHeaderSize ==>
      var h := DecodeResponseHeader(stream[..ResponseHeaderSize]);
      && (h.payloadSize == 0 ==> r == Ok([]))
      && (h.payloadSize > |stream| - ResponseHeaderSize ==> r == Err(ConnectionClosed))
      && (r.Ok? ==> |r.value| == h.payloadSize / EntrySize)
  {
    if |stream| < ResponseHeaderSize then Err(ConnectionClosed)
    else
      var h := DecodeResponseHeader(stream[..ResponseHeaderSize]);
      if h.payloadSize == 0 then Ok([])
      else if |stream| - ResponseHeaderSize < h.payloadSize then Err(ConnectionClosed)
      else ParseEntries(stream[ResponseHeaderSize..ResponseHeaderSize + h.payloadSize])
  }

  /** The script from the request on: the header loop, the payload loop in
      chunks of at most 4096 bytes, and the entry loop. */
  method ReceiveClientsList(stream: Bytes, headerGrants: seq<nat>, payloadGrants: seq<nat>)
    returns (r: Result<seq<ClientEntry>, ClientError>)
    requires forall i :: 0 <= i < |headerGrants| ==> headerGrants[i] > 0
    requires forall i :: 0 <= i < |payloadGrants| ==> payloadGrants[i] > 0
    ensures r == ParseClientsListResponse(stream)
  {
    var header := ReceiveExactly(stream, headerGrants, ResponseHeaderSize, ResponseHeaderSize);
    if header.Err? {
      return Err(header.error);
    }
    var h := DecodeResponseHeader(header.value);
    if h.payloadSize == 0 {
      return Ok([]);
    }
    var payload := ReceiveExactly(stream[ResponseHeaderSize..], payloadGrants, h.payloadSize, MaxChunk);
    if payload.Err? {
      return Err(payload.error);
    }
    assert payload.value == stream[ResponseHeaderSize..ResponseHeaderSize + h.payloadSize];
    r := DecodeClientEntries(payload.value);
  }

  /** The generic error reads as an empty list. */
  lemma ErrorReadsAsNoClients()
    ensures ParseClientsListResponse(ErrorResponse) == Ok([])
  {
    assert ErrorResponse[..ResponseHeaderSize] == ErrorResponse;
  }

  // ---------------------------------------------------------------------
  // Round trip with the server's list
  // ---------------------------------------------------------------------

  /** The (id, username) pairs of `users`, in order. */
  function Listed(users: seq<User>): (r: seq<ClientEntry>)
    ensures |r| == |users|
    ensures forall i :: 0 <= i < |users| ==> r[i] == ClientEntry(users[i].id, users[i].username)
  {
    if |users| == 0 then [] else [ClientEntry(users[0].id, users[0].username)] + Listed(users[1..])
  }

  /** Decoding the entries the server writes for users with valid usernames
      recovers each user's id and username, in order. This rests on the
      usernames having at most 254 bytes, no NUL, and only ASCII. */
  lemma {:induction false} ParseServerEntries(users: seq<User>)
    requires forall i :: 0 <= i < |users| ==> ValidUsername(users[i].username)
    ensures ParseEntries(Server.Entries(users)) == Ok(Listed(users))
  {
    if |users| > 0 {
      var u := users[0];
      var head := Server.Entry(u);
      var tail := Server.Entries(users[1..]);
      var p := head + tail;
      assert p == Server.Entries(users);
      assert p[..IdSize] == head[..IdSize];
      assert p[IdSize..EntrySize] == head[IdSize..];
      assert p[EntrySize..] == tail;
      ParseServerEntries(users[1..]);
    }
  }

  /** The whole list payload of a valid registry decodes to the id and
      username of every user but the requester, in registration order. */
  lemma ListPayloadRoundTrip(reg: Registry, requester: Bytes)
    requires Valid(reg)
    ensures ParseEntries(Server.ListPayload(reg, requester)) == Ok(Listed(Server.Others(reg, requester)))
  {
    var others := Server.Others(reg, requester);
    forall i | 0 <= i < |others|
      ensures ValidUsername(others[i].username)
    {
      assert others[i] in reg;
    }
    ParseServerEntries(others);
  }

  /** The whole exchange: the server answers the script's request without
      touching the registry, and the script reads from the answer every
      registered user but the one under the dummy id, in registration order. */
  lemma ClientsListExchange(reg: Registry, newId: Id)
    requires Valid(reg)
    requires |Server.ListPayload(reg, ProbeId)| < 0x1_0000_0000
    ensures var s := Server.HandleRequest(reg, ClientsListRequest, newId);
      && s.registry == reg
      && s.response.Some?
      && ParseClientsListResponse(s.response.value) == Ok(Listed(Server.Others(reg, ProbeId)))
  {
    ClientsListRequestHeader();
    assert ClientsListRequest[..RequestHeaderSize] == ClientsListRequest;
    var payload := Server.ListPayload(reg, ProbeId);
    var resp := Response(CodeClientsList, payload);
    assert resp[ResponseHeaderSize..ResponseHeaderSize + |payload|] == payload;
    ListPayloadRoundTrip(reg, ProbeId);
    if |payload| == 0 {
      Server.ListPayloadLength(reg, ProbeId);
      assert Server.Others(reg, ProbeId) == [];
    }
  }
}
