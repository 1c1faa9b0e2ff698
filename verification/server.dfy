/** Request handling of `MessageUServer`: the header read and opcode routing of
    `handle_client`, the registration, client-list and public-key handlers and
    `send_error`. Every handler runs under the server's one lock, so a
    connection is modelled as one atomic step from the registry and the bytes
    the client wrote to the new registry and the bytes written back, if any. */
module Server {
  import opened Wrappers
  import opened Bytes
  import opened Wire
  import opened Registry

  /** The outcome of one connection. `None` means the server closed the
      connection without answering. */
  datatype Step = Step(registry: Registry, response: Option<Bytes>)

  const RegistrationPayloadSize := 415
  const ListEntrySize := 271

  // ---------------------------------------------------------------------
  // Registration (600)
  // ---------------------------------------------------------------------

  /** A registration payload as the handler reads it. */
  datatype Registration = Registration(username: Bytes, publicKey: PublicKey)

  /** Reads a registration payload: exactly 415 bytes, a username field of
      255 bytes holding a NUL, an ASCII username before that NUL, and a
      160-byte key. None stands for each `ValueError` and `UnicodeDecodeError`
      the handler turns into the generic error. */
  function ParseRegistration(payload: Bytes): (r: Option<Registration>)
    ensures r.Some? <==>
      && |payload| == RegistrationPayloadSize
      && NUL in payload[..UsernameFieldSize]
      && IsAscii(BeforeNul(payload[..UsernameFieldSize]))
    ensures r.Some? ==>
      && ValidUsername(r.value.username)
      && r.value.username == BeforeNul(payload[..UsernameFieldSize])
      && r.value.publicKey == payload[UsernameFieldSize..]
  {
    if |payload| != RegistrationPayloadSize then None
    else
      var field := payload[..UsernameFieldSize];
      match FindNul(field)
      case None => None
      case Some(k) =>
        var username := field[..k];
        if !IsAscii(username) then None
        else Some(Registration(username, payload[UsernameFieldSize..]))
  }

  /** The registration payload a client builds: the username, its NUL and
      NUL padding to 255 bytes, then the key. */
  function EncodeRegistration(rg: Registration): (r: Bytes)
    requires ValidUsername(rg.username)
    ensures |r| == RegistrationPayloadSize
  {
    PadNul(rg.username + [NUL], UsernameFieldSize) + rg.publicKey
  }

  /** Every valid username and key survive the trip through the payload. */
  lemma ParseEncodeRegistration(rg: Registration)
    requires ValidUsername(rg.username)
    ensures ParseRegistration(EncodeRegistration(rg)) == Some(rg)
  {
    var p := EncodeRegistration(rg);
    assert p[..UsernameFieldSize] == PadNul(rg.username + [NUL], UsernameFieldSize);
    BeforeNulOfPadded(rg.username, UsernameFieldSize);
    assert p[UsernameFieldSize..] == rg.publicKey;
  }

  /** `handle_registration`: rejects a malformed payload or a username some
      stored user already has with the generic error; otherwise stores the
      new user under the id the generator produced and answers 2100 with
      that id. */
  function HandleRegistration(reg: Registry, payload: Bytes, newId: Id): (s: Step)
    ensures s.response.Some?
    ensures s.registry == reg <==> s.response.value == ErrorResponse
    ensures s.response.value != ErrorResponse <==>
      && ParseRegistration(payload).Some?
      && !HasUsername(reg, BeforeNul(payload[..UsernameFieldSize]))
    ensures s.response.value != ErrorResponse ==>
      && s.response.value == Response(CodeRegistered, newId)
      && s.registry == Put(reg, User(newId, BeforeNul(payload[..UsernameFieldSize]), payload[UsernameFieldSize..]))
      && User(newId, BeforeNul(payload[..UsernameFieldSize]), payload[UsernameFieldSize..]) in s.registry
      && (!HasId(reg, newId) ==>
            s.registry == reg + [User(newId, BeforeNul(payload[..UsernameFieldSize]), payload[UsernameFieldSize..])])
    ensures Valid(reg) ==> Valid(s.registry)
  {
    match ParseRegistration(payload)
    case None => Step(reg, Some(ErrorResponse))
    case Some(rq) =>
      if HasUsername(reg, rq.username) then Step(reg, Some(ErrorResponse))
      else
        var u := User(newId, rq.username, rq.publicKey);
        var r := Put(reg, u);
        ResponseIsNotError(CodeRegistered, newId);
        assert u in r && u !in reg;
        assert Valid(reg) ==> Valid(r) by {
          if Valid(reg) { PutPreservesValid(reg, u); }
        }
        Step(r, Some(Response(CodeRegistered, newId)))
  }

  // ---------------------------------------------------------------------
  // Client list (601)
  // ---------------------------------------------------------------------

  /** The users the list reports to `requester`: all of them, in insertion
      order, except the one stored under the requester's own id. */
  function Others(reg: Registry, requester: Bytes): (r: seq<User>)
    ensures |r| <= |reg|
    ensures forall u :: u in r <==> u in reg && u.id != requester
  {
    if |reg| == 0 then []
    else if reg[0].id != requester then [reg[0]] + Others(reg[1..], requester)
    else Others(reg[1..], requester)
  }

  /** One list entry: the id, then the username NUL-terminated and padded
      with NUL to 255 bytes. */
  function Entry(u: User): (r: Bytes)
    ensures |r| >= ListEntrySize
    ensures |u.username| < UsernameFieldSize ==> |r| == ListEntrySize
    ensures |r| > IdSize + |u.username|
    ensures r[..IdSize] == u.id
    ensures r[IdSize..IdSize + |u.username|] == u.username
    ensures |u.username| < UsernameFieldSize ==>
      r[IdSize + |u.username|..] == Repeat(NUL, UsernameFieldSize - |u.username|)
    ensures NUL !in u.username && |u.username| < UsernameFieldSize ==>
      BeforeNul(r[IdSize..]) == u.username
  {
    var field := PadNul(u.username + [NUL], UsernameFieldSize);
    assert field[..|u.username|] == u.username;
    assert (u.id + field)[IdSize..IdSize + |u.username|] == field[..|u.username|];
    assert (u.id + field)[IdSize + |u.username|..] == field[|u.username|..];
    assert NUL !in u.username && |u.username| < UsernameFieldSize ==>
      BeforeNul(field) == u.username by {
      if NUL !in u.username && |u.username| < UsernameFieldSize {
        BeforeNulOfPadded(u.username, UsernameFieldSize);
      }
    }
    assert (u.id + field)[IdSize..] == field;
    u.id + field
  }

  /** The entries of `users`, one after the other. */
  function Entries(users: seq<User>): Bytes
  {
    if |users| == 0 then [] else Entry(users[0]) + Entries(users[1..])
  }

  /** The payload of the client-list answer. */
  function ListPayload(reg: Registry, requester: Bytes): Bytes
  {
    Entries(Others(reg, requester))
  }

  /** `Others` keeps registration order: a user stored last is listed last,
      unless it is the requester. Together with the membership clause of
      `Others` this fixes the list completely. */
  lemma {:induction false} OthersAppend(reg: Registry, u: User, requester: Bytes)
    ensures Others(reg + [u], requester)
         == Others(reg, requester) + (if u.id != requester then [u] else [])
    decreases |reg|
  {
    if |reg| == 0 {
      assert reg + [u] == [u];
      assert [u][1..] == [];
    } else {
      assert (reg + [u])[0] == reg[0];
      assert (reg + [u])[1..] == reg[1..] + [u];
      OthersAppend(reg[1..], u, requester);
    }
  }

  /** The entries of users listed one after another are the entries of each
      in that order. */
  lemma {:induction false} EntriesAppend(users: seq<User>, u: User)
    ensures Entries(users + [u]) == Entries(users) + Entry(u)
    decreases |users|
  {
    if |users| == 0 {
      assert users + [u] == [u];
      assert [u][1..] == [];
    } else {
      assert (users + [u])[0] == users[0];
      assert (users + [u])[1..] == users[1..] + [u];
      EntriesAppend(users[1..], u);
    }
  }

  /** The list payload grows in registration order: registering one more
      user adds that user's entry at the end, unless it is the requester. */
  lemma ListPayloadAppend(reg: Registry, u: User, requester: Bytes)
    ensures ListPayload(reg + [u], requester)
         == ListPayload(reg, requester) + (if u.id != requester then Entry(u) else [])
  {
    OthersAppend(reg, u, requester);
    if u.id != requester {
      EntriesAppend(Others(reg, requester), u);
    } else {
      assert Others(reg, requester) + [] == Others(reg, requester);
    }
  }

  /** Usernames that fit the field give entries of exactly 271 bytes each. */
  lemma {:induction false} EntriesLength(users: seq<User>)
    requires forall i :: 0 <= i < |users| ==> |users[i].username| < UsernameFieldSize
    ensures |Entries(users)| == ListEntrySize * |users|
  {
    if |users| > 0 {
      EntriesLength(users[1..]);
    }
  }

  /** With that fixed stride, entry i occupies bytes [271i, 271i + 271). */
  lemma {:induction false} EntriesBlock(users: seq<User>, i: nat)
    requires forall j :: 0 <= j < |users| ==> |users[j].username| < UsernameFieldSize
    requires i < |users|
    ensures |Entries(users)| == ListEntrySize * |users|
    ensures Entries(users)[ListEntrySize * i .. ListEntrySize * i + ListEntrySize] == Entry(users[i])
  {
    EntriesLength(users);
    var rest := users[1..];
    var head := Entry(users[0]);
    assert |head| == ListEntrySize;
    assert Entries(users) == head + Entries(rest);
    if i == 0 {
      assert (head + Entries(rest))[..ListEntrySize] == head;
    } else {
      EntriesBlock(rest, i - 1);
      var k := ListEntrySize * (i - 1);
      assert ListEntrySize * i == |head| + k;
      assert rest[i - 1] == users[i];
      SliceOfSuffix(head, Entries(rest), k, k + ListEntrySize);
    }
  }

  lemma SliceOfSuffix(a: Bytes, b: Bytes, i: nat, j: nat)
    requires i <= j <= |b|
    ensures (a + b)[|a| + i .. |a| + j] == b[i..j]
  {
  }

  /** In a valid registry the list payload is 271 bytes per reported user. */
  lemma ListPayloadLength(reg: Registry, requester: Bytes)
    requires Valid(reg)
    ensures |ListPayload(reg, requester)| == ListEntrySize * |Others(reg, requester)|
  {
    var others := Others(reg, requester);
    forall i | 0 <= i < |others|
      ensures |others[i].username| < UsernameFieldSize
    {
      assert others[i] in reg;
    }
    EntriesLength(others);
  }

  /** `handle_clients_list`: answers 2101 with the entries of every user but
      the requester. The registry is read, never changed. A payload too long
      for the four-byte size field makes `struct.pack` raise, which the
      handler turns into the generic error. */
  function HandleClientsList(reg: Registry, requester: Bytes): (s: Step)
    ensures s.registry == reg
    ensures s.response.Some?
    ensures |ListPayload(reg, requester)| < 0x1_0000_0000 ==>
      s.response.value == Response(CodeClientsList, ListPayload(reg, requester))
    ensures |ListPayload(reg, requester)| >= 0x1_0000_0000 ==>
      s.response.value == ErrorResponse
  {
    var payload := ListPayload(reg, requester);
    if |payload| < 0x1_0000_0000 then Step(reg, Some(Response(CodeClientsList, payload)))
    else Step(reg, Some(ErrorResponse))
  }

  // ---------------------------------------------------------------------
  // Public key (602)
  // ---------------------------------------------------------------------

  /** `handle_public_key`: the payload is the 16-byte id asked about; an
      unknown id or a payload of another length gets the generic error;
      otherwise the answer is 2102 with the id and the stored key. */
  function HandlePublicKey(reg: Registry, payload: Bytes): (s: Step)
    ensures s.registry == reg
    ensures s.response.Some?
    ensures s.response.value == ErrorResponse <==> |payload| != IdSize || !HasId(reg, payload)
    ensures s.response.value != ErrorResponse ==>
      && |s.response.value| == ResponseHeaderSize + IdSize + PublicKeySize
      && DecodeResponseHeader(s.response.value[..ResponseHeaderSize])
           == ResponseHeader(Version, CodePublicKey, IdSize + PublicKeySize)
      && s.response.value[ResponseHeaderSize..ResponseHeaderSize + IdSize] == payload
      && exists i :: 0 <= i < |reg| && reg[i].id == payload && s.response.value[ResponseHeaderSize + IdSize..] == reg[i].publicKey
  {
    if |payload| != IdSize then Step(reg, Some(ErrorResponse))
    else match Lookup(reg, payload)
      case None => Step(reg, Some(ErrorResponse))
      case Some(u) =>
        var r := Response(CodePublicKey, payload + u.publicKey);
        ResponseIsNotError(CodePublicKey, payload + u.publicKey);
        assert r[ResponseHeaderSize..][IdSize..] == u.publicKey;
        Step(reg, Some(r))
  }

  // ---------------------------------------------------------------------
  // Header read and routing
  // ---------------------------------------------------------------------

  /** The routing of `handle_client` on the request code. The send-message and
      pending-messages handlers are empty, so those requests get no answer
      and change nothing; an unknown code gets the generic error. */
  function Dispatch(reg: Registry, h: RequestHeader, payload: Bytes, newId: Id): (s: Step)
    ensures h.code !in {OpRegister, OpClientsList, OpPublicKey, OpSendMessage, OpPendingMessages} ==>
      s == Step(reg, Some(ErrorResponse))
    ensures h.code in {OpSendMessage, OpPendingMessages} ==> s == Step(reg, None)
    ensures h.code != OpRegister ==> s.registry == reg
    ensures s.response.None? <==> h.code in {OpSendMessage, OpPendingMessages}
    ensures s.response.Some? && s.response.value != ErrorResponse ==>
      && h.code in {OpRegister, OpClientsList, OpPublicKey}
      && |s.response.value| >= ResponseHeaderSize
      && var rh := DecodeResponseHeader(s.response.value[..ResponseHeaderSize]);
         rh.version == Version && rh.code == h.code + 1500
         && rh.payloadSize == |s.response.value| - ResponseHeaderSize
    ensures Valid(reg) ==> Valid(s.registry)
  {
    if h.code == OpRegister then HandleRegistration(reg, payload, newId)
    else if h.code == OpClientsList then HandleClientsList(reg, h.clientId)
    else if h.code == OpPublicKey then HandlePublicKey(reg, payload)
    else if h.code == OpSendMessage || h.code == OpPendingMessages then Step(reg, None)
    else Step(reg, Some(ErrorResponse))
  }

  /** The payload `recv(payload_size)` returns: at most the declared number
      of bytes following the header (nothing when the size is 0). */
  function ReadPayload(request: Bytes, size: U32): (p: Bytes)
    requires |request| >= RequestHeaderSize
    ensures |p| == Min(size, |request| - RequestHeaderSize)
    ensures p <= request[RequestHeaderSize..]
  {
    request[RequestHeaderSize..Min(|request|, RequestHeaderSize + size)]
  }

  /** `handle_client`: a request shorter than the 23-byte header gets no
      answer and changes nothing; otherwise the header is split into its
      fields, the declared payload is read and the request is routed.
      `newId` is what `uuid.uuid4()` would produce for a registration. */
  function HandleRequest(reg: Registry, request: Bytes, newId: Id): (s: Step)
    ensures |request| < RequestHeaderSize ==> s == Step(reg, None)
    ensures |request| >= RequestHeaderSize ==>
      var h := DecodeRequestHeader(request[..RequestHeaderSize]);
      s == Dispatch(reg, h, ReadPayload(request, h.payloadSize), newId)
    ensures Valid(reg) ==> Valid(s.registry)
  {
    if |request| < RequestHeaderSize then Step(reg, None)
    else
      var h := DecodeRequestHeader(request[..RequestHeaderSize]);
      Dispatch(reg, h, ReadPayload(request, h.payloadSize), newId)
  }

  /** A request written as an encoded header followed by exactly the declared
      payload is handled with exactly that header and payload; bytes past the
      declared size are never read. */
  lemma ReadsEncodedRequest(reg: Registry, h: RequestHeader, payload: Bytes, extra: Bytes, newId: Id)
    requires h.payloadSize == |payload|
    ensures HandleRequest(reg, EncodeRequestHeader(h) + payload + extra, newId) == Dispatch(reg, h, payload, newId)
  {
    var request := EncodeRequestHeader(h) + payload + extra;
    assert request[..RequestHeaderSize] == EncodeRequestHeader(h);
    DecodeEncodeRequestHeader(h);
    assert ReadPayload(request, h.payloadSize) == payload;
  }

  /** The version byte is read but never checked: changing it changes
      nothing about the outcome. */
  lemma VersionIgnored(reg: Registry, request: Bytes, v: Byte, newId: Id)
    requires |request| >= RequestHeaderSize
    ensures HandleRequest(reg, request[16 := v], newId) == HandleRequest(reg, request, newId)
  {
    var other := request[16 := v];
    assert other[..RequestHeaderSize][17..19] == request[..RequestHeaderSize][17..19];
    assert other[..RequestHeaderSize][19..23] == request[..RequestHeaderSize][19..23];
    assert other[..RequestHeaderSize][..16] == request[..RequestHeaderSize][..16];
    assert other[RequestHeaderSize..] == request[RequestHeaderSize..];
  }
}

/** Properties that span more than one request. */
module ServerSessions {
  import opened Wrappers
  import opened Bytes
  import opened Wire
  import opened Registry
  import opened Server

  /** Once a registration has succeeded, the same payload is refused with
      the generic error and the registry stays as it is, whatever id the
      generator offers next. */
  lemma RegisterTwice(reg: Registry, payload: Bytes, id1: Id, id2: Id)
    requires HandleRegistration(reg, payload, id1).response.value != ErrorResponse
    ensures var s1 := HandleRegistration(reg, payload, id1);
      HandleRegistration(s1.registry, payload, id2) == Step(s1.registry, Some(ErrorResponse))
  {
    var s1 := HandleRegistration(reg, payload, id1);
    var name := BeforeNul(payload[..UsernameFieldSize]);
    var u := User(id1, name, payload[UsernameFieldSize..]);
    assert u in s1.registry;
    var i :| 0 <= i < |s1.registry| && s1.registry[i] == u;
    assert HasUsername(s1.registry, name);
  }

  /** After registering under a fresh id in a valid registry, asking for the
      key of that id answers 2102 with the id and exactly the key that was
      registered. */
  lemma RegisterThenPublicKey(reg: Registry, payload: Bytes, newId: Id)
    requires Valid(reg)
    requires !HasId(reg, newId)
    requires HandleRegistration(reg, payload, newId).response.value != ErrorResponse
    ensures var s1 := HandleRegistration(reg, payload, newId);
      HandlePublicKey(s1.registry, newId).response
        == Some(Response(CodePublicKey, newId + payload[UsernameFieldSize..]))
  {
    var s1 := HandleRegistration(reg, payload, newId);
    var u := User(newId, BeforeNul(payload[..UsernameFieldSize]), payload[UsernameFieldSize..]);
    assert s1.registry == reg + [u];
    LookupUnique(s1.registry, |reg|);
  }

  /** Registration keeps usernames unique across any run of requests: every
      handled request maps a valid registry to a valid one. */
  lemma {:induction false} RunPreservesValid(reg: Registry, requests: seq<Bytes>, ids: seq<Id>)
    requires Valid(reg)
    requires |ids| == |requests|
    ensures Valid(Run(reg, requests, ids))
    decreases |requests|
  {
    if |requests| > 0 {
      var s := HandleRequest(reg, requests[0], ids[0]);
      RunPreservesValid(s.registry, requests[1..], ids[1..]);
    }
  }

  /** The registry after handling `requests` one at a time, the i-th
      registration receiving `ids[i]` from the id generator. */
  function Run(reg: Registry, requests: seq<Bytes>, ids: seq<Id>): Registry
    requires |ids| == |requests|
    decreases |requests|
  {
    if |requests| == 0 then reg
    else Run(HandleRequest(reg, requests[0], ids[0]).registry, requests[1..], ids[1..])
  }

  /** The registry never shrinks and no user once stored is removed under a
      run in which each registration gets a fresh id. */
  lemma {:induction false} RunKeepsUsers(reg: Registry, requests: seq<Bytes>, ids: seq<Id>)
    requires |ids| == |requests|
    requires forall i :: 0 <= i < |ids| ==> ids[i] !in IdsOf(reg)
    requires forall i, j :: 0 <= i < j < |ids| ==> ids[i] != ids[j]
    ensures reg <= Run(reg, requests, ids)
    decreases |requests|
  {
    if |requests| > 0 {
      var s := HandleRequest(reg, requests[0], ids[0]);
      assert s.registry == reg || s.registry == reg + [s.registry[|s.registry| - 1]];
      forall i | 0 <= i < |ids[1..]|
        ensures ids[1..][i] !in IdsOf(s.registry)
      {
        assert ids[1..][i] == ids[i + 1];
        assert ids[i + 1] != ids[0];
      }
      RunKeepsUsers(s.registry, requests[1..], ids[1..]);
    }
  }

  /** The ids stored in a registry. */
  function IdsOf(reg: Registry): (ids: set<Bytes>)
    ensures forall i :: 0 <= i < |reg| ==> reg[i].id in ids
    ensures forall id :: id in ids ==> HasId(reg, id)
  {
    set i | 0 <= i < |reg| :: reg[i].id
  }
}
