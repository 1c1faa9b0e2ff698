# MessageU server: a Dafny model of its request handling

This project models the core of the MessageU server. The server is a TCP
service that registers users under 16-byte client ids and stores their
160-byte public keys. Each connection carries one request and gets at most
one answer. A request has a 23-byte header: client id, version, request
code, payload size, with all integers little-endian. An answer has a
7-byte header: version, response code, payload size.

Modules:

- `Bytes` holds bytes and the little-endian integer fields.
  - It gives `struct.pack`/`struct.unpack` of `<H` and `<I` and
    `int.to_bytes(n, 'little')`, with round trips in both directions.
  - It also holds the NUL-terminated text helpers: `find`, `split` and
    `ljust` over bytes.
- `Wire` holds the constants, the request and response headers with their
  codecs, complete responses, and the generic error answer
  (`send_error`, code 9000).
- `Registry` is the server's `self.clients` dictionary.
  - It is kept as the sequence of its users in insertion order, since that
    is the order the client list reports.
  - It has lookup and dictionary assignment.
  - It has the invariant that ids and usernames are unique and every
    username is one registration accepts.
- `Server` models `handle_client`:
  - the header read, the payload read and routing on the request code;
  - the registration (600), client-list (601) and public-key (602)
    handlers;
  - the empty send-message (603) and pending-messages (604) handlers.

  One connection is one atomic `Step`: the registry before, the bytes the
  client wrote, then the registry after and the answer, if any. This
  matches the server, which runs every handler under its one lock.
- `ServerSessions` holds properties over several requests:
  - a second registration of the same name is refused;
  - a key fetch after registration returns the registered key;
  - the invariant holds over any run of requests;
  - no user is ever removed.
- `Message` models the `Message` constructor's field checks, in their
  order, and the `MessageType` numbering.
- `SendMessageClient`, `PendingMessagesClient` and `ClientsListClient` model
  the pure parts of the three demonstration clients:
  - how they build requests;
  - how they read answers: the 2103 answer, the envelope loop of a 2104
    answer, and the receive loops and entry loop of a 2101 answer;
  - how their layouts relate to what the server reads and writes.

  The send-message and pending-messages servers are stubs. Because of that,
  these clients' encoders and decoders are the only written form of those
  payload layouts.
- `Scenarios` holds concrete exchanges:
  - alice registers twice;
  - alice and bob register and bob lists alice;
  - an unknown id is asked for its key.
- `ClientErrors` and `Wrappers` hold shared error and result types.

Behaviour of the code worth noting:

- A request shorter than 23 bytes gets no answer at all. It does not get
  the error answer.
- A payload shorter than its declared size is passed to the handler as
  received. Each handler's own length checks then decide.
- The version byte is read but never checked. `Server.VersionIgnored`
  proves this.
- Requests 603 and 604 get no answer and change nothing, because their
  handlers are `pass`. There is no message store, identifier counter or
  drain in the code.

## Model

| member | source | states |
|---|---|---|
| `Bytes.DecodeU16` | src/server/server.py:63 | `unpack('<H')`: every two bytes are the encoding of the number they decode to, so the code field loses nothing |
| `Bytes.DecodeEncodeU16` | src/server/server.py:63 | decoding the two-byte `<H` code field gives back every 16-bit number encoded into it |
| `Bytes.DecodeU32` | src/server/server.py:64 | `unpack('<I')`: every four bytes are the encoding of the number they decode to |
| `Bytes.DecodeEncodeU32` | src/server/server.py:64 | decoding the four-byte `<I` size field gives back every 32-bit number encoded into it |
| `Bytes.FindNul` | src/server/server.py:106-109 | `find(b'\x00')` gives None exactly when there is no NUL; otherwise the position of a NUL with none before it |
| `Bytes.BeforeNul` | src/tests/test_clients_list.py:71 | `split(b'\x00')[0]` is a NUL-free prefix that stops at a NUL or at the end |
| `Bytes.PadNul` | src/server/server.py:162 | `ljust(n, b'\x00')` keeps its input as a prefix, pads only with NUL, and reaches length n without ever shortening |
| `Bytes.BeforeNulOfPadded` | src/server/server.py:161-162 | a NUL-free name that is terminated and padded to a larger field is read back unchanged |
| `Bytes.IsAscii` | src/server/server.py:112 | the bytes `decode('ascii')` accepts: every byte is below 0x80 (a definition; used by the registration and list-entry contracts) |
| `Wire.DecodeRequestHeader` | src/server/server.py:61-64 | the split into id `[0:16]`, version `[16]`, `<H` code `[17:19]` and `<I` size `[19:23]`; every 23 bytes are the encoding of the header they split into, so the split loses nothing |
| `Wire.DecodeEncodeRequestHeader` | src/server/server.py:61-64 | splitting an encoded 23-byte header gives back its client id, version, code and payload size |
| `Wire.DecodeResponseHeader` | src/tests/test_send_message.py:88 | `unpack('<BHI')`: every 7 bytes are the encoding of the header they unpack to |
| `Wire.DecodeEncodeResponseHeader` | src/server/server.py:136 | `struct.pack('<BHI', ...)` read back with `unpack('<BHI')` gives the version, code and size |
| `Wire.Response` | src/server/server.py:166-167 | an answer is 7 + n bytes, its header reads as (1, code, n) and the payload follows unchanged |
| `Wire.ErrorResponseBytes` | src/server/server.py:221-224 | the generic error is always the same seven bytes 01 28 23 00 00 00 00 |
| `Registry.IndexOf` | src/server/server.py:195 | `id in self.clients` fails exactly when no user has that id; a hit points at the first user with that id |
| `Registry.Lookup` | src/server/server.py:195-200 | a lookup returns a stored user with the id, or None exactly when the id is absent |
| `Registry.Put` | src/server/server.py:133 | dictionary assignment appends a user with a new id; for a present id it keeps the length, puts the user at the first position holding that id and leaves every other entry unchanged (in a valid registry: every entry with another id) |
| `Registry.LookupUnique` | src/server/server.py:200 | with distinct ids the lookup of any stored user's id finds that very user |
| `Registry.PutPreservesValid` | src/server/server.py:120-133 | storing a user with a new, valid username keeps ids and usernames unique |
| `Server.ParseRegistration` | src/server/server.py:101-118 | a registration payload is accepted exactly when it is 415 bytes with a NUL in the 255-byte field and an ASCII name before it; the name and the 160-byte key are what is read |
| `Server.ParseEncodeRegistration` | src/server/server.py:104-115 | every valid username and key, written as the 415-byte layout, are read back unchanged |
| `Server.HandleRegistration` | src/server/server.py:99-144 | always answers. It succeeds exactly when the payload parses and the name is new. Success answers 2100 with the new id and stores the user by dictionary assignment, which for a fresh id appends it. A failure answers 9000 and leaves the registry as it was. The invariant is kept |
| `Server.Others` | src/server/server.py:156-157 | the listed users are exactly the stored users whose id differs from the requester's |
| `Server.Entry` | src/server/server.py:158-163 | an entry is the user's id, then the name, then NUL bytes up to 271 in all when the name fits; its name field reads back as the name |
| `Server.Entries` | src/server/server.py:156-163 | the entries of the listed users, one after the other (a definition; its shape is stated by the lemmas below) |
| `Server.ListPayload` | src/server/server.py:155-163 | the list payload: the entries of every user but the requester (a definition; see `Server.ListPayloadAppend`) |
| `Server.OthersAppend` | src/server/server.py:156-157 | the list keeps registration order: a user stored last is listed last unless it is the requester; with the membership clause of `Others` this fixes the list |
| `Server.EntriesAppend` | src/server/server.py:156-163 | the payload of users listed in order is their entries in that order |
| `Server.ListPayloadAppend` | src/server/server.py:152-163 | registering one more user adds that user's entry at the end of everyone else's list payload |
| `Server.EntriesLength` | src/server/server.py:155-163 | names that fit give a payload of exactly 271 bytes per listed user |
| `Server.EntriesBlock` | src/server/server.py:155-163 | the i-th listed user's entry occupies bytes 271i to 271i + 271 of the payload |
| `Server.ListPayloadLength` | src/server/server.py:152-163 | in a valid registry the list payload is 271 bytes per user other than the requester |
| `Server.HandleClientsList` | src/server/server.py:146-174 | never changes the registry. It answers 2101 with the entries of all other users, or 9000 when the payload cannot be sized in four bytes |
| `Server.HandlePublicKey` | src/server/server.py:185-209 | never changes the registry. It answers 9000 exactly when the payload is not 16 bytes or names no user. Otherwise it answers 183 bytes: the header (1, 2102, 176), the id asked about, and that user's stored key |
| `Server.Dispatch` | src/server/server.py:71-83 | an unknown code gets 9000. 603 and 604 get no answer and change nothing. Only 600 can change the registry. Every other answer carries code request + 1500 and its true payload size. The invariant is kept |
| `Server.ReadPayload` | src/server/server.py:66-69 | the payload read is the next min(declared size, bytes that arrived) bytes after the header |
| `Server.HandleRequest` | src/server/server.py:51-83 | a request shorter than 23 bytes gets no answer and changes nothing; otherwise the header fields and the payload read are routed; the invariant is kept |
| `Server.ReadsEncodedRequest` | src/server/server.py:61-69 | a request written as a header and its declared payload is handled with exactly that header and payload, whatever bytes follow |
| `Server.VersionIgnored` | src/server/server.py:62 | changing the version byte never changes the outcome of a request |
| `ServerSessions.RegisterTwice` | src/server/server.py:120-126 | after a successful registration the same payload is refused with 9000 and no change, whatever id is offered |
| `ServerSessions.RegisterThenPublicKey` | src/server/server.py:193-204 | after registering under a fresh id, the key request for that id answers 2102 with the id and the registered key |
| `ServerSessions.RunPreservesValid` | src/server/server.py:120-133 | any run of requests keeps ids and usernames unique |
| `ServerSessions.RunKeepsUsers` | src/server/server.py:128-133 | with fresh distinct ids, a run of requests only ever appends to the registry |
| `Message.TypeOf` | src/server/message.py:5-10 | a number names a message kind exactly when it is 1 to 4, and that kind is sent as the number |
| `Message.TypeOfValue` | src/server/message.py:5-10 | every kind is the one its own number names |
| `Message.NewMessage` | src/server/message.py:25-38 | a message is built exactly when the id fits 4 bytes, both client ids are 16 bytes and the kind is known. The fields are stored unchanged. Each failure reports the first check that fails, in the source's order |
| `Message.ContentSize` | src/server/message.py:42-43 | the reported content size is 0 exactly for absent or empty content, otherwise its length |
| `SendMessageClient.SendMessagePayload` | src/tests/test_send_message.py:50-67 | the send-message payload is the destination, kind byte, four-byte length and content: 5 bytes plus the two |
| `SendMessageClient.ParseSendMessagePayload` | src/tests/test_send_message.py:50-67 | a reference reader of the layout the script writes, with no counterpart in the source: an accepted payload is 21 bytes plus its content |
| `SendMessageClient.ParseSendMessagePayloadRoundTrip` | src/tests/test_send_message.py:50-67 | reading a built payload gives back the destination, kind and content it was built from |
| `SendMessageClient.BuildSendMessageRequest` | src/tests/test_send_message.py:33-73 | a kind outside 1..3 is refused. Otherwise the request is built exactly when its size fits four bytes. It is the sender, version 1, code 603, the size, then the payload |
| `SendMessageClient.SendRequestAsServerReadsIt` | src/tests/test_send_message.py:39-81 | the server reads the built request as (sender, 1, 603, size) with exactly the built payload, and answers nothing |
| `SendMessageClient.ParseSendMessageResponse` | src/tests/test_send_message.py:84-108 | fewer than 7 bytes is an incomplete header. A 2103 answer is read exactly when the payload that arrived is 20 bytes, as its destination id and message id, and is otherwise an incomplete payload. 9000 is a rejection and any other code is reported as unexpected |
| `SendMessageClient.SentResponseRoundTrip` | src/tests/test_send_message.py:91-98 | a 2103 answer carrying a destination and message id is read back as exactly those |
| `SendMessageClient.ErrorResponseRejected` | src/tests/test_send_message.py:104-105 | the generic error is read as a rejection |
| `PendingMessagesClient.BuildPendingRequest` | src/tests/test_pending_messages.py:19-37 | an id that is not 16 bytes is refused; otherwise the request is the header (id, 1, 604, 0) |
| `PendingMessagesClient.PendingRequestUnanswered` | src/server/server.py:216-219 | the server answers a built 604 request with nothing and leaves the registry unchanged |
| `PendingMessagesClient.EncodeEnvelope` | src/tests/test_pending_messages.py:58-78 | a reference writer of the envelope layout the script reads, with no counterpart in the source: 25 bytes plus the content |
| `PendingMessagesClient.FirstEnvelope` | src/tests/test_pending_messages.py:58-78 | the envelope at the front of the bytes (a definition; its fields in place are stated by `PendingMessagesClient.ReadEnvelope` and the lemmas below) |
| `PendingMessagesClient.ParseEnvelopes` | src/tests/test_pending_messages.py:57-78 | every decoded envelope consumed at least its 25 header bytes, and a non-empty payload yields at least one envelope |
| `PendingMessagesClient.ReadEnvelope` | src/tests/test_pending_messages.py:58-78 | one pass of the loop body reads the envelope at the offset and moves past its declared content |
| `PendingMessagesClient.DecodeEnvelopes` | src/tests/test_pending_messages.py:53-78 | the script's offset loop decodes exactly what the envelope-by-envelope definition decodes, errors included |
| `PendingMessagesClient.ParseEncodedEnvelopes` | src/tests/test_pending_messages.py:57-78 | decoding concatenated well-formed envelopes gives back the same envelopes in order |
| `PendingMessagesClient.ZeroLengthContent` | src/tests/test_pending_messages.py:75-78 | a content length of 0 means absent content, and decoding moves straight to the next envelope |
| `PendingMessagesClient.TruncatedContentAccepted` | src/tests/test_pending_messages.py:76-78 | a content length reaching past the end is accepted with the content cut short, as the last envelope |
| `PendingMessagesClient.ParsePendingResponse` | src/tests/test_pending_messages.py:43-92 | fewer than 7 bytes is an incomplete header. A 2104 answer with size 0 means no messages; with a larger size it is read exactly when its envelopes decode. 9000 is a rejection and any other code is ignored |
| `PendingMessagesClient.PendingResponseRoundTrip` | src/tests/test_pending_messages.py:43-78 | a 2104 answer carrying encoded envelopes is read back as exactly those envelopes |
| `ClientsListClient.ClientsListRequestHeader` | src/tests/test_clients_list.py:15-26 | the request is 23 bytes that the server reads as sixteen 0x01 bytes, version 1, code 601, no payload |
| `ClientsListClient.ReceiveExactly` | src/tests/test_clients_list.py:33-41 | however the transport splits the bytes, the loop yields the first n bytes of what the server wrote, or a closed-connection error exactly when fewer arrive |
| `ClientsListClient.EntryCount` | src/tests/test_clients_list.py:62 | the number of whole 271-byte entries, with trailing bytes left over |
| `ClientsListClient.IdField` | src/tests/test_clients_list.py:67-68 | the 16 id bytes of entry i, at 271i |
| `ClientsListClient.NameField` | src/tests/test_clients_list.py:67-69 | the 255-byte username field of entry i, at 271i + 16 |
| `ClientsListClient.ParseEntries` | src/tests/test_clients_list.py:62-71 | decoding yields one entry per whole 271 bytes, each with a NUL-free username |
| `ClientsListClient.ParsedEntryAt` | src/tests/test_clients_list.py:66-71 | entry i of a decoded payload is the id field of entry i and the username before the first NUL of its name field |
| `ClientsListClient.ParseEntriesFails` | src/tests/test_clients_list.py:66-71 | decoding fails exactly when some whole entry has a username that is not ASCII |
| `ClientsListClient.DecodeClientEntries` | src/tests/test_clients_list.py:62-71 | the script's index loop decodes exactly what the entry-by-entry definition decodes |
| `ClientsListClient.ParseClientsListResponse` | src/tests/test_clients_list.py:33-78 | an answer with fewer than 7 bytes, or fewer payload bytes than declared, is a closed connection; size 0 is an empty list whatever the code; otherwise one entry per whole 271 bytes of the payload |
| `ClientsListClient.ReceiveClientsList` | src/tests/test_clients_list.py:33-71 | the receive loops followed by the entry loop compute exactly the reading of the whole answer, whatever the chunking |
| `ClientsListClient.ErrorReadsAsNoClients` | src/tests/test_clients_list.py:49-78 | the script reads the generic error as an empty list, since it never looks at the response code |
| `ClientsListClient.Listed` | src/tests/test_clients_list.py:68-71 | element i is the id and username of user i |
| `ClientsListClient.ParseServerEntries` | src/server/server.py:156-163 | the entries the server writes for valid usernames decode to each user's id and username, in order |
| `ClientsListClient.ListPayloadRoundTrip` | src/server/server.py:152-168 | the list payload of a valid registry decodes to every user but the requester, in registration order |
| `ClientsListClient.ClientsListExchange` | src/tests/test_clients_list.py:15-71 | the server answers the script's request without changing the registry, and the script reads every user but the dummy id's, in order |
| `Scenarios.DuplicateAlice` | src/server/server.py:120-138 | alice registers with 2100 and her id; registering alice again answers 9000 and changes nothing |
| `Scenarios.AliceThenBob` | src/server/server.py:128-138 | alice and then bob register, in that order, under distinct ids |
| `Scenarios.ListForBob` | src/server/server.py:156-163 | the list for bob is alice's entry alone |
| `Scenarios.ReadAliceEntry` | src/tests/test_clients_list.py:66-71 | the list client reads alice's entry back as her id and name |
| `Scenarios.BobListsAlice` | src/server/server.py:146-168 | after alice and bob register, bob's list answer is 2101 with alice's single 271-byte entry, read back as alice |
| `Scenarios.UnknownKey` | src/server/server.py:195-197 | asking for the key of an id nobody registered answers 9000 and changes nothing |

## Left out

- Sockets, `recv`/`send`, `close` and the accept loop are not modelled.
  - A request is the complete byte sequence a client wrote.
  - On the server, `recv(n)` yields the next min(n, available) bytes.
  - The clients-list script's receive loops are the exception.
    `ClientsListClient.ReceiveExactly` lets the transport split the bytes
    arbitrarily.
  - The server's writes are its answer bytes.
  - A failing `send` is not modelled.
- Threads and the lock are not modelled. Every handler runs under the one
  lock, so a connection is one atomic step.
- `uuid.uuid4()` is replaced by the `newId` parameter. Registration accepts
  any id, with dictionary-assignment semantics, and the fresh-id facts are
  stated under "no user has this id".
- The following have no effect on the answer or the registry, so they are
  left out:
  - logging;
  - `print` in the clients;
  - `ServerConfig.read_port`;
  - `main`;
  - `input()` prompts;
  - `bytes.fromhex` parsing of typed ids (ids are byte parameters);
  - the `__str__` text apart from its content size.
- The `User` class (user.py) is not part of this model. A user is the
  record (id, username, public key) the server stores.
- The server's `self.messages` list is never read or written by any
  handler, so it is not modelled. The 603/604 handlers are `pass` and are
  modelled as "no answer, no change".
- The send-message script's content is fixed text naming the sender. Here
  it is any byte string.
- The registration and public-key demonstration clients (test_registration.py
  and test_public_key.py) are not part of this model. Their layouts are the
  ones `Server.ParseRegistration` and `Server.HandlePublicKey` read.
- `Registry.Valid` is a ghost predicate. It is used only in contracts and
  lemmas.
- PendingMessagesClient.ParseEnvelopes: its contract bounds the number of
  envelopes and does not restate each field. Its relation to the layout is
  stated by `PendingMessagesClient.ParseEncodedEnvelopes`,
  `PendingMessagesClient.ZeroLengthContent` and
  `PendingMessagesClient.TruncatedContentAccepted`.
- PendingMessagesClient.ParsePendingResponse: for a non-empty 2104 answer
  the contract states when it is read, not which envelopes it holds.
  `PendingMessagesClient.PendingResponseRoundTrip` covers encoded envelopes.
- ClientsListClient.ParseClientsListResponse: for a complete answer the
  contract states the number of entries, not their contents.
  `ClientsListClient.ParsedEntryAt` and `ClientsListClient.ClientsListExchange`
  cover the contents.
