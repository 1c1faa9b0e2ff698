/** Worked exchanges: two users registering and listing each other, a
    duplicate username, and a key request for an unknown id. */
module Scenarios {
  import opened Wrappers
  import opened Bytes
  import opened Wire
  import opened Registry
  import opened Server
  import ServerSessions
  import ClientsListClient

  const Alice: Bytes := [0x61, 0x6c, 0x69, 0x63, 0x65]
  const Bob: Bytes := [0x62, 0x6f, 0x62]
  const Key: PublicKey := Repeat(1, PublicKeySize)

  function RegisterPayload(name: Bytes): Bytes
    requires ValidUsername(name)
  {
    EncodeRegistration(Registration(name, Key))
  }

  /** Registering alice in an empty registry answers 2100 with the new id;
      registering alice again answers 9000 and changes nothing. */
  lemma DuplicateAlice(aliceId: Id, otherId: Id)
    ensures var s1 := HandleRegistration([], RegisterPayload(Alice), aliceId);
      && s1.response == Some(Response(CodeRegistered, aliceId))
      && s1.registry == [User(aliceId, Alice, Key)]
      && HandleRegistration(s1.registry, RegisterPayload(Alice), otherId) == Step(s1.registry, Some(ErrorResponse))
  {
    ParseEncodeRegistration(Registration(Alice, Key));
    var s1 := HandleRegistration([], RegisterPayload(Alice), aliceId);
    ServerSessions.RegisterTwice([], RegisterPayload(Alice), aliceId, otherId);
  }

  /** Alice and then bob register under distinct ids. */
  lemma AliceThenBob(aliceId: Id, bobId: Id)
    requires aliceId != bobId
    ensures var s1 := HandleRegistration([], RegisterPayload(Alice), aliceId);
      var s2 := HandleRegistration(s1.registry, RegisterPayload(Bob), bobId);
      && s2.response == Some(Response(CodeRegistered, bobId))
      && s2.registry == [User(aliceId, Alice, Key), User(bobId, Bob, Key)]
  {
    ParseEncodeRegistration(Registration(Alice, Key));
    ParseEncodeRegistration(Registration(Bob, Key));
    var alice := User(aliceId, Alice, Key);
    var s1 := HandleRegistration([], RegisterPayload(Alice), aliceId);
    assert s1.registry == [alice];
    assert !HasUsername([alice], Bob) by {
      assert Alice[0] != Bob[0];
    }
  }

  /** The list bob receives holds alice's entry alone. */
  lemma ListForBob(aliceId: Id, bobId: Id)
    requires aliceId != bobId
    ensures ListPayload([User(aliceId, Alice, Key), User(bobId, Bob, Key)], bobId) == Entry(User(aliceId, Alice, Key))
  {
    var alice := User(aliceId, Alice, Key);
    var bob := User(bobId, Bob, Key);
    var reg := [alice, bob];
    assert reg[1..] == [bob];
    assert [bob][1..] == [];
    assert Others(reg, bobId) == [alice];
    assert [alice][1..] == [];
    assert Entries([alice]) == Entry(alice) + Entries([]);
    assert Entry(alice) + [] == Entry(alice);
  }

  /** The list client reads alice's entry back as her id and name. */
  lemma ReadAliceEntry(aliceId: Id)
    ensures ClientsListClient.ParseEntries(Entry(User(aliceId, Alice, Key)))
         == Ok([ClientsListClient.ClientEntry(aliceId, Alice)])
  {
    var alice := User(aliceId, Alice, Key);
    assert [alice][1..] == [];
    assert Entries([alice]) == Entry(alice) + Entries([]);
    assert Entry(alice) + [] == Entry(alice);
    ClientsListClient.ParseServerEntries([alice]);
    var ce := ClientsListClient.ClientEntry(aliceId, Alice);
    assert ClientsListClient.Listed([alice]) == [ce] + ClientsListClient.Listed([]);
    assert [ce] + [] == [ce];
  }

  /** After alice and then bob register, bob's list request answers 2101
      with one 271-byte entry, alice's, which the list client reads back as
      alice's id and name. */
  lemma BobListsAlice(aliceId: Id, bobId: Id)
    requires aliceId != bobId
    ensures var s1 := HandleRegistration([], RegisterPayload(Alice), aliceId);
      var s2 := HandleRegistration(s1.registry, RegisterPayload(Bob), bobId);
      var s3 := HandleClientsList(s2.registry, bobId);
      && s3.response == Some(Response(CodeClientsList, Entry(User(aliceId, Alice, Key))))
      && |Entry(User(aliceId, Alice, Key))| == ListEntrySize
      && ClientsListClient.ParseEntries(Entry(User(aliceId, Alice, Key)))
         == Ok([ClientsListClient.ClientEntry(aliceId, Alice)])
  {
    AliceThenBob(aliceId, bobId);
    ListForBob(aliceId, bobId);
    ReadAliceEntry(aliceId);
  }

  /** Asking for the key of an id nobody registered answers 9000. */
  lemma UnknownKey(reg: Registry, id: Id)
    requires !HasId(reg, id)
    ensures HandlePublicKey(reg, id) == Step(reg, Some(ErrorResponse))
  {
  }
}
