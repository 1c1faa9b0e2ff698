/** The server's user table `self.clients`: a dictionary from client id to
    user, iterated in insertion order. It is kept as the sequence of its users
    in that order. */
module Registry {
  import opened Wrappers
  import opened Bytes
  import opened Wire

  const UsernameFieldSize := 255
  const PublicKeySize := 160

  type PublicKey = s: Bytes | |s| == PublicKeySize witness Repeat(0, PublicKeySize)

  /** A registered user; the username is kept as its ASCII bytes. */
  datatype User = User(id: Id, username: Bytes, publicKey: PublicKey)

  type Registry = seq<User>

  /** What registration lets through as a username: it fits the 255-byte
      field with its terminator, holds no NUL and is ASCII. */
  predicate ValidUsername(name: Bytes)
  {
    |name| < UsernameFieldSize && NUL !in name && IsAscii(name)
  }

  /** The registry invariant: ids are distinct keys, usernames are unique and
      every username is one registration accepts. */
  ghost predicate Valid(reg: Registry)
  {
    && (forall i, j :: 0 <= i < j < |reg| ==> reg[i].id != reg[j].id)
    && (forall i, j :: 0 <= i < j < |reg| ==> reg[i].username != reg[j].username)
    && (forall i :: 0 <= i < |reg| ==> ValidUsername(reg[i].username))
  }

  /** `id in self.clients`. */
  predicate HasId(reg: Registry, id: Bytes)
  {
    exists i :: 0 <= i < |reg| && reg[i].id == id
  }

  /** The scan over `self.clients.values()` for a user with this name. */
  predicate HasUsername(reg: Registry, name: Bytes)
  {
    exists i :: 0 <= i < |reg| && reg[i].username == name
  }

  /** Position of the first entry stored under `id`. */
  function IndexOf(reg: Registry, id: Bytes): (r: Option<nat>)
    ensures r.None? <==> !HasId(reg, id)
    ensures r.Some? ==> r.value < |reg| && reg[r.value].id == id
    ensures r.Some? ==> forall j :: 0 <= j < r.value ==> reg[j].id != id
  {
    if |reg| == 0 then None
    else if reg[0].id == id then Some(0)
    else match IndexOf(reg[1..], id)
      case None =>
        assert forall i :: 1 <= i < |reg| ==> reg[i] == reg[1..][i - 1];
        None
      case Some(k) => Some(k + 1)
  }

  /** `self.clients.get(id)`. */
  function Lookup(reg: Registry, id: Bytes): (r: Option<User>)
    ensures r.None? <==> !HasId(reg, id)
    ensures r.Some? ==> r.value in reg && r.value.id == id
  {
    match IndexOf(reg, id)
    case None => None
    case Some(k) => Some(reg[k])
  }

  /** `self.clients[u.id] = u`: a dictionary assignment replaces the entry in
      place when the key is present and appends it otherwise. */
  function Put(reg: Registry, u: User): (r: Registry)
    ensures !HasId(reg, u.id) ==> r == reg + [u]
    ensures HasId(reg, u.id) ==> |r| == |reg| && u in r
    ensures HasId(reg, u.id) ==>
      forall i :: 0 <= i < |reg| ==>
        r[i] == (if reg[i].id == u.id && forall j :: 0 <= j < i ==> reg[j].id != u.id then u else reg[i])
    ensures Valid(reg) && HasId(reg, u.id) ==>
      forall i :: 0 <= i < |reg| ==> r[i] == (if reg[i].id == u.id then u else reg[i])
  {
    match IndexOf(reg, u.id)
    case None => reg + [u]
    case Some(k) =>
      assert reg[k := u][k] == u;
      reg[k := u]
  }

  /** With distinct ids, the entry found under an id is the only one with it. */
  lemma LookupUnique(reg: Registry, i: nat)
    requires Valid(reg)
    requires i < |reg|
    ensures Lookup(reg, reg[i].id) == Some(reg[i])
  {
  }

  /** Storing a user whose username is new and valid keeps the registry
      invariant, whether its id is fresh or replaces an existing entry. */
  lemma PutPreservesValid(reg: Registry, u: User)
    requires Valid(reg)
    requires ValidUsername(u.username)
    requires !HasUsername(reg, u.username)
    ensures Valid(Put(reg, u))
  {
    var r := Put(reg, u);
    if HasId(reg, u.id) {
      var k := IndexOf(reg, u.id).value;
      assert r == reg[k := u];
      forall i, j | 0 <= i < j < |r|
        ensures r[i].id != r[j].id && r[i].username != r[j].username
      {
        if i == k {
          assert r[j] == reg[j];
        } else if j == k {
          assert r[i] == reg[i];
        }
      }
    } else {
      assert r == reg + [u];
    }
  }
}
