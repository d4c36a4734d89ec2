/** The four tables of the chat backend (users, servers, serverMembers,
    messages), the failures its handlers raise, the by-id lookups every
    handler starts from, and the invariant that the handlers keep between
    calls. */
module Schema {
  import opened Collections

  /** A document id. Ids are opaque; the store hands out fresh ones. */
  type Id = nat

  /** `passwordHash` is the client-computed digest, compared only for equality. */
  datatype User = User(id: Id, codename: string, passwordHash: string, createdAt: int, userCode: string)

  /** `password` is optional: an absent password is a value of its own (JavaScript `undefined`). */
  datatype Server = Server(
    id: Id, name: string, description: Option<string>, createdBy: Id,
    createdAt: int, isPrivate: bool, password: Option<string>)

  datatype Membership = Membership(id: Id, serverId: Id, userId: Id, joinedAt: int)

  datatype Message = Message(
    id: Id, content: string, serverId: Id, userId: Id, isAnonymous: bool, timestamp: int)

  /** The whole store at one moment; every table in insertion order, which is
      also the order of the documents' creation times. */
  datatype Tables = Tables(
    users: seq<User>, servers: seq<Server>, members: seq<Membership>, messages: seq<Message>)

  /** The errors the handlers throw, one per distinct message. */
  datatype Failure =
    | CodenameAlreadyExists
    | ServerNotFound
    | InvalidServerPassword
    | NotAMember
    | NotServerOwner
    | AccessDenied

  /** What a handler either returns or throws. */
  datatype Result<T> = Ok(value: T) | Err(error: Failure)

  /** `ctx.db.get` on the users table. */
  function UserById(t: Tables, id: Id): (r: Option<User>)
    ensures r.Some? ==> r.value in t.users && r.value.id == id
    ensures r.None? <==> forall u :: u in t.users ==> u.id != id
  {
    Find(t.users, (u: User) => u.id == id)
  }

  /** `ctx.db.get` on the servers table. */
  function ServerById(t: Tables, id: Id): (r: Option<Server>)
    ensures r.Some? ==> r.value in t.servers && r.value.id == id
    ensures r.None? <==> forall s :: s in t.servers ==> s.id != id
  {
    Find(t.servers, (s: Server) => s.id == id)
  }

  /** The `by_server_user` lookup finds a row for this pair. */
  predicate IsMember(members: seq<Membership>, serverId: Id, userId: Id) {
    exists m :: m in members && m.serverId == serverId && m.userId == userId
  }

  predicate OnServer(serverId: Id, m: Membership) {
    m.serverId == serverId
  }

  /** The length of the `by_server` collect: how many membership rows name the server. */
  function MemberCount(members: seq<Membership>, serverId: Id): (n: nat)
    ensures n <= |members|
    ensures n == 0 <==> forall m :: m in members ==> m.serverId != serverId
    ensures forall u :: IsMember(members, serverId, u) ==> n >= 1
  {
    var rows := Filter(members, m => OnServer(serverId, m));
    assert rows != [] ==> rows[0] in rows;
    |rows|
  }

  /** No two users share a codename (the registration guard). */
  ghost predicate UniqueCodenames(users: seq<User>) {
    forall i, j :: 0 <= i < j < |users| ==> users[i].codename != users[j].codename
  }

  /** At most one membership row per (server, user) pair. */
  ghost predicate UniqueMemberships(members: seq<Membership>) {
    forall i, j :: 0 <= i < j < |members| ==>
      members[i].serverId != members[j].serverId || members[i].userId != members[j].userId
  }

  /** The creator of every server is one of its members. */
  ghost predicate OwnersAreMembers(t: Tables) {
    forall s :: s in t.servers ==> IsMember(t.members, s.id, s.createdBy)
  }

  /** Some stored server has this id. */
  predicate HasServer(servers: seq<Server>, id: Id) {
    exists s :: s in servers && s.id == id
  }

  /** Every membership row names a stored server. */
  ghost predicate MembershipsNameServers(t: Tables) {
    forall m :: m in t.members ==> HasServer(t.servers, m.serverId)
  }

  /** Every stored message was posted by a member of its server. */
  ghost predicate AuthorsAreMembers(t: Tables) {
    forall msg :: msg in t.messages ==> IsMember(t.members, msg.serverId, msg.userId)
  }

  /** A user id names one user. */
  ghost predicate UniqueUserIds(users: seq<User>) {
    forall a, b :: a in users && b in users && a.id == b.id ==> a == b
  }

  /** A server id names one server. */
  ghost predicate UniqueServerIds(servers: seq<Server>) {
    forall a, b :: a in servers && b in servers && a.id == b.id ==> a == b
  }

  /** A membership id names one membership row. */
  ghost predicate UniqueMembershipIds(members: seq<Membership>) {
    forall a, b :: a in members && b in members && a.id == b.id ==> a == b
  }

  /** A message id names one message. */
  ghost predicate UniqueMessageIds(messages: seq<Message>) {
    forall a, b :: a in messages && b in messages && a.id == b.id ==> a == b
  }

  /** Every document id names one document of its table. */
  ghost predicate UniqueIds(t: Tables) {
    UniqueUserIds(t.users) &&
    UniqueServerIds(t.servers) &&
    UniqueMembershipIds(t.members) &&
    UniqueMessageIds(t.messages)
  }

  /** With unique user ids, the by-id lookup finds the one user with that id. */
  lemma UserByIdExact(t: Tables, u: User)
    requires UniqueUserIds(t.users) && u in t.users
    ensures UserById(t, u.id) == Some(u)
  {
  }

  /** With unique server ids, the by-id lookup finds the one server with that id. */
  lemma ServerByIdExact(t: Tables, s: Server)
    requires UniqueServerIds(t.servers) && s in t.servers
    ensures ServerById(t, s.id) == Some(s)
  {
  }

  /** What every handler keeps: the table invariants of the store. */
  ghost predicate Consistent(t: Tables) {
    UniqueIds(t) &&
    UniqueCodenames(t.users) &&
    UniqueMemberships(t.members) &&
    OwnersAreMembers(t) &&
    MembershipsNameServers(t) &&
    AuthorsAreMembers(t)
  }
}
