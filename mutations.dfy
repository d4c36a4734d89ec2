/** The state-changing handlers of convex/mutations.ts. The store is one
    object whose four tables the handlers update in place; each handler runs
    atomically, and the clock (`Date.now()`) and the generated user code come
    in as arguments. */
module Mutations {
  import opened Collections
  import opened Schema
  import Queries

  /** The retention window of the sweep: 24 hours, in milliseconds. */
  const RetentionMs: int := 24 * 60 * 60 * 1000

  /** What `joinServer` throws before it looks at memberships: a missing
      server, or a private server whose stored password differs from the one
      supplied (an absent password matches only an absent one). */
  function JoinRefusal(t: Tables, serverId: Id, password: Option<string>): (r: Option<Failure>)
    ensures r == Some(ServerNotFound) <==> forall s :: s in t.servers ==> s.id != serverId
    ensures r.Some? ==> r.value == ServerNotFound || r.value == InvalidServerPassword
  {
    match ServerById(t, serverId)
    case None => Some(ServerNotFound)
    case Some(s) => if s.isPrivate && s.password != password then Some(InvalidServerPassword) else None
  }

  /** What `inviteToPrivateServer` throws before it looks at memberships: a
      missing server, or a caller who did not create it. The password and
      the privacy flag play no part. */
  function InviteRefusal(t: Tables, serverId: Id, ownerId: Id): (r: Option<Failure>)
    ensures r == Some(ServerNotFound) <==> forall s :: s in t.servers ==> s.id != serverId
    ensures r.Some? ==> r.value == ServerNotFound || r.value == NotServerOwner
  {
    match ServerById(t, serverId)
    case None => Some(ServerNotFound)
    case Some(s) => if s.createdBy != ownerId then Some(NotServerOwner) else None
  }

  /** The correct password of a private server is accepted, any other
      (including none) refused; a public server accepts any. */
  lemma JoinPasswordRule(t: Tables, s: Server, password: Option<string>)
    requires ServerById(t, s.id) == Some(s)
    ensures JoinRefusal(t, s.id, password) == None <==> !s.isPrivate || password == s.password
    ensures JoinRefusal(t, s.id, password) != None ==> JoinRefusal(t, s.id, password) == Some(InvalidServerPassword)
  {
  }

  /** Only the creator may invite, to a private server or a public one. */
  lemma InviteOwnerRule(t: Tables, s: Server, ownerId: Id)
    requires ServerById(t, s.id) == Some(s)
    ensures InviteRefusal(t, s.id, ownerId) == None <==> ownerId == s.createdBy
    ensures InviteRefusal(t, s.id, ownerId) != None ==> InviteRefusal(t, s.id, ownerId) == Some(NotServerOwner)
  {
  }

  predicate IsStale(cutoff: int, m: Message) {
    m.timestamp < cutoff
  }

  predicate IsFresh(cutoff: int, m: Message) {
    m.timestamp >= cutoff
  }

  /** The messages the sweep selects: those posted before `cutoff`. */
  function Expired(ms: seq<Message>, cutoff: int): (r: seq<Message>)
    ensures forall m :: m in r <==> m in ms && m.timestamp < cutoff
  {
    Filter(ms, (m: Message) => IsStale(cutoff, m))
  }

  /** The messages the sweep keeps: those posted at or after `cutoff`, in order. */
  function Retained(ms: seq<Message>, cutoff: int): (r: seq<Message>)
    ensures forall m :: m in r <==> m in ms && m.timestamp >= cutoff
  {
    Filter(ms, (m: Message) => IsFresh(cutoff, m))
  }

  /** The sweep's count is the number of messages it removes. */
  lemma {:induction false} SweepCount(ms: seq<Message>, cutoff: int)
    ensures |Expired(ms, cutoff)| + |Retained(ms, cutoff)| == |ms|
  {
    FilterPartition(ms, (m: Message) => IsStale(cutoff, m), (m: Message) => IsFresh(cutoff, m));
  }

  /** A second sweep with the same clock finds nothing to delete. */
  lemma SweepIdempotent(ms: seq<Message>, cutoff: int)
    ensures Expired(Retained(ms, cutoff), cutoff) == []
    ensures Retained(Retained(ms, cutoff), cutoff) == Retained(ms, cutoff)
  {
    var kept := Retained(ms, cutoff);
    FilterKeepsAll(kept, (m: Message) => IsFresh(cutoff, m));
    SweepCount(kept, cutoff);
  }

  /** The ids of a list of messages. */
  function IdsOf(ms: seq<Message>): set<Id> {
    set m | m in ms :: m.id
  }

  /** The table after `ctx.db.delete` of every id in `ids`. */
  function WithoutIds(ms: seq<Message>, ids: set<Id>): (r: seq<Message>)
    ensures forall m :: m in r <==> m in ms && m.id !in ids
  {
    Filter(ms, (m: Message) => m.id !in ids)
  }

  /** Deleting one more id. */
  lemma DeleteStep(ms: seq<Message>, ids: set<Id>, id: Id)
    ensures WithoutIds(WithoutIds(ms, ids), {id}) == WithoutIds(ms, ids + {id})
  {
    var one, both := {id}, ids + {id};
    FilterTwice(ms, (m: Message) => m.id !in ids, (m: Message) => m.id !in one, (m: Message) => m.id !in both);
  }

  /** Deleting no id changes nothing. */
  lemma DeleteNone(ms: seq<Message>)
    ensures WithoutIds(ms, {}) == ms
  {
    var none: set<Id> := {};
    FilterKeepsAll(ms, (m: Message) => m.id !in none);
  }

  /** Deleting the next selected id extends the deleted prefix by one. */
  lemma DeleteNext(ms: seq<Message>, selected: seq<Message>, i: nat)
    requires i < |selected|
    ensures WithoutIds(WithoutIds(ms, IdsOf(selected[..i])), {selected[i].id}) == WithoutIds(ms, IdsOf(selected[..i + 1]))
  {
    DeleteStep(ms, IdsOf(selected[..i]), selected[i].id);
    assert selected[..i + 1] == selected[..i] + [selected[i]];
    assert IdsOf(selected[..i + 1]) == IdsOf(selected[..i]) + {selected[i].id};
  }

  /** With unique ids, deleting the ids of the expired messages leaves
      exactly the retained ones. */
  lemma DeleteExpiredIds(ms: seq<Message>, cutoff: int)
    requires UniqueMessageIds(ms)
    ensures WithoutIds(ms, IdsOf(Expired(ms, cutoff))) == Retained(ms, cutoff)
  {
    var ids := IdsOf(Expired(ms, cutoff));
    forall m | m in ms ensures (m.id !in ids) == IsFresh(cutoff, m) {
      if m.id in ids {
        var e :| e in Expired(ms, cutoff) && e.id == m.id;
        assert e == m;
      }
    }
    FilterCongruent(ms, (m: Message) => m.id !in ids, (m: Message) => IsFresh(cutoff, m));
  }

  /** A membership row appended to the table adds one to the count of its
      server and leaves every other count alone. */
  lemma {:induction false} CountAfterJoin(members: seq<Membership>, m: Membership, serverId: Id)
    ensures MemberCount(members + [m], serverId) ==
            MemberCount(members, serverId) + (if m.serverId == serverId then 1 else 0)
  {
    FilterAppend(members, m, (x: Membership) => OnServer(serverId, x));
  }

  /** A message stamped no earlier than any other message of its server
      goes to the end of that server's timeline; the rest keep their order. */
  lemma TimelineAfterPost(t: Tables, m: Message)
    requires forall x :: x in t.messages && x.serverId == m.serverId ==> x.timestamp <= m.timestamp
    ensures Queries.Timeline(t.(messages := t.messages + [m]), m.serverId) == Queries.Timeline(t, m.serverId) + [m]
  {
    var serverId := m.serverId;
    var own := Filter(t.messages, (x: Message) => Queries.InServer(serverId, x));
    FilterAppend(t.messages, m, (x: Message) => Queries.InServer(serverId, x));
    var own' := own + [m];
    assert own'[..|own'| - 1] == own && own'[|own'| - 1] == m;
    var sorted := SortBy(own, Queries.TimestampLe);
    forall i | 0 <= i < |sorted| ensures Queries.TimestampLe(sorted[i], m) {
      assert sorted[i] in sorted;
      assert sorted[i] in own;
    }
    InsertAfterAll(m, sorted, Queries.TimestampLe);
    assert SortBy(own', Queries.TimestampLe) == sorted + [m];
  }

  /** A message posted by a member no earlier than any other message of its
      server is the last one the next read of that server returns. */
  lemma SentMessageReadLast(t: Tables, m: Message, reader: Id)
    requires IsMember(t.members, m.serverId, reader)
    requires forall x :: x in t.messages && x.serverId == m.serverId ==> x.timestamp <= m.timestamp
    ensures var r := Queries.GetServerMessages(t.(messages := t.messages + [m]), m.serverId, reader);
            r.Ok? && |r.value| > 0 && r.value[|r.value| - 1].message == m
  {
    var t' := t.(messages := t.messages + [m]);
    TimelineAfterPost(t, m);
    var all := Queries.Timeline(t', m.serverId);
    assert |all| > 0 && all[|all| - 1] == m;
    var r := Queries.GetServerMessages(t', m.serverId, reader);
    assert r.Ok?;
    assert r.value[|r.value| - 1] == Queries.Enrich(t', all[|all| - 1]);
  }

  /** A server opened under a fresh id, with its creator's membership, is
      reported with exactly one member, the creator's name as creator. */
  lemma OpenedServerInfo(t: Tables, s: Server, owner: Membership)
    requires MembershipsNameServers(t)
    requires forall x :: x in t.servers ==> x.id != s.id
    requires owner.serverId == s.id && owner.userId == s.createdBy
    ensures var t' := t.(servers := t.servers + [s], members := t.members + [owner]);
            Queries.GetServerInfo(t', s.id) == Some(Queries.ServerView(s, 1, Queries.DisplayName(t', s.createdBy)))
  {
    var t' := t.(servers := t.servers + [s], members := t.members + [owner]);
    assert forall m :: m in t.members ==> m.serverId != s.id;
    CountAfterJoin(t.members, owner, s.id);
    var found := ServerById(t', s.id);
    assert s in t'.servers;
    assert found.Some? && found.value == s;
  }

  /** Every id stored in the tables is below `bound`. */
  ghost predicate IdsBelow(t: Tables, bound: Id) {
    (forall u :: u in t.users ==> u.id < bound) &&
    (forall s :: s in t.servers ==> s.id < bound) &&
    (forall m :: m in t.members ==> m.id < bound) &&
    (forall m :: m in t.messages ==> m.id < bound)
  }

  /** Appending a user under a fresh id keeps user ids unique. */
  lemma FreshUserId(users: seq<User>, u: User)
    requires UniqueUserIds(users) && forall x :: x in users ==> x.id != u.id
    ensures UniqueUserIds(users + [u])
  {
  }

  /** Appending a server under a fresh id keeps server ids unique. */
  lemma FreshServerId(servers: seq<Server>, s: Server)
    requires UniqueServerIds(servers) && forall x :: x in servers ==> x.id != s.id
    ensures UniqueServerIds(servers + [s])
  {
  }

  /** Appending a membership row under a fresh id keeps membership ids unique. */
  lemma FreshMembershipId(members: seq<Membership>, m: Membership)
    requires UniqueMembershipIds(members) && forall x :: x in members ==> x.id != m.id
    ensures UniqueMembershipIds(members + [m])
  {
  }

  /** Registering a user under a fresh id and an unused codename keeps the
      invariants. */
  lemma RegisterKeepsConsistent(t: Tables, u: User)
    requires Consistent(t)
    requires forall x :: x in t.users ==> x.id != u.id
    requires forall x :: x in t.users ==> x.codename != u.codename
    ensures Consistent(t.(users := t.users + [u]))
  {
    FreshUserId(t.users, u);
    var users := t.users + [u];
    forall i, j | 0 <= i < j < |users| ensures users[i].codename != users[j].codename {
      if j == |t.users| {
        assert users[i] in t.users;
      }
    }
  }

  /** Storing a server under a fresh id together with its creator's
      membership, also under a fresh id, keeps the invariants. */
  lemma OpenKeepsConsistent(t: Tables, s: Server, owner: Membership)
    requires Consistent(t)
    requires forall x :: x in t.servers ==> x.id != s.id
    requires forall x :: x in t.members ==> x.id != owner.id
    requires owner.serverId == s.id && owner.userId == s.createdBy
    ensures Consistent(t.(servers := t.servers + [s], members := t.members + [owner]))
  {
    var t' := t.(servers := t.servers + [s], members := t.members + [owner]);
    FreshServerId(t.servers, s);
    FreshMembershipId(t.members, owner);
    assert IsMember(t'.members, s.id, s.createdBy);
    forall x | x in t'.servers ensures IsMember(t'.members, x.id, x.createdBy) {
      if x != s {
        var w :| w in t.members && w.serverId == x.id && w.userId == x.createdBy;
        assert w in t'.members;
      }
    }
    forall m | m in t'.members ensures HasServer(t'.servers, m.serverId) {
      if m != owner {
        var x :| x in t.servers && x.id == m.serverId;
        assert x in t'.servers;
      }
    }
    forall i, j | 0 <= i < j < |t'.members|
      ensures t'.members[i].serverId != t'.members[j].serverId || t'.members[i].userId != t'.members[j].userId
    {
      if j == |t.members| {
        assert t'.members[i] in t.members;
      }
    }
    forall msg | msg in t'.messages ensures IsMember(t'.members, msg.serverId, msg.userId) {
      var w :| w in t.members && w.serverId == msg.serverId && w.userId == msg.userId;
      assert w in t'.members;
    }
  }

  /** Adding the first membership of a pair, on a stored server and under a
      fresh id, keeps the invariants. */
  lemma JoinKeepsConsistent(t: Tables, row: Membership)
    requires Consistent(t)
    requires forall x :: x in t.members ==> x.id != row.id
    requires HasServer(t.servers, row.serverId)
    requires !IsMember(t.members, row.serverId, row.userId)
    ensures Consistent(t.(members := t.members + [row]))
  {
    var t' := t.(members := t.members + [row]);
    FreshMembershipId(t.members, row);
    forall x | x in t'.servers ensures IsMember(t'.members, x.id, x.createdBy) {
      var w :| w in t.members && w.serverId == x.id && w.userId == x.createdBy;
      assert w in t'.members;
    }
    forall i, j | 0 <= i < j < |t'.members|
      ensures t'.members[i].serverId != t'.members[j].serverId || t'.members[i].userId != t'.members[j].userId
    {
      if j == |t.members| {
        assert t'.members[i] in t.members;
      }
    }
    forall msg | msg in t'.messages ensures IsMember(t'.members, msg.serverId, msg.userId) {
      var w :| w in t.members && w.serverId == msg.serverId && w.userId == msg.userId;
      assert w in t'.members;
    }
  }

  /** Posting a message with a fresh id, by a member of its server, keeps
      the invariants. */
  lemma PostKeepsConsistent(t: Tables, m: Message)
    requires Consistent(t)
    requires IsMember(t.members, m.serverId, m.userId)
    requires forall x :: x in t.messages ==> x.id != m.id
    ensures Consistent(t.(messages := t.messages + [m]))
  {
    var t' := t.(messages := t.messages + [m]);
    assert t'.servers == t.servers && t'.members == t.members;
    forall msg | msg in t'.messages ensures IsMember(t'.members, msg.serverId, msg.userId) {
      if msg != m {
        assert msg in t.messages;
      }
    }
    forall a, b | a in t'.messages && b in t'.messages && a.id == b.id ensures a == b {
      if a != m && b != m {
        assert a in t.messages && b in t.messages;
      }
    }
  }

  /** Removing messages keeps the invariants. */
  lemma SweepKeepsConsistent(t: Tables, kept: seq<Message>)
    requires Consistent(t)
    requires forall m :: m in kept ==> m in t.messages
    ensures Consistent(t.(messages := kept))
  {
  }

  /** The whole store: the four tables and the next fresh id. */
  class Store {
    var users: seq<User>
    var servers: seq<Server>
    var members: seq<Membership>
    var messages: seq<Message>
    var nextId: Id

    /** The tables as one value, for the queries. */
    function Snapshot(): Tables
      reads this
    {
      Tables(users, servers, members, messages)
    }

    /** The table invariants, and every id issued so far is below `nextId`. */
    ghost predicate Valid()
      reads this
    {
      Consistent(Snapshot()) && IdsBelow(Snapshot(), nextId)
    }

    constructor ()
      ensures Valid()
      ensures Snapshot() == Tables([], [], [], [])
    {
      users, servers, members, messages := [], [], [], [];
      nextId := 0;
    }

    /** `createUser`: refuses a codename that is already taken (exact,
        case-sensitive match); otherwise stores one new user. */
    method CreateUser(codename: string, passwordHash: string, userCode: string, now: int)
      returns (r: Result<Id>)
      requires Valid()
      modifies this
      ensures Valid()
      ensures r.Err? <==> exists u :: u in old(users) && u.codename == codename
      ensures r.Err? ==> r.error == CodenameAlreadyExists && unchanged(this)
      ensures r.Ok? ==> r.value == old(nextId) && nextId == old(nextId) + 1
      ensures r.Ok? ==> forall u :: u in old(users) ==> u.id != r.value
      ensures r.Ok? ==> users == old(users) + [User(r.value, codename, passwordHash, now, userCode)]
      ensures r.Ok? ==> servers == old(servers) && members == old(members) && messages == old(messages)
      ensures r.Ok? ==> Queries.AuthenticateUser(Snapshot(), codename, passwordHash) ==
                          Some(User(r.value, codename, passwordHash, now, userCode))
    {
      var existing := Queries.GetUserByCodename(Snapshot(), codename);
      if existing.Some? {
        return Err(CodenameAlreadyExists);
      }
      var user := User(nextId, codename, passwordHash, now, userCode);
      ghost var t := Snapshot();
      users := users + [user];
      nextId := nextId + 1;
      RegisterKeepsConsistent(t, user);
      assert Snapshot() == t.(users := t.users + [user]);
      assert IdsBelow(Snapshot(), nextId);
      r := Ok(user.id);
      Queries.AuthenticateExact(Snapshot(), codename, passwordHash, user);
    }

    /** `createServer`: stores the server and the creator's membership in
        one step, so the creator is a member from the start. */
    method CreateServer(name: string, description: Option<string>, userId: Id, isPrivate: bool,
                        password: Option<string>, now: int)
      returns (serverId: Id)
      requires Valid()
      modifies this
      ensures Valid()
      ensures serverId == old(nextId) && nextId == old(nextId) + 2
      ensures forall s :: s in old(servers) ==> s.id != serverId
      ensures servers == old(servers) + [Server(serverId, name, description, userId, now, isPrivate, password)]
      ensures members == old(members) + [Membership(serverId + 1, serverId, userId, now)]
      ensures users == old(users) && messages == old(messages)
      ensures IsMember(members, serverId, userId)
    {
      serverId := nextId;
      var server := Server(serverId, name, description, userId, now, isPrivate, password);
      var owner := Membership(serverId + 1, serverId, userId, now);
      ghost var t := Snapshot();
      servers, members := servers + [server], members + [owner];
      nextId := nextId + 2;
      OpenKeepsConsistent(t, server, owner);
      assert Snapshot() == t.(servers := t.servers + [server], members := t.members + [owner]);
    }

    /** `joinServer`: after the server and password checks, an existing
        membership makes the call a no-op success; otherwise one row is added. */
    method JoinServer(serverId: Id, userId: Id, password: Option<string>, now: int)
      returns (r: Result<bool>)
      requires Valid()
      modifies this
      ensures Valid()
      ensures old(JoinRefusal(Snapshot(), serverId, password)).Some? ==>
                r == Err(old(JoinRefusal(Snapshot(), serverId, password)).value) && unchanged(this)
      ensures old(JoinRefusal(Snapshot(), serverId, password)).None? ==>
                r == Ok(true) && IsMember(members, serverId, userId)
      ensures old(JoinRefusal(Snapshot(), serverId, password)).None? && old(IsMember(members, serverId, userId)) ==>
                unchanged(this)
      ensures old(JoinRefusal(Snapshot(), serverId, password)).None? && !old(IsMember(members, serverId, userId)) ==>
                members == old(members) + [Membership(old(nextId), serverId, userId, now)] &&
                nextId == old(nextId) + 1 &&
                users == old(users) && servers == old(servers) && messages == old(messages)
    {
      var server := ServerById(Snapshot(), serverId);
      if server.None? {
        return Err(ServerNotFound);
      }
      if server.value.isPrivate && server.value.password != password {
        return Err(InvalidServerPassword);
      }
      if IsMember(members, serverId, userId) {
        return Ok(true);
      }
      assert server.value in servers;
      AddMember(serverId, userId, now);
      r := Ok(true);
    }

    /** `inviteToPrivateServer`: only the creator may invite; no password is
        asked for; an existing membership makes the call a no-op success. */
    method InviteToPrivateServer(serverId: Id, ownerId: Id, targetUserId: Id, now: int)
      returns (r: Result<bool>)
      requires Valid()
      modifies this
      ensures Valid()
      ensures old(InviteRefusal(Snapshot(), serverId, ownerId)).Some? ==>
                r == Err(old(InviteRefusal(Snapshot(), serverId, ownerId)).value) && unchanged(this)
      ensures old(InviteRefusal(Snapshot(), serverId, ownerId)).None? ==>
                r == Ok(true) && IsMember(members, serverId, targetUserId)
      ensures old(InviteRefusal(Snapshot(), serverId, ownerId)).None? && old(IsMember(members, serverId, targetUserId)) ==>
                unchanged(this)
      ensures old(InviteRefusal(Snapshot(), serverId, ownerId)).None? && !old(IsMember(members, serverId, targetUserId)) ==>
                members == old(members) + [Membership(old(nextId), serverId, targetUserId, now)] &&
                nextId == old(nextId) + 1 &&
                users == old(users) && servers == old(servers) && messages == old(messages)
    {
      var server := ServerById(Snapshot(), serverId);
      if server.None? {
        return Err(ServerNotFound);
      }
      if server.value.createdBy != ownerId {
        return Err(NotServerOwner);
      }
      if IsMember(members, serverId, targetUserId) {
        return Ok(true);
      }
      assert server.value in servers;
      AddMember(serverId, targetUserId, now);
      r := Ok(true);
    }

    /** The insert shared by join and invite: a new membership row for a
        stored server and a pair that has none yet. */
    method AddMember(serverId: Id, userId: Id, now: int)
      requires Valid()
      requires HasServer(servers, serverId)
      requires !IsMember(members, serverId, userId)
      modifies this
      ensures Valid()
      ensures IsMember(members, serverId, userId)
      ensures members == old(members) + [Membership(old(nextId), serverId, userId, now)]
      ensures nextId == old(nextId) + 1
      ensures users == old(users) && servers == old(servers) && messages == old(messages)
    {
      var row := Membership(nextId, serverId, userId, now);
      ghost var t := Snapshot();
      members := members + [row];
      nextId := nextId + 1;
      JoinKeepsConsistent(t, row);
      assert Snapshot() == t.(members := t.members + [row]);
      assert IdsBelow(Snapshot(), nextId);
      assert row in members;
    }

    /** `sendMessage`: refused unless the sender is a member of the server;
        otherwise one message stamped `now` is stored. The content is stored
        as given. */
    method SendMessage(content: string, serverId: Id, userId: Id, isAnonymous: bool, now: int)
      returns (r: Result<Id>)
      requires Valid()
      modifies this
      ensures Valid()
      ensures r.Err? <==> !old(IsMember(members, serverId, userId))
      ensures r.Err? ==> r.error == NotAMember && unchanged(this)
      ensures r.Ok? ==> r.value == old(nextId) && nextId == old(nextId) + 1
      ensures r.Ok? ==> messages == old(messages) + [Message(r.value, content, serverId, userId, isAnonymous, now)]
      ensures r.Ok? ==> users == old(users) && servers == old(servers) && members == old(members)
    {
      if !IsMember(members, serverId, userId) {
        return Err(NotAMember);
      }
      var message := Message(nextId, content, serverId, userId, isAnonymous, now);
      ghost var t := Snapshot();
      messages := messages + [message];
      nextId := nextId + 1;
      PostKeepsConsistent(t, message);
      assert Snapshot() == t.(messages := t.messages + [message]);
      assert IdsBelow(Snapshot(), nextId);
      r := Ok(message.id);
    }

    /** `deleteExpiredMessages`: selects every message posted before
        `now - 24h`, deletes them one by one, and returns how many. */
    method DeleteExpiredMessages(now: int) returns (count: nat)
      requires Valid()
      modifies this
      ensures Valid()
      ensures messages == Retained(old(messages), now - RetentionMs)
      ensures forall m :: m in messages ==> m.timestamp >= now - RetentionMs
      ensures forall m :: m in old(messages) && m.timestamp >= now - RetentionMs ==> m in messages
      ensures count == |Expired(old(messages), now - RetentionMs)|
      ensures count == |old(messages)| - |messages|
      ensures users == old(users) && servers == old(servers) && members == old(members) && nextId == old(nextId)
    {
      var cutoff := now - RetentionMs;
      var selected := Expired(messages, cutoff);
      ghost var before := messages;
      DeleteNone(before);
      assert IdsOf(selected[..0]) == {};
      var i := 0;
      while i < |selected|
        invariant 0 <= i <= |selected|
        invariant messages == WithoutIds(before, IdsOf(selected[..i]))
        invariant users == old(users) && servers == old(servers) && members == old(members) && nextId == old(nextId)
      {
        DeleteNext(before, selected, i);
        messages := WithoutIds(messages, {selected[i].id});
        i := i + 1;
      }
      assert selected[..i] == selected;
      DeleteExpiredIds(before, cutoff);
      SweepKeepsConsistent(old(Snapshot()), messages);
      assert Snapshot() == old(Snapshot()).(messages := messages);
      assert IdsBelow(Snapshot(), nextId);
      SweepCount(before, cutoff);
      count := |selected|;
    }
  }
}
