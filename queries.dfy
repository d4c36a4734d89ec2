/** The read-only handlers of convex/queries.ts: lookups, the codename
    search, the server listings with their member counts, and the
    membership-gated read of a server's recent messages. Each is a function
    of one snapshot of the store. */
module Queries {
  import opened Collections
  import opened Schema

  /** Most rows the codename search returns. */
  const SearchLimit: nat := 20

  /** Most messages one read of a server returns. */
  const RecentLimit: nat := 100

  /** The public part of a user record; it has no place for the password hash. */
  datatype UserSummary = UserSummary(id: Id, codename: string, userCode: string)

  /** A server record spread with its derived member count and creator name. */
  datatype ServerView = ServerView(server: Server, memberCount: nat, creatorCodename: string)

  /** An entry of a user's server list: the server view and when they joined. */
  datatype UserServer = UserServer(view: ServerView, joinedAt: int)

  /** A message record spread with the name it is shown under. */
  datatype EnrichedMessage = EnrichedMessage(message: Message, authorCodename: string)

  /** `{ _id, codename, userCode }`: the public fields of a user. */
  function Summary(u: User): (e: UserSummary)
    ensures e.id == u.id && e.codename == u.codename && e.userCode == u.userCode
  {
    UserSummary(u.id, u.codename, u.userCode)
  }

  // ---------------------------------------------------------------- users

  /** `getUserByCodename`: the first row of the `by_codename` index with that key. */
  function GetUserByCodename(t: Tables, codename: string): (r: Option<User>)
    ensures r.Some? ==> r.value in t.users && r.value.codename == codename
    ensures r.None? <==> forall u :: u in t.users ==> u.codename != codename
  {
    Find(t.users, (u: User) => u.codename == codename)
  }

  /** In a consistent store the codename lookup finds exactly the user holding it. */
  lemma {:induction false} CodenameLookupExact(t: Tables, u: User)
    requires UniqueCodenames(t.users) && u in t.users
    ensures GetUserByCodename(t, u.codename) == Some(u)
  {
    var r := GetUserByCodename(t, u.codename);
    var i :| 0 <= i < |t.users| && t.users[i] == u;
    var j :| 0 <= j < |t.users| && t.users[j] == r.value;
    assert i == j by {
      assert t.users[i].codename == t.users[j].codename;
    }
  }

  /** `getUserByCode`: the earliest-created user with that code (codes are not unique). */
  function GetUserByCode(t: Tables, userCode: string): (r: Option<User>)
    ensures r.None? <==> forall u :: u in t.users ==> u.userCode != userCode
    ensures r.Some? ==> exists i :: 0 <= i < |t.users| && t.users[i] == r.value && r.value.userCode == userCode &&
                         forall j :: 0 <= j < i ==> t.users[j].userCode != userCode
  {
    Find(t.users, (u: User) => u.userCode == userCode)
  }

  /** `getUserProfile`: the public fields of the user with that id. */
  function GetUserProfile(t: Tables, userId: Id): (r: Option<UserSummary>)
    ensures r.None? <==> forall u :: u in t.users ==> u.id != userId
    ensures r.Some? ==> exists u :: u in t.users && u.id == userId && r.value == Summary(u)
  {
    match UserById(t, userId)
    case None => None
    case Some(u) => Some(Summary(u))
  }

  /** `authenticateUser`: the user whose codename is found, if its stored hash
      equals the one supplied; an unknown codename and a wrong hash both give None. */
  function AuthenticateUser(t: Tables, codename: string, passwordHash: string): (r: Option<User>)
    ensures r.Some? ==> r.value in t.users && r.value.codename == codename && r.value.passwordHash == passwordHash
    ensures (forall u :: u in t.users ==> u.codename != codename) ==> r.None?
  {
    match GetUserByCodename(t, codename)
    case None => None
    case Some(u) => if u.passwordHash != passwordHash then None else Some(u)
  }

  /** With unique codenames, authentication succeeds exactly for a stored
      (codename, hash) pair, and then yields that user. */
  lemma AuthenticateExact(t: Tables, codename: string, passwordHash: string, u: User)
    requires UniqueCodenames(t.users)
    ensures AuthenticateUser(t, codename, passwordHash) == Some(u) <==>
            u in t.users && u.codename == codename && u.passwordHash == passwordHash
  {
    if u in t.users && u.codename == codename {
      CodenameLookupExact(t, u);
    }
  }

  /** ASCII case folding of one character. */
  function LowerChar(c: char): char {
    if 'A' <= c <= 'Z' then (c as int + 32) as char else c
  }

  /** `toLowerCase`, on ASCII letters. */
  function Lower(s: string): (r: string)
    ensures |r| == |s|
    ensures forall i :: 0 <= i < |s| ==> r[i] == LowerChar(s[i])
    ensures forall i :: 0 <= i < |r| ==> !('A' <= r[i] <= 'Z')
  {
    seq(|s|, i requires 0 <= i < |s| => LowerChar(s[i]))
  }

  /** The slice of `hay` starting at `i` is `needle`. */
  predicate OccursAt(hay: string, needle: string, i: int) {
    0 <= i && i + |needle| <= |hay| && hay[i..i + |needle|] == needle
  }

  /** `includes`: `needle` occurs in `hay` at some position (the empty string
      occurs everywhere), tried from the front. */
  predicate Contains(hay: string, needle: string): (b: bool)
    ensures b <==> exists i :: OccursAt(hay, needle, i)
  {
    if |needle| <= |hay| && hay[..|needle|] == needle then
      assert OccursAt(hay, needle, 0);
      true
    else if hay == [] then
      false
    else
      var rest := Contains(hay[1..], needle);
      assert rest ==> exists i :: OccursAt(hay, needle, i) by {
        if rest {
          var i :| OccursAt(hay[1..], needle, i);
          assert hay[1..][i..i + |needle|] == hay[i + 1..i + 1 + |needle|];
          assert OccursAt(hay, needle, i + 1);
        }
      }
      assert (exists i :: OccursAt(hay, needle, i)) ==> rest by {
        if exists i :: OccursAt(hay, needle, i) {
          var i :| OccursAt(hay, needle, i);
          assert hay[1..][i - 1..i - 1 + |needle|] == hay[i..i + |needle|];
          assert OccursAt(hay[1..], needle, i - 1);
        }
      }
      rest
  }

  /** The order of the `by_codename` index. */
  predicate CodenameLe(a: User, b: User) {
    StringLe(a.codename, b.codename)
  }

  lemma CodenameOrderTotal()
    ensures TotalPreorder(CodenameLe)
  {
    forall a: User, b: User ensures CodenameLe(a, b) || CodenameLe(b, a) {
      StringLeTotal(a.codename, b.codename);
    }
    forall a: User, b: User, c: User | CodenameLe(a, b) && CodenameLe(b, c) ensures CodenameLe(a, c) {
      StringLeTransitive(a.codename, b.codename, c.codename);
    }
  }

  /** The users of the `by_codename` index whose lower-cased codename
      contains `term`, each as often as it is stored. */
  function CodenameMatches(t: Tables, term: string): (r: seq<User>)
    ensures forall u :: u in r <==> u in t.users && Contains(Lower(u.codename), term)
    ensures forall u :: multiset(r)[u] == if Contains(Lower(u.codename), term) then multiset(t.users)[u] else 0
    ensures SortedBy(r, CodenameLe)
  {
    var sorted := SortBy(t.users, CodenameLe);
    CodenameOrderTotal();
    SortBySorted(t.users, CodenameLe);
    FilterSorted(sorted, (u: User) => Contains(Lower(u.codename), term), CodenameLe);
    FilterCount(sorted, (u: User) => Contains(Lower(u.codename), term));
    assert forall u :: u in sorted <==> u in multiset(t.users);
    Filter(sorted, (u: User) => Contains(Lower(u.codename), term))
  }

  /** The first `SearchLimit` of `matches`, as public summaries: a page that
      lists a match at the position it holds, codenames in order. */
  lemma SummaryPage(matches: seq<User>, r: seq<UserSummary>)
    requires SortedBy(matches, CodenameLe)
    requires r == Map(Summary, Take(matches, SearchLimit))
    ensures |r| == (if |matches| <= SearchLimit then |matches| else SearchLimit)
    ensures forall k :: 0 <= k < |r| ==> r[k] == Summary(matches[k])
    ensures forall e :: e in r ==> exists u :: u in matches && e == Summary(u)
    ensures |r| < SearchLimit ==> forall u :: u in matches ==> Summary(u) in r
    ensures forall i, j :: 0 <= i < j < |r| ==> StringLe(r[i].codename, r[j].codename)
  {
    forall e | e in r ensures exists u :: u in matches && e == Summary(u) {
      var k :| 0 <= k < |r| && r[k] == e;
      assert matches[k] in matches;
    }
    forall u | u in matches && |r| < SearchLimit ensures Summary(u) in r {
      var i :| 0 <= i < |matches| && matches[i] == u;
      assert r[i] == Summary(u);
    }
    forall i, j | 0 <= i < j < |r| ensures StringLe(r[i].codename, r[j].codename) {
      assert CodenameLe(matches[i], matches[j]);
    }
  }

  /** `searchUsersByCodename`: case-insensitive substring search over the
      codename index, first 20 matches in codename order, public fields only. */
  function SearchUsersByCodename(t: Tables, q: string): (r: seq<UserSummary>)
    ensures |r| <= SearchLimit
    ensures forall e :: e in r ==>
              exists u :: u in t.users && Contains(Lower(u.codename), Lower(q)) && e == Summary(u)
    ensures |r| < SearchLimit ==>
              forall u :: u in t.users && Contains(Lower(u.codename), Lower(q)) ==> Summary(u) in r
    ensures forall i, j :: 0 <= i < j < |r| ==> StringLe(r[i].codename, r[j].codename)
    ensures var matches := CodenameMatches(t, Lower(q));
            |r| == (if |matches| <= SearchLimit then |matches| else SearchLimit) &&
            forall k :: 0 <= k < |r| ==> r[k] == Summary(matches[k])
  {
    var matches := CodenameMatches(t, Lower(q));
    SummaryPage(matches, Map(Summary, Take(matches, SearchLimit)));
    Map(Summary, Take(matches, SearchLimit))
  }

  /** The search keeps the first matches: a matching user who is not listed
      means the page is full and every listed codename sorts no later than
      that user's. */
  lemma SearchKeepsFirst(t: Tables, q: string, u: User)
    requires u in t.users && Contains(Lower(u.codename), Lower(q))
    ensures var r := SearchUsersByCodename(t, q);
            Summary(u) in r ||
            (|r| == SearchLimit && forall k :: 0 <= k < |r| ==> StringLe(r[k].codename, u.codename))
  {
    var matches := CodenameMatches(t, Lower(q));
    var r := SearchUsersByCodename(t, q);
    assert u in matches;
    var i :| 0 <= i < |matches| && matches[i] == u;
    if i < |r| {
      assert r[i] == Summary(u);
    } else {
      forall k | 0 <= k < |r| ensures StringLe(r[k].codename, u.codename) {
        assert CodenameLe(matches[k], matches[i]);
      }
    }
  }

  // -------------------------------------------------------------- servers

  /** `user?.codename || "Unknown"`: the codename of the user with that id,
      or "Unknown" when there is no such user or the codename is empty. */
  function DisplayName(t: Tables, userId: Id): (r: string)
    ensures r != ""
    ensures r == "Unknown" || exists u :: u in t.users && u.id == userId && u.codename == r
    ensures (forall u :: u in t.users ==> u.id != userId) ==> r == "Unknown"
  {
    match UserById(t, userId)
    case Some(u) => if u.codename != "" then u.codename else "Unknown"
    case None => "Unknown"
  }

  /** With unique user ids, a stored user is shown under its own codename,
      or as "Unknown" when that codename is empty. */
  lemma DisplayNameOf(t: Tables, u: User)
    requires UniqueUserIds(t.users) && u in t.users
    ensures DisplayName(t, u.id) == (if u.codename == "" then "Unknown" else u.codename)
  {
    UserByIdExact(t, u);
  }

  /** A server spread with `memberCount` and `creatorCodename`: the record
      kept whole, no count for a server nobody has joined, and the creator
      shown under their codename. */
  function View(t: Tables, s: Server): (v: ServerView)
    ensures v.server == s
    ensures v.memberCount == 0 <==> forall m :: m in t.members ==> m.serverId != s.id
    ensures v.creatorCodename != ""
    ensures UniqueUserIds(t.users) ==>
              forall u :: u in t.users && u.id == s.createdBy ==>
                v.creatorCodename == (if u.codename == "" then "Unknown" else u.codename)
  {
    assert UniqueUserIds(t.users) ==>
             forall u :: u in t.users && u.id == s.createdBy ==>
               DisplayName(t, s.createdBy) == (if u.codename == "" then "Unknown" else u.codename) by {
      if UniqueUserIds(t.users) {
        forall u | u in t.users && u.id == s.createdBy
          ensures DisplayName(t, s.createdBy) == (if u.codename == "" then "Unknown" else u.codename)
        {
          DisplayNameOf(t, u);
        }
      }
    }
    ServerView(s, MemberCount(t.members, s.id), DisplayName(t, s.createdBy))
  }

  /** `getServerInfo`: the server with that id and its derived fields, or None. */
  function GetServerInfo(t: Tables, serverId: Id): (r: Option<ServerView>)
    ensures r.None? <==> forall s :: s in t.servers ==> s.id != serverId
    ensures r.Some? ==> r.value.server in t.servers && r.value.server.id == serverId
    ensures r.Some? ==> r.value.memberCount == MemberCount(t.members, serverId)
    ensures r.Some? ==> r.value.creatorCodename == DisplayName(t, r.value.server.createdBy)
  {
    match ServerById(t, serverId)
    case None => None
    case Some(s) => Some(View(t, s))
  }

  /** In a consistent store every server counts at least its owner. */
  lemma ServerInfoCountsOwner(t: Tables, serverId: Id)
    requires OwnersAreMembers(t)
    requires GetServerInfo(t, serverId).Some?
    ensures GetServerInfo(t, serverId).value.memberCount >= 1
  {
    var s := GetServerInfo(t, serverId).value.server;
    assert IsMember(t.members, s.id, s.createdBy);
  }

  /** The order of the `by_created_at` index. */
  predicate CreatedAtLe(a: Server, b: Server) {
    a.createdAt <= b.createdAt
  }

  predicate IsPublic(s: Server) {
    !s.isPrivate
  }

  /** Spreading servers into views keeps each server's multiplicity. */
  lemma ViewsCount(t: Tables, servers: seq<Server>)
    ensures forall s :: multiset(Map(s => View(t, s), servers))[View(t, s)] == multiset(servers)[s]
  {
    var view := s => View(t, s);
    var server := (v: ServerView) => v.server;
    forall s ensures multiset(Map(view, servers))[view(s)] == multiset(servers)[s] {
      MapCountInjective(view, server, servers, s);
    }
  }

  /** The public servers in `by_created_at` order, each once per stored copy. */
  function PublicByCreation(t: Tables): (r: seq<Server>)
    ensures forall s :: s in r <==> s in t.servers && !s.isPrivate
    ensures forall s :: multiset(r)[s] == if IsPublic(s) then multiset(t.servers)[s] else 0
    ensures SortedBy(r, CreatedAtLe)
  {
    var sorted := SortBy(t.servers, CreatedAtLe);
    assert TotalPreorder(CreatedAtLe);
    SortBySorted(t.servers, CreatedAtLe);
    FilterSorted(sorted, IsPublic, CreatedAtLe);
    FilterCount(sorted, IsPublic);
    assert forall s :: s in sorted <==> s in multiset(t.servers);
    Filter(sorted, IsPublic)
  }

  /** `getPublicServers`: the non-private servers in `by_created_at` order, each
      spread with its member count and creator name, once per stored copy. */
  function GetPublicServers(t: Tables): (r: seq<ServerView>)
    ensures forall v :: v in r ==> v.server in t.servers && !v.server.isPrivate && v == View(t, v.server)
    ensures forall s :: s in t.servers && !s.isPrivate ==> View(t, s) in r
    ensures forall s :: s in t.servers && !s.isPrivate ==> multiset(r)[View(t, s)] == multiset(t.servers)[s]
    ensures forall i, j :: 0 <= i < j < |r| ==> r[i].server.createdAt <= r[j].server.createdAt
  {
    var listed := PublicByCreation(t);
    var view := s => View(t, s);
    MapMembers(view, listed);
    ViewsCount(t, listed);
    var r := Map(view, listed);
    assert forall i :: 0 <= i < |r| ==> r[i].server == listed[i];
    r
  }

  predicate HeldBy(userId: Id, m: Membership) {
    m.userId == userId
  }

  /** The user's rows of the `by_user` index, in joining order, each row
      once per stored copy. */
  function MembershipsOf(t: Tables, userId: Id): (r: seq<Membership>)
    ensures forall m :: m in r <==> m in t.members && m.userId == userId
    ensures forall m :: multiset(r)[m] == if m.userId == userId then multiset(t.members)[m] else 0
  {
    FilterCount(t.members, m => HeldBy(userId, m));
    Filter(t.members, m => HeldBy(userId, m))
  }

  /** The user's rows come in the order they were inserted. */
  lemma MembershipsInJoiningOrder(t: Tables, userId: Id)
    ensures Embeds(MembershipsOf(t, userId), t.members)
  {
    FilterEmbeds(t.members, m => HeldBy(userId, m));
  }

  /** One entry of the user's server list, or None when the membership's
      server is not stored. */
  function EntryFor(t: Tables, m: Membership): (r: Option<UserServer>)
    ensures r.None? <==> forall s :: s in t.servers ==> s.id != m.serverId
    ensures r.Some? ==> r.value.joinedAt == m.joinedAt && r.value.view.server in t.servers &&
                        r.value.view.server.id == m.serverId && r.value.view == View(t, r.value.view.server)
  {
    match ServerById(t, m.serverId)
    case None => None
    case Some(s) => Some(UserServer(View(t, s), m.joinedAt))
  }

  /** `getUserServers`: one entry per membership of the user whose server
      exists, in joining order, carrying that membership's `joinedAt`. */
  function GetUserServers(t: Tables, userId: Id): (r: seq<UserServer>)
    ensures |r| <= |MembershipsOf(t, userId)|
    ensures forall e :: e in r ==> exists m :: m in t.members && m.userId == userId && EntryFor(t, m) == Some(e)
    ensures forall m :: m in t.members && m.userId == userId && EntryFor(t, m).Some? ==> EntryFor(t, m).value in r
    ensures forall e :: multiset(r)[e] == |Filter(MembershipsOf(t, userId), (m: Membership) => EntryFor(t, m) == Some(e))|
  {
    var mine := MembershipsOf(t, userId);
    var entry := m => EntryFor(t, m);
    MapMembers(entry, mine);
    var r := Present(Map(entry, mine));
    assert forall e :: multiset(r)[e] == |Filter(mine, (m: Membership) => EntryFor(t, m) == Some(e))| by {
      forall e ensures multiset(r)[e] == |Filter(mine, (m: Membership) => EntryFor(t, m) == Some(e))| {
        PresentCount(Map(entry, mine), e);
        MapCount(entry, mine, Some(e), (m: Membership) => EntryFor(t, m) == Some(e));
      }
    }
    r
  }

  /** In a consistent store no membership is dropped: the list has one entry
      per membership row of the user. */
  lemma UserServersComplete(t: Tables, userId: Id)
    requires MembershipsNameServers(t)
    ensures |GetUserServers(t, userId)| == |MembershipsOf(t, userId)|
  {
    var entry := m => EntryFor(t, m);
    MapMembers(entry, MembershipsOf(t, userId));
    var entries := Map(entry, MembershipsOf(t, userId));
    assert forall o :: o in entries ==> o.Some?;
  }

  /** In a consistent store every server a user created is on their list. */
  lemma OwnServersListed(t: Tables, s: Server)
    requires OwnersAreMembers(t) && s in t.servers
    ensures exists e :: e in GetUserServers(t, s.createdBy) && e.view.server.id == s.id
  {
    var m :| m in t.members && m.serverId == s.id && m.userId == s.createdBy;
    assert EntryFor(t, m).Some?;
    assert EntryFor(t, m).value in GetUserServers(t, s.createdBy);
  }

  // ------------------------------------------------------------- messages

  /** The order of the `by_server_timestamp` index within one server. */
  predicate TimestampLe(a: Message, b: Message) {
    a.timestamp <= b.timestamp
  }

  predicate InServer(serverId: Id, m: Message) {
    m.serverId == serverId
  }

  /** All of a server's messages in `by_server_timestamp` order, oldest
      first: a permutation of the server's stored messages. */
  function Timeline(t: Tables, serverId: Id): (r: seq<Message>)
    ensures forall m :: m in r <==> m in t.messages && m.serverId == serverId
    ensures forall m :: multiset(r)[m] == if m.serverId == serverId then multiset(t.messages)[m] else 0
    ensures SortedBy(r, TimestampLe)
  {
    var own := Filter(t.messages, m => InServer(serverId, m));
    FilterCount(t.messages, m => InServer(serverId, m));
    assert TotalPreorder(TimestampLe);
    SortBySorted(own, TimestampLe);
    assert forall m :: m in SortBy(own, TimestampLe) <==> m in multiset(own);
    SortBy(own, TimestampLe)
  }

  predicate SameTime(stamp: int, m: Message) {
    m.timestamp == stamp
  }

  /** Messages of a server stamped in the same millisecond come out of the
      index in the order they were posted. */
  lemma TimelineTiesInPostingOrder(t: Tables, serverId: Id, stamp: int)
    ensures Filter(Timeline(t, serverId), (m: Message) => SameTime(stamp, m)) ==
            Filter(t.messages, (m: Message) => InServer(serverId, m) && SameTime(stamp, m))
  {
    var own := Filter(t.messages, (m: Message) => InServer(serverId, m));
    var k := Message(0, [], serverId, 0, false, stamp);
    assert TotalPreorder(TimestampLe);
    SortByStable(own, TimestampLe, k, (m: Message) => SameTime(stamp, m));
    FilterTwice(t.messages, (m: Message) => InServer(serverId, m), (m: Message) => SameTime(stamp, m),
                (m: Message) => InServer(serverId, m) && SameTime(stamp, m));
  }

  /** A message as shown: "Anonymous" for an anonymous one, otherwise its
      author's display name. The record, author id included, is kept whole. */
  function Enrich(t: Tables, m: Message): (e: EnrichedMessage)
    ensures e.message == m
    ensures m.isAnonymous ==> e.authorCodename == "Anonymous"
  {
    if m.isAnonymous then EnrichedMessage(m, "Anonymous")
    else EnrichedMessage(m, DisplayName(t, m.userId))
  }

  /** `getServerMessages`: refused to non-members; for a member, the newest
      100 messages of the server (fetched newest first, then reversed), so the
      result is the last 100 of the timeline, oldest first. */
  function GetServerMessages(t: Tables, serverId: Id, userId: Id): (r: Result<seq<EnrichedMessage>>)
    ensures r.Err? <==> !IsMember(t.members, serverId, userId)
    ensures r.Err? ==> r.error == AccessDenied
    ensures r.Ok? ==>
              var all := Timeline(t, serverId);
              |r.value| == (if |all| <= RecentLimit then |all| else RecentLimit) &&
              forall k :: 0 <= k < |r.value| ==> r.value[k] == Enrich(t, all[|all| - |r.value| + k])
  {
    if !IsMember(t.members, serverId, userId) then Err(AccessDenied)
    else
      var all := Timeline(t, serverId);
      var newestFirst := Take(Reverse(all), RecentLimit);
      var enrich := m => Enrich(t, m);
      ReverseMap(enrich, newestFirst);
      ReverseTakeReverse(all, RecentLimit);
      var r := Reverse(Map(enrich, newestFirst));
      assert r == Map(enrich, Last(all, RecentLimit));
      Ok(r)
  }

  /** `r` shows, in order, the last `|r|` messages of `all`. */
  predicate ShowsTail(all: seq<Message>, r: seq<EnrichedMessage>) {
    |r| <= |all| && forall k :: 0 <= k < |r| ==> r[k].message == all[|all| - |r| + k]
  }

  /** What a successful read shows: the tail of the server's timeline, all
      of it or the last `RecentLimit` messages. */
  lemma RecentIsTail(t: Tables, serverId: Id, userId: Id)
    requires IsMember(t.members, serverId, userId)
    ensures var r := GetServerMessages(t, serverId, userId).value;
            ShowsTail(Timeline(t, serverId), r) &&
            (|r| == |Timeline(t, serverId)| || |r| == RecentLimit) &&
            forall k :: 0 <= k < |r| ==> r[k] == Enrich(t, r[k].message)
  {
  }

  /** The tail of a time-ordered list is time-ordered. */
  lemma TailChronological(all: seq<Message>, r: seq<EnrichedMessage>)
    requires SortedBy(all, TimestampLe) && ShowsTail(all, r)
    ensures forall i, j :: 0 <= i < j < |r| ==> r[i].message.timestamp <= r[j].message.timestamp
  {
    forall i, j | 0 <= i < j < |r| ensures r[i].message.timestamp <= r[j].message.timestamp {
      assert TimestampLe(all[|all| - |r| + i], all[|all| - |r| + j]);
    }
  }

  /** The read returns the server's messages in non-decreasing time order. */
  lemma RecentChronological(t: Tables, serverId: Id, userId: Id)
    requires IsMember(t.members, serverId, userId)
    ensures var r := GetServerMessages(t, serverId, userId).value;
            forall i, j :: 0 <= i < j < |r| ==> r[i].message.timestamp <= r[j].message.timestamp
  {
    RecentIsTail(t, serverId, userId);
    TailChronological(Timeline(t, serverId), GetServerMessages(t, serverId, userId).value);
  }

  /** Every shown message is one of the list. */
  lemma TailMembers(all: seq<Message>, r: seq<EnrichedMessage>)
    requires ShowsTail(all, r)
    ensures forall k :: 0 <= k < |r| ==> r[k].message in all
  {
    forall k | 0 <= k < |r| ensures r[k].message in all {
      assert r[k].message == all[|all| - |r| + k];
    }
  }

  /** Every returned message is a stored message of that server. */
  lemma RecentFromServer(t: Tables, serverId: Id, userId: Id)
    requires IsMember(t.members, serverId, userId)
    ensures var r := GetServerMessages(t, serverId, userId).value;
            forall k :: 0 <= k < |r| ==> r[k].message in t.messages && r[k].message.serverId == serverId
  {
    RecentIsTail(t, serverId, userId);
    TailMembers(Timeline(t, serverId), GetServerMessages(t, serverId, userId).value);
  }

  /** A message of a time-ordered list is either shown in the tail, or the
      tail is full and the message is no newer than any shown one. */
  lemma TailKeepsNewest(all: seq<Message>, r: seq<EnrichedMessage>, limit: nat, m: Message)
    requires SortedBy(all, TimestampLe) && ShowsTail(all, r)
    requires |r| == |all| || |r| == limit
    requires m in all
    ensures (exists k :: 0 <= k < |r| && r[k].message == m) ||
            (|r| == limit && forall k :: 0 <= k < |r| ==> m.timestamp <= r[k].message.timestamp)
  {
    var start := |all| - |r|;
    var i :| 0 <= i < |all| && all[i] == m;
    if i >= start {
      assert r[i - start].message == m;
    } else {
      forall k | 0 <= k < |r| ensures m.timestamp <= r[k].message.timestamp {
        assert TimestampLe(all[i], all[start + k]);
      }
    }
  }

  /** The read keeps the newest: each message of the server is either
      returned, or the read is full and the message is no newer than any
      returned one. */
  lemma RecentAreNewest(t: Tables, serverId: Id, userId: Id, m: Message)
    requires IsMember(t.members, serverId, userId)
    requires m in t.messages && m.serverId == serverId
    ensures var r := GetServerMessages(t, serverId, userId).value;
            (exists k :: 0 <= k < |r| && r[k].message == m) ||
            (|r| == RecentLimit && forall k :: 0 <= k < |r| ==> m.timestamp <= r[k].message.timestamp)
  {
    RecentIsTail(t, serverId, userId);
    TailKeepsNewest(Timeline(t, serverId), GetServerMessages(t, serverId, userId).value, RecentLimit, m);
  }

  /** Names of enriched messages: "Anonymous" for an anonymous one, the
      author's display name otherwise. */
  lemma EnrichedNames(t: Tables, r: seq<EnrichedMessage>)
    requires forall k :: 0 <= k < |r| ==> r[k] == Enrich(t, r[k].message)
    ensures forall k :: 0 <= k < |r| ==>
              r[k].authorCodename == (if r[k].message.isAnonymous then "Anonymous" else DisplayName(t, r[k].message.userId))
  {
  }

  /** An anonymous message is always shown as "Anonymous", whoever reads it;
      any other is shown under its author's display name. */
  lemma RecentMasksAnonymous(t: Tables, serverId: Id, userId: Id)
    requires IsMember(t.members, serverId, userId)
    ensures var r := GetServerMessages(t, serverId, userId).value;
            forall k :: 0 <= k < |r| ==>
              r[k].authorCodename == (if r[k].message.isAnonymous then "Anonymous" else DisplayName(t, r[k].message.userId))
  {
    RecentIsTail(t, serverId, userId);
    EnrichedNames(t, GetServerMessages(t, serverId, userId).value);
  }
}
