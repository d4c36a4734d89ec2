# Anonymous chat backend — a Dafny model

This project models the backend of an anonymous chat service built on Convex.
The store holds four tables: users, servers, serverMembers and messages.
Six mutations change the store:

- register a user under a unique codename;
- create a server together with its owner's membership;
- join a server, where a private server needs its password;
- invite to a server, which only the owner may do;
- post a message, which only a member may do;
- sweep away messages older than 24 hours.

Ten queries read the store: lookups by codename, code and id, authentication, a
capped substring search, the public server list, a user's servers, the
member-only recent-messages read, and the server and profile views.

Layout:

- `collections.dfy` (module `Collections`): generic sequence operations the
  handlers are built from (`filter`, `first`, `slice`, `map`, `reverse`,
  `filter(Boolean)`), a stable insertion sort that stands for Convex index
  order, and their lemmas.
- `schema.dfy` (module `Schema`): the four record types, the failures, the
  by-id lookups and the table invariants (`Consistent`). `getUserById` is
  nothing but `ctx.db.get`, so it is the shared lookup `Schema.UserById`
  rather than a function of its own in `Queries`.
- `queries.dfy` (module `Queries`): every other query as a function over a
  snapshot of the tables.
- `mutations.dfy` (module `Mutations`): the store as a class `Store` whose
  methods update its four table fields in place. It also holds the value-level
  lemmas showing that each mutation keeps the table invariants, and how a
  mutation changes what the queries return.

Modelling choices:

- Document ids are natural numbers handed out by one counter, `nextId`, so
  every id names at most one document of its table; `Consistent` states this.
- A table is a sequence in insertion order.
- An index read is the table sorted stably by the index key. Ties therefore
  stay in creation order, which is Convex's `_creationTime` tie-break.
- `Date.now()` and the generated user code are parameters of the handlers.
- A thrown error is the `Err` case of `Result`; a `null` result is `None`.

## Model

| member | source | states |
|---|---|---|
| Schema.UserById | convex/queries.ts:40-45 | `getUserById`: the user stored under that id, or None exactly when no user has it |
| Schema.UserByIdExact | convex/queries.ts:40-45 | with unique user ids, looking up a stored user's id yields that very user |
| Schema.ServerById | convex/queries.ts:175-176 | `ctx.db.get` on servers: the stored server with that id, or None exactly when there is none |
| Schema.ServerByIdExact | convex/queries.ts:175-176 | with unique server ids, looking up a stored server's id yields that very server |
| Schema.MemberCount | convex/queries.ts:178-187 | the number of membership rows naming the server; 0 exactly when no row names it, and at least 1 when anyone is a member |
| Queries.Summary | convex/queries.ts:36 | `{ _id, codename, userCode }`: the user's id, codename and code; the summary type has no field for the password hash |
| Queries.GetUserByCodename | convex/queries.ts:4-12 | a stored user with exactly that codename, or None exactly when no user has it |
| Queries.CodenameLookupExact | convex/queries.ts:4-12 | with unique codenames the lookup returns the one user holding the codename |
| Queries.GetUserByCode | convex/queries.ts:14-22 | the earliest-created user with that code, or None exactly when no user has it |
| Queries.GetUserProfile | convex/queries.ts:193-200 | None exactly for an unknown id; otherwise only the id, codename and userCode of that user |
| Queries.AuthenticateUser | convex/queries.ts:47-64 | a returned user is stored with that codename and that hash; an unknown codename gives None |
| Queries.AuthenticateExact | convex/queries.ts:47-64 | with unique codenames, authentication returns user u exactly when u is stored with that codename and hash |
| Queries.Lower | convex/queries.ts:27 | same length, each character lowered, no upper-case ASCII letter left |
| Queries.Contains | convex/queries.ts:34 | `includes` holds exactly when the needle occurs at some position of the haystack (the empty needle everywhere) |
| Queries.CodenameOrderTotal | convex/schema.ts:10 | the `by_codename` order is total and transitive |
| Queries.CodenameMatches | convex/queries.ts:28-34 | exactly the stored users whose lowered codename contains the term, each as often as it is stored, in codename order |
| Queries.SearchUsersByCodename | convex/queries.ts:24-38 | position by position the public summaries of the first min(20, n) users of `CodenameMatches` (the n stored users whose lowered codename contains the lowered query, in codename order, each as often as stored); so every entry is such a user, fewer than 20 means every such user is listed, and entries are in codename order |
| Queries.SummaryPage | convex/queries.ts:34-36 | `.slice(0, 20).map(...)` of a codename-sorted list: the first min(20, n) elements as summaries in place, hence only listed elements, all of them below the cap, in codename order |
| Queries.SearchKeepsFirst | convex/queries.ts:28-35 | a matching user missing from the result means the page holds 20 entries whose codenames all sort no later than that user's |
| Queries.DisplayName | convex/queries.ts:183-188 | never empty; the author's codename, or "Unknown" when there is no such user (or its codename is empty) |
| Queries.DisplayNameOf | convex/queries.ts:183-188 | with unique user ids, a stored user is shown under its own codename, and as "Unknown" only when that codename is empty |
| Queries.View | convex/queries.ts:183-189 | the server record spread whole; the count is 0 exactly when no membership row names the server; the creator name is never empty and, with unique user ids, is the creator's own codename (or "Unknown" for an empty one) |
| Queries.GetServerInfo | convex/queries.ts:172-191 | None exactly for a missing server; otherwise that server, its membership-row count and its creator's display name |
| Queries.ServerInfoCountsOwner | convex/queries.ts:172-191 | when every owner is a member, a reported server counts at least one member |
| Queries.PublicByCreation | convex/queries.ts:68-72 | the stored public servers, each as often as it is stored, in non-decreasing createdAt order |
| Queries.GetPublicServers | convex/queries.ts:66-93 | exactly the stored public servers, each as often as it is stored and spread with its count and creator name, in non-decreasing createdAt order |
| Queries.MembershipsOf | convex/queries.ts:98-101 | exactly the membership rows held by the user, each as often as it is stored |
| Queries.MembershipsInJoiningOrder | convex/queries.ts:98-101 | the user's rows keep their insertion order: the list is the table with the other users' rows left out |
| Queries.EntryFor | convex/queries.ts:104-120 | None exactly when the membership's server is not stored; otherwise that server's view with the membership's joinedAt |
| Queries.GetUserServers | convex/queries.ts:95-126 | each entry occurs exactly as often as the user has membership rows yielding it; each carries a stored server's view and the membership's joinedAt; nothing else is listed |
| Queries.UserServersComplete | convex/queries.ts:103-124 | when every membership names a stored server, no membership is dropped |
| Queries.OwnServersListed | convex/queries.ts:95-126 | when owners are members, every server a user created is on that user's list |
| Queries.Timeline | convex/queries.ts:145-147 | a permutation of the server's stored messages (each as often as it is stored), in non-decreasing timestamp order |
| Queries.TimelineTiesInPostingOrder | convex/schema.ts:27 | messages of a server with the same timestamp come out of the index in the order they were posted |
| Queries.Enrich | convex/queries.ts:152-164 | the record is kept whole (author id included); an anonymous message is shown as "Anonymous" |
| Queries.GetServerMessages | convex/queries.ts:128-170 | Access denied exactly for a non-member; otherwise the last min(n, 100) messages of the server's timeline, oldest first, each enriched |
| Queries.RecentChronological | convex/queries.ts:145-168 | the returned messages are in non-decreasing timestamp order |
| Queries.RecentFromServer | convex/queries.ts:145-149 | every returned message is a stored message of that server |
| Queries.TailKeepsNewest | convex/queries.ts:145-149 | in a time-ordered list, a message outside the shown tail means the tail is full and no shown message is older |
| Queries.RecentAreNewest | convex/queries.ts:145-149 | a message of the server left out means 100 were returned, all stamped no earlier than it |
| Queries.RecentMasksAnonymous | convex/queries.ts:152-164 | each entry's name is "Anonymous" for an anonymous message, else the author's display name |
| Collections.Find | convex/queries.ts:10-11 | `.first()`: None exactly when nothing matches; otherwise the earliest matching element |
| Collections.Filter | convex/queries.ts:34 | exactly the elements satisfying the predicate, never more than the input |
| Collections.FilterCount | convex/queries.ts:34 | `filter` keeps each selected element as often as it occurs and drops the others entirely |
| Collections.FilterEmbeds | convex/queries.ts:34 | `filter` only leaves elements out; the kept ones stay in their order |
| Collections.Take | convex/queries.ts:35 | `slice(0, n)`: the first min(n, length) elements |
| Collections.Map | convex/queries.ts:36 | `.map`: as many elements as the input, the i-th the image of the input's i-th |
| Collections.MapCount | convex/queries.ts:104-122 | `.map` yields a value once for every input element whose image it is |
| Collections.MapCountInjective | convex/queries.ts:75-88 | a `.map` whose images can be undone keeps each element's multiplicity |
| Collections.Present | convex/queries.ts:124 | `filter(Boolean)`: exactly the present entries; nothing is dropped when all are present |
| Collections.PresentCount | convex/queries.ts:124 | `filter(Boolean)` keeps each present value as often as it occurs |
| Collections.Reverse | convex/queries.ts:168 | `.reverse()`: same length, the i-th element is the input's i-th from the end |
| Collections.ReverseTakeReverse | convex/queries.ts:148-168 | taking the first n of the descending order and reversing is the last n of the ascending order |
| Collections.SortBy | convex/schema.ts:10-35 | an index read is a permutation of the table |
| Collections.SortBySorted | convex/schema.ts:19 | under a total preorder, an index read is sorted by the key |
| Collections.SortByStable | convex/schema.ts:19 | an index read is stable: rows whose keys tie come out in the order they were inserted |
| Mutations.JoinRefusal | convex/mutations.ts:68-73 | ServerNotFound exactly when no server has the id; any other refusal is InvalidServerPassword |
| Mutations.JoinPasswordRule | convex/mutations.ts:68-73 | for a stored server, join passes its checks exactly when the server is public or the password equals the stored one (an absent password matches only an absent one); any refusal is InvalidServerPassword |
| Mutations.InviteRefusal | convex/mutations.ts:134-139 | ServerNotFound exactly when no server has the id; any other refusal is NotServerOwner |
| Mutations.InviteOwnerRule | convex/mutations.ts:134-139 | for a stored server, invite passes its checks exactly when the caller created it, whatever the server's privacy; any refusal is NotServerOwner |
| Mutations.Expired | convex/mutations.ts:161-166 | exactly the messages stamped before the cutoff |
| Mutations.Retained | convex/mutations.ts:161-170 | exactly the messages stamped at or after the cutoff |
| Mutations.SweepCount | convex/mutations.ts:168-172 | the selected and the kept messages together account for the whole table |
| Mutations.SweepIdempotent | convex/mutations.ts:161-172 | a second sweep with the same clock selects nothing and keeps everything |
| Mutations.WithoutIds | convex/mutations.ts:168-170 | `ctx.db.delete` of a set of ids: exactly the messages whose id is not in the set |
| Mutations.DeleteStep | convex/mutations.ts:168-170 | deleting one more id equals deleting the enlarged id set |
| Mutations.DeleteExpiredIds | convex/mutations.ts:161-170 | with unique message ids, deleting the selected ids leaves exactly the retained messages |
| Mutations.CountAfterJoin | convex/mutations.ts:86-90 | a new membership row adds one to its server's count and changes no other count |
| Mutations.TimelineAfterPost | convex/mutations.ts:115-121 | a message stamped no earlier than the rest of its server goes to the end of that server's timeline |
| Mutations.SentMessageReadLast | convex/mutations.ts:115-121 | after such a post, any member's next read returns it as the last message |
| Mutations.OpenedServerInfo | convex/mutations.ts:42-55 | a newly created server reports exactly one member and its creator's display name |
| Mutations.RegisterKeepsConsistent | convex/mutations.ts:10-27 | registering under a fresh id and an unused codename keeps the table invariants, unique ids and codenames included |
| Mutations.OpenKeepsConsistent | convex/mutations.ts:42-55 | adding a server and its owner's membership, both under fresh ids, keeps the invariants |
| Mutations.JoinKeepsConsistent | convex/mutations.ts:75-90 | adding, under a fresh id, the first membership of a pair on a stored server keeps the invariants, at most one membership per pair included |
| Mutations.PostKeepsConsistent | convex/mutations.ts:104-121 | posting a fresh-id message by a member keeps the invariants |
| Mutations.SweepKeepsConsistent | convex/mutations.ts:168-170 | removing messages keeps the invariants |
| Mutations.Store.CreateUser | convex/mutations.ts:4-31 | a taken codename (exact, case-sensitive) gives CodenameAlreadyExists with nothing changed; otherwise one user with a fresh id is appended, the other tables are unchanged and authentication with that codename and hash returns the new user |
| Mutations.Store.CreateServer | convex/mutations.ts:33-59 | appends one server with a fresh id created by the caller and one membership of the caller, who is then a member |
| Mutations.Store.JoinServer | convex/mutations.ts:61-94 | a refusal (missing server, wrong password) gives that error with nothing changed, even for an existing member; an existing member gets true with nothing changed; otherwise exactly one membership row is appended |
| Mutations.Store.InviteToPrivateServer | convex/mutations.ts:127-156 | the same shape as join, refusing a missing server or a caller who is not its creator, never checking a password |
| Mutations.Store.AddMember | convex/mutations.ts:86-90 | the insert shared by join and invite: exactly one membership row with a fresh id and `now` as joinedAt is appended, the pair is then a member, the invariants hold and nothing else changes |
| Mutations.Store.SendMessage | convex/mutations.ts:96-125 | NotAMember exactly for a non-member, with nothing changed; otherwise exactly one message stamped `now` with the content as given |
| Mutations.Store.DeleteExpiredMessages | convex/mutations.ts:158-174 | the table becomes the retained messages in their order: none older than the cutoff, every newer one kept; the count equals the number removed |

## Left out

- The React client, the hashing of passwords in the browser and the
  `localStorage` session are not modelled. `passwordHash` is an opaque string
  compared for equality.
- The client-side content checks (trim, 500 characters) are not backend
  checks. `SendMessage` stores any content.
- The hourly cron schedule in `convex/crons.ts` is not modelled. The sweep is a
  method taking `now`.
- `Math.random()` and `Date.now()` are parameters. `createUser` builds the
  user code from both; the model takes the finished code as an argument.
  Nothing makes user codes unique, so nothing is claimed about that.
- Mutations.Store.CreateServer: the source reads the clock twice, once for
  `createdAt` and once for `joinedAt`. The model uses one `now` for both.
- Each handler is atomic. Concurrent invocations, Convex transactions and
  real-time subscriptions are not modelled. The `Promise.all` fan-out in the
  queries is an ordinary map.
- Queries.Lower: `toLowerCase` is modelled for ASCII letters only. Other
  characters are left as they are.
- String order in the `by_codename` index is lexicographic by character code.
  Convex's own ordering of strings is not modelled beyond that.
- Mutations.Store.DeleteExpiredMessages: the source selects the expired
  messages through the `by_timestamp` index. The model selects them in table
  order. The set deleted and the count are the same either way.
- The query results spread the whole server record, the stored password
  included. The model keeps the record whole in the same way, so the views
  carry the password. An anonymous message also keeps its author id. Nothing
  is claimed about hiding either.
- Integer widths: timestamps and counts are unbounded integers. JavaScript
  numbers are doubles, but no value in these handlers comes near 2^53.
- Convex's argument validators are not modelled. All ids are untyped natural
  numbers shared by every table. In Convex, an id of the wrong table
  (`v.id("servers")`, `v.id("users")` at convex/mutations.ts:37, 63-64,
  99-100 and 129-131, and convex/queries.ts:41, 96, 130-131, 173 and 194) is
  rejected before the handler runs.
  In the model a wrong-table server id reads as a missing row:
  `getServerInfo` gives None, `joinServer` and `inviteToPrivateServer` give
  ServerNotFound, and `sendMessage` and `getServerMessages` give NotAMember
  and AccessDenied. A wrong-table user id is a missing row only where it is
  looked up: `getUserById` and `getUserProfile` give None, `getUserServers`
  gives an empty list, and `sendMessage` and `getServerMessages` refuse it
  unless a row was stored for it. Where the handler stores the id, the model
  accepts it instead. `Store.CreateServer` stores it as `createdBy` and
  inserts a membership row for it. `Store.JoinServer` appends a membership
  row for it once the server checks pass. `Store.InviteToPrivateServer` does
  the same for the invited user. The schema's own id fields (convex/schema.ts:15,
  23-24 and 30-31) are unchecked in the same way.
- Queries.GetUserServers: the contract gives each entry's multiplicity, not
  the order of the entries. The list follows the user's membership rows,
  whose insertion order `Queries.MembershipsInJoiningOrder` states, but the
  order is not carried through the map and `filter(Boolean)`.
