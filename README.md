# A Dafny model of three rust-libp2p components

This project models three parts of rust-libp2p and proves properties of them.

- **Allow/block list** (`allow_block_list.dfy`, module `AllowBlockList`). This
  is a network behaviour that keeps a set of peers. As an allow list it admits
  only the peers in the set. As a block list it admits every peer not in the
  set. Removing a peer from an allow list, or adding one to a block list, queues
  the peer so that the swarm closes all its connections. `poll` hands the queue
  out oldest first.
- **Rendezvous registrations** (`rendezvous_server.dfy`, module
  `RendezvousServer`). This is the store of a rendezvous server plus its
  request handler. Peers register a signed record under a namespace, with a TTL
  that must lie within the configured bounds. Re-registering replaces the earlier
  registration. Discovery hands out pages of registrations together with a
  cookie. Discovering again with that cookie returns only registrations that
  earlier pages did not contain. When a registration's TTL runs out, it expires
  and is scrubbed from every cookie.
- **Kademlia query pool** (`kad_query.dfy`, module `KadQuery`). This is the pool
  of running queries. Each query has a peer iterator, statistics and
  query-specific information. The pool hands out query ids from a wrapping
  counter. `poll` stamps each query with a start time and advances it. It stops
  at the first query that has a peer to contact, that has finished, or that has
  timed out.

`wrappers.dfy` holds `Option`, `Result` and `NoDuplicates`. `identity.dfy` holds
the opaque identities: peers, addresses and connections.

How the model represents the source:

- The state the source changes in place is a Dafny `class`:
  - `Behaviour` has a `PeerList` and a queue (`seq`).
  - `Registrations` has three `map` fields.
  - `Query` and `QueryPool` are classes; each `Query` is a heap object shared
    between the pool and its caller.
- The source's loops are `while` loops with invariants:
  - the `filter_map(..).take(..)` of discovery;
  - `cookies.retain(..)`;
  - the expiry loop of `poll`;
  - the scan of `QueryPool::poll`.
- Hash-map iteration order is not specified by the source. The model takes it as
  a parameter (`order`) that lists each key exactly once. In the rendezvous
  store this is stated as distinct keys of the map, as many as the map has;
  `Wrappers.ListingCoversSet` shows that such a listing names every key.
- Random ids are parameters: the registration id, which must not be in use, and
  the cookie id.
- Firing timers arrive as a sequence of registration ids.
- The current instant is a parameter (`now`).
- A Kademlia peer iterator, which is not part of this model, is an oracle:
  - what it reports when advanced is a parameter (`answer`);
  - whether it accepted a success, failure or finish request is also a parameter;
  - the only iterator state the model keeps is whether it has finished.
- Counters are modelled exactly as they wrap in a release build:
  - the `u32` statistics counters wrap at `2^32`;
  - the `usize` id counter wraps at `2^64`.
- `Instant` subtraction saturates at zero.

## Model

| member | source | states |
|---|---|---|
| AllowBlockList.PeerList.Enforce | misc/allow-block-list/src/lib.rs:206-224 | an allow list denies exactly the peers it lacks, with `NotAllowed`; a block list denies exactly the peers it holds, with `Blocked`; the denial names the peer |
| AllowBlockList.EnforceMatchesAdmits | misc/allow-block-list/src/lib.rs:206-224 | `Enforce` accepts exactly the peers the list admits (the reference reading of the two lists) |
| AllowBlockList.Behaviour.constructor | misc/allow-block-list/src/lib.rs:79-96 | a default behaviour has an empty list of the requested kind and nothing queued |
| AllowBlockList.Behaviour.AllowPeer | misc/allow-block-list/src/lib.rs:104-116 | returns whether the peer was new; the peer is added; nothing is queued; the peer is then admitted |
| AllowBlockList.Behaviour.DisallowPeer | misc/allow-block-list/src/lib.rs:118-133 | returns whether the peer was present; the peer is removed; it is queued for closing exactly when it was present; it is then denied with `NotAllowed` |
| AllowBlockList.Behaviour.BlockPeer | misc/allow-block-list/src/lib.rs:142-157 | returns whether the peer was new; the peer is added; it is queued for closing exactly when it was new; it is then denied with `Blocked` |
| AllowBlockList.Behaviour.UnblockPeer | misc/allow-block-list/src/lib.rs:159-171 | returns whether the peer was present; the peer is removed; nothing is queued; the peer is then admitted |
| AllowBlockList.Behaviour.HandleEstablishedInboundConnection | misc/allow-block-list/src/lib.rs:233-243 | accepted exactly when the list admits the remote peer; otherwise it carries the denial `Enforce` gives |
| AllowBlockList.Behaviour.HandlePendingOutboundConnection | misc/allow-block-list/src/lib.rs:245-257 | a dial to an unknown peer is always accepted; a dial to a known peer is accepted exactly when the peer is admitted; an accepted dial adds no addresses |
| AllowBlockList.Behaviour.HandleEstablishedOutboundConnection | misc/allow-block-list/src/lib.rs:259-270 | accepted exactly when the list admits the remote peer; otherwise it carries the denial `Enforce` gives |
| AllowBlockList.Behaviour.Poll | misc/allow-block-list/src/lib.rs:283-296 | pops the oldest queued peer and closes all its connections; `Pending` when the queue is empty; the list is unchanged |
| RendezvousServer.Config.WithMinTtl | protocols/rendezvous/src/server.rs:55-58 | sets the lower TTL bound and keeps the upper one |
| RendezvousServer.Config.WithMaxTtl | protocols/rendezvous/src/server.rs:60-63 | sets the upper TTL bound and keeps the lower one |
| RendezvousServer.AtMostOneRegistrationPerPair | protocols/rendezvous/src/server.rs:359-366 | under the store invariant, two distinct stored registrations never belong to the same peer and namespace |
| RendezvousServer.CheckTtl | protocols/rendezvous/src/server.rs:393-406 | accepts exactly the TTLs within the bounds; `TooLong` with the upper bound exactly when the TTL exceeds it; otherwise `TooShort` with the lower bound exactly when the TTL is below it |
| RendezvousServer.CrossedBoundsRejectEverything | protocols/rendezvous/src/server.rs:393-406 | with a lower bound above the upper bound, every TTL is refused |
| RendezvousServer.Entries | protocols/rendezvous/src/server.rs:473-475 | the bijective map's entries, as (key, id) pairs in iteration order |
| RendezvousServer.Page | protocols/rendezvous/src/server.rs:473-493 | the page of `get`: the ids of the first `limit` entries, in iteration order, not handed out under the cookie and in the requested namespace if any; its lemmas follow |
| RendezvousServer.EntriesHaveDistinctIds | protocols/rendezvous/src/server.rs:355 | since the map from (peer, namespace) to id is bijective, the entries in iteration order carry pairwise distinct ids |
| RendezvousServer.PageIsBounded | protocols/rendezvous/src/server.rs:473-493 | a page holds at most `limit` ids, and no more ids than there are entries |
| RendezvousServer.PageIsFiltered | protocols/rendezvous/src/server.rs:476-490 | every id of a page is the id of an entry that was not handed out under the cookie and is in the requested namespace, if one was requested |
| RendezvousServer.PageHasNoDuplicates | protocols/rendezvous/src/server.rs:473-493 | when the entries carry distinct ids, no id appears twice in a page |
| RendezvousServer.PageIsComplete | protocols/rendezvous/src/server.rs:473-493 | a page shorter than its limit contains every matching entry |
| RendezvousServer.PageIgnoresAbsentIds | protocols/rendezvous/src/server.rs:476-480 | ids that occur in no entry do not change a page |
| RendezvousServer.Remember | protocols/rendezvous/src/server.rs:495 | the cookie's new set holds exactly the ids it held before plus the ids of the page |
| RendezvousServer.PagesConcatenate | protocols/rendezvous/src/server.rs:473-501 | a page of `a` ids followed by the page of `b` ids discovered with its cookie equals the page of `a + b` ids, so pagination neither repeats nor skips a registration |
| RendezvousServer.PageOfNoMatchIsEmpty | protocols/rendezvous/src/server.rs:473-493 | when no entry matches, the page is empty |
| RendezvousServer.ExhaustedCookieYieldsNothing | protocols/rendezvous/src/server.rs:473-501 | after a page that did not use up its limit, discovering with its cookie yields nothing |
| RendezvousServer.SeenUnder | protocols/rendezvous/src/server.rs:468-471 | the ids the cookie has already handed out; none for a missing or unknown cookie |
| RendezvousServer.Budget | protocols/rendezvous/src/server.rs:491 | the page size: the limit, `u64::MAX` by default |
| RendezvousServer.CookieFits | protocols/rendezvous/src/server.rs:455-466 | the namespace check of `get`; `CookieFitsExactly` states when it refuses |
| RendezvousServer.CookieFitsExactly | protocols/rendezvous/src/server.rs:455-466 | a cookie is refused exactly when it is tied to a namespace and the request is for all namespaces or for another namespace |
| RendezvousServer.Scrubbed | protocols/rendezvous/src/server.rs:517-523 | the cookie table after one expiry: each cookie loses the id and cookies left empty are dropped; `ScrubbedForgetsId` and `ScrubCookies` state its properties |
| RendezvousServer.ScrubbedForgetsId | protocols/rendezvous/src/server.rs:517-523 | after scrubbing, no cookie mentions the expired id, no cookie is left empty, and no cookie is added |
| RendezvousServer.ScrubCookies | protocols/rendezvous/src/server.rs:517-523 | a cookie survives exactly when it still holds an id other than the expired one, and it keeps its set minus that id |
| RendezvousServer.RemoveByRight | protocols/rendezvous/src/server.rs:525-526 | removes exactly the pairs mapped to the expired id and keeps the others unchanged |
| RendezvousServer.ScrubbedAll | protocols/rendezvous/src/server.rs:511-536 | the cookie table after several expiries in firing order, one `Scrubbed` after the other |
| RendezvousServer.ScrubbedAllRemovesEach | protocols/rendezvous/src/server.rs:511-536 | after several expiries a cookie survives exactly when it held an id outside the expired ones, and it holds its old set minus them; no cookie holds an expired id and no cookie is added |
| RendezvousServer.RemoveAllByRight | protocols/rendezvous/src/server.rs:525-527 | the pair table after several expiries: exactly the pairs mapped to an expired id are gone, the others keep their ids |
| RendezvousServer.RemoveAllByRightStep | protocols/rendezvous/src/server.rs:525-527 | one more expiry on the pair table is one more id in the expired sequence |
| RendezvousServer.TakeMatching | protocols/rendezvous/src/server.rs:473-493 | the loop collects exactly the page: the first `limit` entries, in iteration order, that match the cookie and the namespace |
| RendezvousServer.Lookup | protocols/rendezvous/src/server.rs:503-506 | the page's registrations, in page order |
| RendezvousServer.PageOfStoreIsSound | protocols/rendezvous/src/server.rs:473-506 | a page drawn from a consistent store names only stored registrations, so the lookup cannot fail; it names none twice, none already in the cookie, at most `limit`, and only registrations of the requested namespace |
| RendezvousServer.InsertKeepsInvariant | protocols/rendezvous/src/server.rs:389-437 | mapping a pair to a fresh id, dropping the pair's earlier registration and storing the new registration under the fresh id keeps the two maps consistent: the pair map stays injective, its ids are exactly the stored ids, and each stored registration belongs to its pair |
| RendezvousServer.RemoveKeepsInvariant | protocols/rendezvous/src/server.rs:439-447 | removing a pair together with its registration keeps the two maps consistent |
| RendezvousServer.RemoveByRightKeepsInvariant | protocols/rendezvous/src/server.rs:525-527 | removing an id from both maps, on the pair side by value, keeps the two maps consistent |
| RendezvousServer.Registrations.WithConfig | protocols/rendezvous/src/server.rs:378-387 | an empty, consistent store with the configured bounds |
| RendezvousServer.Registrations.Add | protocols/rendezvous/src/server.rs:389-437 | always: `TooLong` above the maximum, `TooShort` below the minimum, and in both cases nothing changes. On success: the pair maps to the new id, the earlier registration of the pair is dropped, the new one is stored, and the store stays consistent |
| RendezvousServer.Registrations.Remove | protocols/rendezvous/src/server.rs:439-447 | drops the pair and its registration if present, otherwise changes nothing; cookies are untouched; the store stays consistent |
| RendezvousServer.Registrations.Get | protocols/rendezvous/src/server.rs:449-509 | refused exactly when the cookie does not fit, and then nothing changes. On success: the page is the first `limit` ids (default `u64::MAX`) matching the namespace and not in the cookie; the new cookie for the namespace remembers the old cookie's ids plus the page; the registrations are the stored ones, none repeated |
| RendezvousServer.Registrations.Expire | protocols/rendezvous/src/server.rs:517-534 | one fired timer: the id leaves every cookie, and emptied cookies are dropped; it leaves both maps; the registration is reported exactly when it was still stored |
| RendezvousServer.Registrations.ExpireNext | protocols/rendezvous/src/server.rs:517-534 | one expiry as a step of the loop: the cookie and pair tables move from the expiries of `done` to those of `done` and then `id`; the id leaves the registrations, which are reported exactly when stored and otherwise unchanged |
| RendezvousServer.Registrations.PollExpiry | protocols/rendezvous/src/server.rs:511-536 | fires timers in order; it skips timers of registrations already gone and stops at the first one still stored, which is reported and removed, leaving the other registrations as they were. The cookie table ends as `ScrubbedAll` and the pair table as `RemoveAllByRight` of the consumed ids |
| RendezvousServer.HandleRegister | protocols/rendezvous/src/server.rs:256-295 | a record of another peer gives `NotAuthorized`, a TTL out of bounds gives `InvalidTtl`, both with the store untouched. Otherwise `PeerRegistered` with the stored registration and a response with its TTL; the pair maps to the fresh id, its earlier registration is dropped and the new one stored, and nothing else of the store changes; cookies are never touched |
| RendezvousServer.HandleDiscover | protocols/rendezvous/src/server.rs:307-337 | a cookie that fits is served with `DiscoverServed`: exactly the registrations of `get`'s page, sound as `PageIsSound` says, in the event and in the response with the new cookie, which remembers the old cookie's ids plus the page; a cookie that does not fit gives `InvalidCookie` and leaves the cookies as they were; the two tables never change |
| RendezvousServer.HandleRequest | protocols/rendezvous/src/server.rs:250-339 | a record of another peer gives `NotAuthorized` and a bad TTL `InvalidTtl`, both with the store untouched; a good registration is stored exactly as `add` stores it and acknowledged with its TTL. Unregister always emits `PeerUnregistered` without a response and removes the pair and its registration. Discover serves exactly `get`'s page and stores the new cookie, or is refused with `InvalidCookie`. Responses are ignored and change nothing |
| KadQuery.AdvanceCounterIsModular | protocols/kad/src/query.rs:170-174 | `n` calls of `next_query_id` advance the counter by `n` modulo `2^64` |
| KadQuery.QueryIdsDoNotRepeat | protocols/kad/src/query.rs:170-174 | fewer than `2^64` consecutive query ids are pairwise distinct |
| KadQuery.WrappingAdd32 | protocols/kad/src/query.rs:537-539 | `u32` addition as in `merge` (and the counter increments at query.rs lines 371, 388 and 401): the sum when it fits, the sum minus `2^32` otherwise |
| KadQuery.WrappingSub32 | protocols/kad/src/query.rs:506-508 | `u32` subtraction: the difference when it is not negative, the difference plus `2^32` otherwise |
| KadQuery.WrappingIncrement | protocols/kad/src/query.rs:172 | `usize` increment: one more, or zero after the largest value |
| KadQuery.Since | protocols/kad/src/query.rs:205 | the time from `earlier` to `later`, or zero when `later` comes first |
| KadQuery.QueryStats.Empty | protocols/kad/src/query.rs:477-485 | empty statistics: nothing pending and no duration, whatever the current instant |
| KadQuery.QueryStats.NumRequests | protocols/kad/src/query.rs:488-490 | the number of requests the query started |
| KadQuery.QueryStats.NumSuccesses | protocols/kad/src/query.rs:493-495 | the number of successful requests |
| KadQuery.QueryStats.NumFailures | protocols/kad/src/query.rs:498-500 | the number of failed requests |
| KadQuery.QueryStats.NumPending | protocols/kad/src/query.rs:506-508 | when the answers do not outnumber the requests, pending, successes and failures add up to the requests |
| KadQuery.QueryStats.Duration | protocols/kad/src/query.rs:517-529 | present exactly when the query has started; equals end minus start for an ended query, and `now` minus start for a running one |
| KadQuery.QueryStats.Merge | protocols/kad/src/query.rs:535-546 | counters add up when they fit; the start is the earliest present start, present when either is; the end is the later end, with `None` lowest |
| KadQuery.MergeEmptyIsIdentity | protocols/kad/src/query.rs:477-485 | merging with empty statistics, on either side, changes nothing |
| KadQuery.MergeCommutes | protocols/kad/src/query.rs:535-546 | merging does not depend on the order of the two operands |
| KadQuery.MergeAssociates | protocols/kad/src/query.rs:530-546 | accumulating the statistics of a multi-phase query does not depend on grouping |
| KadQuery.Advanced | protocols/kad/src/query.rs:393-398 | a finished iterator reports `Finished`; an unfinished one reports what its oracle reports |
| KadQuery.Query.constructor | protocols/kad/src/query.rs:340-351 | a new query with the given id, iterator and information, and empty statistics |
| KadQuery.Query.OnFailure | protocols/kad/src/query.rs:364-373 | the failure counter goes up by one (wrapping) exactly when the iterator took the failure into account; nothing else changes |
| KadQuery.Query.OnSuccess | protocols/kad/src/query.rs:378-390 | the success counter goes up by one (wrapping) exactly when the iterator took the success into account; nothing else changes |
| KadQuery.Query.Next | protocols/kad/src/query.rs:393-403 | reports the advanced state; the request counter goes up by one exactly when a peer is yielded; a reported `Finished` finishes the iterator |
| KadQuery.Query.TryFinish | protocols/kad/src/query.rs:424-439 | closest-peer and fixed iterators always finish; a disjoint-paths iterator finishes when the given peers end every path; the result is whether the iterator is finished afterwards, so an iterator already finished answers `true` |
| KadQuery.Query.Conclude | protocols/kad/src/query.rs:219-229 | stamps the query's statistics with `now` as end time and changes nothing else |
| KadQuery.Query.Finish | protocols/kad/src/query.rs:445-451 | the iterator is finished, whatever its kind |
| KadQuery.Query.IsFinished | protocols/kad/src/query.rs:457-463 | whether the query's iterator has finished |
| KadQuery.NumResults | protocols/kad/src/query.rs:144-150 | the lookup's own count for `GetClosestPeers`, `K_VALUE` for `Bootstrap`, and the replication factor otherwise |
| KadQuery.Decide | protocols/kad/src/query.rs:194-211 | stop with `Finished` exactly on a finished state, and with waiting exactly when a peer is yielded. Stop with a timeout exactly when neither holds and the elapsed time reaches the timeout. Otherwise go on |
| KadQuery.Visited | protocols/kad/src/query.rs:193-194 | the visited query has a start time, the old one if it had one and `now` otherwise; its request counter goes up exactly when a peer is yielded |
| KadQuery.AfterAdvance | protocols/kad/src/query.rs:194 | advancing keeps the iterator's kind and peers; it is finished afterwards exactly when it was before or its oracle reports `Finished` |
| KadQuery.QueryPool.constructor | protocols/kad/src/query.rs:70-76 | an empty pool with the configuration and the id counter at zero |
| KadQuery.QueryPool.Size | protocols/kad/src/query.rs:89-91 | the number of queries in the pool; the add and continue operations state how it changes |
| KadQuery.QueryPool.Get | protocols/kad/src/query.rs:177-179 | the query stored under the id, or none when the id is not in the pool |
| KadQuery.QueryPool.NextQueryId | protocols/kad/src/query.rs:170-174 | hands out the counter's value and advances the counter, wrapping |
| KadQuery.QueryPool.ContinueFixed | protocols/kad/src/query.rs:108-120 | on an unused id, adds one unstarted fixed-peers query with the replication factor as parallelism; the other queries are unchanged |
| KadQuery.QueryPool.AddFixed | protocols/kad/src/query.rs:98-106 | the next id, with a fixed-peers query added under it |
| KadQuery.QueryPool.ContinueIterClosest | protocols/kad/src/query.rs:133-168 | adds an unstarted closest-peers query, disjoint exactly when so configured, with the `NumResults` count and the configured parallelism. It replaces a query already under the id, so the size grows only for a new id |
| KadQuery.QueryPool.AddIterClosest | protocols/kad/src/query.rs:122-131 | the next id, with an unstarted closest-peers query added under it: disjoint exactly when so configured, with the `NumResults` count, the configured parallelism and the given peers; the size grows by one unless the id was in use; the other queries are unchanged |
| KadQuery.QueryPool.Poll | protocols/kad/src/query.rs:187-236 | scans in iteration order, stamping and advancing each query. It stops at the first query for which `Decide` stops. A yielded peer is reported, with the query left in the pool. A finished or timed-out query is reported, removed and stamped with an end time. After a full scan it is `Idle` exactly when the pool is empty, and waiting otherwise. Queries after the stop are untouched |
| KadQuery.QueryPool.Retire | protocols/kad/src/query.rs:219-229 | removes the stopped query from the pool and returns it stamped with an end time; the queries the scan already passed over stay as the scan left them |
| KadQuery.QueryPool.Scan | protocols/kad/src/query.rs:192-212 | the `for` loop of `poll`: every query before the stop index goes on, the one at it stops, and each visited query is stamped and advanced |

## Left out

- Swarm plumbing of the rendezvous `Behaviour` is not modelled, because it consists of calls into the swarm and the request-response protocol:
  - connection handling, `on_swarm_event` and `poll` (protocols/rendezvous/src/server.rs:77-248);
  - the conversion of the `handle_request` result into swarm events.
- Rendezvous timers: `FuturesUnordered` of `Delay`s is replaced by a sequence of fired registration ids. The TTL of a registration does not decide when its timer fires.
- Rendezvous random ids: `RegistrationId::new()` and the cookie's random id are parameters. `Add` requires the registration id to be unused; a random `u64` collision is not modelled.
- The rendezvous codec is not part of this model:
  - `effective_ttl` is a field of `NewRegistration`;
  - records are reduced to their peer and addresses, with signatures taken as checked;
  - the `u64` limit is an unbounded natural number.
- The rendezvous constants `MIN_TTL` (2 hours) and `MAX_TTL` (72 hours) live in the crate's lib.rs, which is not part of this model. Their values are restated.
- `Query.TryFinish` takes from the disjoint-paths iterator that `finish_paths` answers whether the iterator is finished afterwards; that iterator (protocols/kad/src/query/peers/closest/disjoint.rs) is not part of this model.
- Kademlia peer iterators (`ClosestPeersIter`, `ClosestDisjointPeersIter`, `FixedPeersIter`) are oracles. XOR distance, the iterators' internal peer states and their result sets are not modelled.
- `QueryPeers` (discovered addresses, `into_peerids_iter`, `into_peerinfos_iter`) and `pending_rpcs` are not modelled, because they only carry data for the Kademlia behaviour.
- Accessors that only hand out references are not modelled, because they are plain field reads of the model's classes:
  - `config`, `iter`, `iter_mut`, `get_mut`;
  - `Query::id`, `Query::stats`;
  - `allowed_peers`, `blocked_peers`.
- `QueryPool.Poll` reports a waiting query by its id rather than by a mutable reference to it.
- `QueryStats.Duration` takes the current instant as a parameter instead of reading the clock. Instants and durations are natural numbers in one unit.
- `Query.info` is a constant of the model. Nothing in query.rs changes it after construction; the Kademlia behaviour, which is not part of this model, does.
- `QueryInfo` payloads other than the result count of `GetClosestPeers` are not part of this model.
- Debug builds panic on `u32` overflow in the statistics counters. The model follows release builds, where the counters wrap.
- `K_VALUE` (20) and `ALPHA_VALUE` (3) live in the kad crate's lib.rs, which is not part of this model. Their values are restated.
- The allow/block list's waker: calling the waker after a change is not modelled, since it has no effect on state.
- The allow/block list's `on_connection_handler_event` is not modelled, because its event type is uninhabited.
- The allow/block list is one class whose list kind is fixed at construction. The Rust type parameter becomes preconditions: allow-list methods require an allow list, and block-list methods require a block list.
- The source's tests drive swarms and timers and are not modelled; their claims are covered by the lemmas above.

## Notes on the source

- `continue_iter_closest` (protocols/kad/src/query.rs:133-168) does not check that the id is unused, unlike `continue_fixed`. A query already under the id is replaced, so the pool's size grows only when the id is new.
- `Unregister` (protocols/rendezvous/src/server.rs:297-306) emits `PeerUnregistered` even when the peer had nothing registered in that namespace.
- `remove` (protocols/rendezvous/src/server.rs:439-447) does not scrub the removed id from the cookies. Only expiry does, and expiry drops every cookie whose set becomes empty.
