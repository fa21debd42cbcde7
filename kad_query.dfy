/** The pool of running Kademlia queries (protocols/kad/src/query.rs).

    A query is driven by a peer iterator that decides which peer to contact
    next. The peer iterators live in a module that is not part of this model;
    here each of them is an oracle: whatever state it reports, and whether a
    reported success or failure changed it, arrives as a parameter. The one
    piece of iterator state that is modelled is whether it has finished: a
    finished query stops yielding peers and reports `Finished`.

    Instants and durations are natural numbers (one common unit); the
    statistics counters are `u32` and wrap, the id counter is `usize`
    (64 bits) and wraps. */
module KadQuery {
  import opened Wrappers
  import opened Identity

  const U32_MODULUS: nat := 0x1_0000_0000
  const USIZE_MODULUS: nat := 0x1_0000_0000_0000_0000

  type U32 = x: nat | x < U32_MODULUS
  type Usize = x: nat | x < USIZE_MODULUS
  type NonZero = x: nat | x > 0 witness 1

  type Instant = nat
  type Duration = nat

  /** Kademlia's replication parameter `k` and its parallelism `alpha`
      (constants of the kad crate's lib.rs, which is not part of this
      model). */
  const K_VALUE: NonZero := 20
  const ALPHA_VALUE: NonZero := 3

  /** The 60-second default query timeout, in milliseconds. */
  const DEFAULT_TIMEOUT: Duration := 60_000

  // ---------------------------------------------------------------------------
  // Machine arithmetic

  /** `u32` addition that wraps around (the release-build meaning of `+`). */
  function WrappingAdd32(a: U32, b: U32): (r: U32)
    ensures a + b < U32_MODULUS ==> r == a + b
    ensures a + b >= U32_MODULUS ==> r == a + b - U32_MODULUS
  {
    (a + b) % U32_MODULUS
  }

  /** `u32` subtraction that wraps around. */
  function WrappingSub32(a: U32, b: U32): (r: U32)
    ensures b <= a ==> r == a - b
    ensures b > a ==> r == a + U32_MODULUS - b
  {
    (a - b) % U32_MODULUS
  }

  /** `usize::wrapping_add(1)`. */
  function WrappingIncrement(n: Usize): (m: Usize)
    ensures n + 1 < USIZE_MODULUS ==> m == n + 1
    ensures n + 1 == USIZE_MODULUS ==> m == 0
  {
    (n + 1) % USIZE_MODULUS
  }

  /** Subtraction of instants, which saturates at zero. */
  function Since(later: Instant, earlier: Instant): (d: Duration)
    ensures earlier <= later ==> earlier + d == later
    ensures later < earlier ==> d == 0
  {
    if earlier <= later then later - earlier else 0
  }

  /** The id counter after `n` calls of `next_query_id` from `start`. */
  function AdvanceCounter(start: Usize, n: nat): Usize {
    if n == 0 then start else WrappingIncrement(AdvanceCounter(start, n - 1))
  }

  /** `n` increments move the counter by `n`, modulo `2^64`. */
  lemma {:induction false} AdvanceCounterIsModular(start: Usize, n: nat)
    ensures AdvanceCounter(start, n) == (start + n) % USIZE_MODULUS
  {
    if n > 0 {
      AdvanceCounterIsModular(start, n - 1);
      var x := start + n - 1;
      assert x % USIZE_MODULUS + 1 < USIZE_MODULUS ==> (x % USIZE_MODULUS + 1) % USIZE_MODULUS == (x + 1) % USIZE_MODULUS;
    }
  }

  /** The ids the pool hands out do not repeat until the counter wraps: any
      fewer than `2^64` consecutive ids are pairwise distinct. */
  lemma QueryIdsDoNotRepeat(start: Usize, a: nat, b: nat)
    requires a < b < a + USIZE_MODULUS
    ensures AdvanceCounter(start, a) != AdvanceCounter(start, b)
  {
    AdvanceCounterIsModular(start, a);
    AdvanceCounterIsModular(start, b);
    var x, y := start + a, start + b;
    assert y == x + (b - a) && 0 < b - a < USIZE_MODULUS;
  }

  // ---------------------------------------------------------------------------
  // Statistics

  /** Order on optional instants with `None` lowest, as Rust orders `Option`. */
  predicate OptionLe(a: Option<Instant>, b: Option<Instant>) {
    a.None? || (b.Some? && a.value <= b.value)
  }

  /** `QueryStats`: execution statistics of one query. */
  datatype QueryStats = QueryStats(requests: U32, success: U32, failure: U32,
                                   start: Option<Instant>, end: Option<Instant>)
  {
    /** `QueryStats::empty()`. */
    static function Empty(): (r: QueryStats)
      ensures r.NumPending() == 0
      ensures forall now :: r.Duration(now).None?
    {
      QueryStats(0, 0, 0, None, None)
    }

    function NumRequests(): U32 { requests }
    function NumSuccesses(): U32 { success }
    function NumFailures(): U32 { failure }

    /** `num_pending`: the requests still without an answer. When the answers
        do not outnumber the requests this is the plain difference; otherwise
        the `u32` arithmetic wraps. */
    function NumPending(): (r: U32)
      ensures success + failure <= requests ==> r + success + failure == requests
    {
      WrappingSub32(requests, WrappingAdd32(success, failure))
    }

    /** `duration`, with the current instant passed in: from the start to the
        end, or to `now` if the query has not ended; `None` before it has
        started. */
    function Duration(now: Instant): (d: Option<Duration>)
      ensures d.Some? <==> start.Some?
      ensures start.Some? && end.Some? && start.value <= end.value ==> start.value + d.value == end.value
      ensures start.Some? && end.None? && start.value <= now ==> start.value + d.value == now
    {
      if start.Some? then Some(Since(end.UnwrapOr(now), start.value)) else None
    }

    /** `merge`: counters add up (wrapping), the start is the earliest of the
        starts that are present and the end is the latest end, `None` lowest. */
    function Merge(other: QueryStats): (r: QueryStats)
      ensures requests + other.requests < U32_MODULUS ==> r.requests == requests + other.requests
      ensures success + other.success < U32_MODULUS ==> r.success == success + other.success
      ensures failure + other.failure < U32_MODULUS ==> r.failure == failure + other.failure
      ensures r.start.Some? <==> start.Some? || other.start.Some?
      ensures r.start == start || r.start == other.start
      ensures start.Some? ==> r.start.value <= start.value
      ensures other.start.Some? ==> r.start.value <= other.start.value
      ensures r.end == end || r.end == other.end
      ensures OptionLe(end, r.end) && OptionLe(other.end, r.end)
    {
      QueryStats(
        WrappingAdd32(requests, other.requests),
        WrappingAdd32(success, other.success),
        WrappingAdd32(failure, other.failure),
        match (start, other.start)
        case (Some(a), Some(b)) => Some(if a <= b then a else b)
        case (a, b) => a.Or(b),
        if OptionLe(end, other.end) then other.end else end)
    }
  }

  /** Merging with the empty statistics changes nothing, on either side. */
  lemma MergeEmptyIsIdentity(s: QueryStats)
    ensures s.Merge(QueryStats.Empty()) == s
    ensures QueryStats.Empty().Merge(s) == s
  {
  }

  /** The order of merging does not matter. */
  lemma MergeCommutes(s: QueryStats, t: QueryStats)
    ensures s.Merge(t) == t.Merge(s)
  {
  }

  /** Merging the statistics of a multi-phase query does not depend on how
      the phases are grouped. */
  lemma MergeAssociates(s: QueryStats, t: QueryStats, u: QueryStats)
    ensures s.Merge(t).Merge(u) == s.Merge(t.Merge(u))
  {
  }

  // ---------------------------------------------------------------------------
  // Queries

  /** A `QueryId`: the value of the pool's counter when the query was added. */
  datatype QueryId = QueryId(n: Usize)

  /** The query-specific information `QueryInfo` (its payloads are not part
      of this model, except the result count of a closest-peers lookup). */
  datatype QueryInfo =
    | GetClosestPeers(numResults: NonZero)
    | Bootstrap
    | GetProviders
    | AddProvider
    | GetRecord
    | PutRecord

  /** `QueryConfig`: the timeout of one query, the replication factor, the
      parallelism of iterative queries and whether they use disjoint paths. */
  datatype QueryConfig = QueryConfig(timeout: Duration, replicationFactor: NonZero,
                                     parallelism: NonZero, disjointQueryPaths: bool)

  /** `QueryConfig::default()`. */
  const DefaultQueryConfig: QueryConfig := QueryConfig(DEFAULT_TIMEOUT, K_VALUE, ALPHA_VALUE, false)

  /** The part of `ClosestPeersIterConfig` this file sets. */
  datatype ClosestPeersIterConfig = ClosestPeersIterConfig(numResults: NonZero, parallelism: NonZero)

  /** The three peer selection strategies, with the inputs they were built
      from. */
  datatype IterKind =
    | Closest(config: ClosestPeersIterConfig, target: seq<bv8>)
    | ClosestDisjoint(config: ClosestPeersIterConfig, target: seq<bv8>)
    | Fixed(parallelism: NonZero)

  /** A peer iterator, reduced to its kind, its initial peers and whether it
      has finished. */
  datatype PeerIter = PeerIter(kind: IterKind, peers: seq<PeerId>, finished: bool)

  /** What a peer iterator reports when advanced. */
  datatype PeersIterState = Finished | Waiting(peer: Option<PeerId>) | WaitingAtCapacity

  /** What an iterator reports when advanced, given what its oracle would
      report: a finished iterator always reports `Finished`. */
  function Advanced(iter: PeerIter, answer: PeersIterState): (state: PeersIterState)
    ensures iter.finished ==> state == Finished
    ensures !iter.finished ==> state == answer
  {
    if iter.finished then Finished else answer
  }

  /** True when advancing yielded a peer to contact, i.e. one more request. */
  predicate YieldsPeer(state: PeersIterState) {
    state.Waiting? && state.peer.Some?
  }

  class Query {
    const id: QueryId
    var peerIter: PeerIter
    var stats: QueryStats
    /** The query-specific information. The Kademlia behaviour, which is not
        part of this model, updates it; nothing in the pool does. */
    const info: QueryInfo

    /** `Query::new`: a query that has not started, with empty statistics. */
    constructor(id: QueryId, peerIter: PeerIter, info: QueryInfo)
      ensures this.id == id && this.peerIter == peerIter && this.info == info
      ensures stats == QueryStats.Empty()
    {
      this.id := id;
      this.peerIter := peerIter;
      this.info := info;
      stats := QueryStats.Empty();
    }

    function IsFinished(): bool
      reads this
    {
      peerIter.finished
    }

    /** `on_failure`: the failure counter moves exactly when the iterator
        reports (`updated`) that the failure took effect. */
    method OnFailure(peer: PeerId, updated: bool)
      modifies this
      ensures stats == old(stats).(failure := if updated then WrappingAdd32(old(stats.failure), 1) else old(stats.failure))
      ensures peerIter == old(peerIter)
    {
      if updated {
        stats := stats.(failure := WrappingAdd32(stats.failure, 1));
      }
    }

    /** `on_success`: the success counter moves exactly when the iterator
        reports (`updated`) that the success took effect. */
    method OnSuccess(peer: PeerId, newPeers: seq<PeerId>, updated: bool)
      modifies this
      ensures stats == old(stats).(success := if updated then WrappingAdd32(old(stats.success), 1) else old(stats.success))
      ensures peerIter == old(peerIter)
    {
      if updated {
        stats := stats.(success := WrappingAdd32(stats.success, 1));
      }
    }

    /** `next`: advances the iterator (whose oracle would report `answer`);
        the request counter moves exactly when a peer to contact is yielded. */
    method Next(now: Instant, answer: PeersIterState) returns (state: PeersIterState)
      modifies this
      ensures state == Advanced(old(peerIter), answer)
      ensures stats == old(stats).(requests := if YieldsPeer(state) then WrappingAdd32(old(stats.requests), 1) else old(stats.requests))
      ensures peerIter == old(peerIter).(finished := old(peerIter.finished) || state == Finished)
    {
      state := if peerIter.finished then Finished else answer;
      if state == Finished {
        peerIter := peerIter.(finished := true);
      }
      if state.Waiting? && state.peer.Some? {
        stats := stats.(requests := WrappingAdd32(stats.requests, 1));
      }
    }

    /** `try_finish`: closest-peers and fixed iterators always finish; a
        disjoint-paths iterator finishes when the iterator accepts the given
        peers as ending every path (`pathsFinished`). The answer is whether
        the iterator is finished afterwards, so an iterator that had already
        finished answers `true`. */
    method TryFinish(peers: seq<PeerId>, pathsFinished: bool) returns (finished: bool)
      modifies this
      ensures finished <==> !old(peerIter.kind).ClosestDisjoint? || pathsFinished || old(peerIter.finished)
      ensures peerIter == old(peerIter).(finished := old(peerIter.finished) || finished)
      ensures finished == peerIter.finished
      ensures stats == old(stats)
    {
      match peerIter.kind {
        case Closest(_, _) =>
          peerIter := peerIter.(finished := true);
          finished := true;
        case ClosestDisjoint(_, _) =>
          finished := pathsFinished || peerIter.finished;
          if finished {
            peerIter := peerIter.(finished := true);
          }
        case Fixed(_) =>
          peerIter := peerIter.(finished := true);
          finished := true;
      }
    }

    /** What `poll` does to a query it removes: stamps the end time. */
    method Conclude(now: Instant)
      modifies this
      ensures stats == old(stats).(end := Some(now))
      ensures peerIter == old(peerIter)
    {
      stats := stats.(end := Some(now));
    }

    /** `finish`: the iterator is finished whatever its kind. */
    method Finish()
      modifies this
      ensures peerIter == old(peerIter).(finished := true)
      ensures stats == old(stats)
    {
      peerIter := peerIter.(finished := true);
    }
  }

  // ---------------------------------------------------------------------------
  // The pool

  /** The number of results a closest-peers lookup aims for: the lookup's own
      count, `K_VALUE` for a bootstrap, the replication factor otherwise. */
  function NumResults(info: QueryInfo, config: QueryConfig): (n: NonZero)
    ensures info.GetClosestPeers? ==> n == info.numResults
    ensures info.Bootstrap? ==> n == K_VALUE
    ensures !info.GetClosestPeers? && !info.Bootstrap? ==> n == config.replicationFactor
  {
    match info
    case GetClosestPeers(val) => val
    case Bootstrap => K_VALUE
    case _ => config.replicationFactor
  }

  /** `QueryPoolState`: what one `poll` reports. A waiting request names the
      query (by id) and the peer to contact. */
  datatype QueryPoolState =
    | Idle
    | PoolWaiting(request: Option<(QueryId, PeerId)>)
    | PoolFinished(finished: Query)
    | PoolTimeout(timedOut: Query)

  /** Where the scan of `poll` stops on a query. */
  datatype Stop = StopFinished(at: QueryId) | StopWaiting(at: QueryId, peer: PeerId) | StopTimeout(at: QueryId)

  /** The decision `poll` takes on one query, from the state its iterator
      reported and the time since the query started: `None` means go on to
      the next query. */
  function Decide(id: QueryId, state: PeersIterState, elapsed: Duration, timeout: Duration): (s: Option<Stop>)
    ensures s.Some? ==> s.value.at == id
    ensures s == Some(StopFinished(id)) <==> state == Finished
    ensures (exists p :: s == Some(StopWaiting(id, p))) <==> YieldsPeer(state)
    ensures s == Some(StopTimeout(id)) <==> !state.Finished? && !YieldsPeer(state) && elapsed >= timeout
  {
    match state
    case Finished => Some(StopFinished(id))
    case Waiting(Some(p)) => Some(StopWaiting(id, p))
    case _ => if elapsed >= timeout then Some(StopTimeout(id)) else None
  }

  /** The statistics of a query after `poll` visited it: started now unless
      it had started before, one more request if it yielded a peer. */
  function Visited(stats: QueryStats, state: PeersIterState, now: Instant): (s: QueryStats)
    ensures s.start == stats.start.Or(Some(now)) && s.start.Some?
    ensures stats.start.Some? ==> s.start == stats.start
    ensures s.requests == if YieldsPeer(state) then WrappingAdd32(stats.requests, 1) else stats.requests
    ensures s.success == stats.success && s.failure == stats.failure && s.end == stats.end
  {
    stats.(start := stats.start.Or(Some(now)),
           requests := if YieldsPeer(state) then WrappingAdd32(stats.requests, 1) else stats.requests)
  }

  /** The iterator after advancing: finished once it reports `Finished`. */
  function AfterAdvance(iter: PeerIter, answer: PeersIterState): (next: PeerIter)
    ensures next.kind == iter.kind && next.peers == iter.peers
    ensures next.finished <==> iter.finished || answer == Finished
  {
    iter.(finished := iter.finished || Advanced(iter, answer) == Finished)
  }

  /** The decision `poll` takes on a query whose iterator is `iter` and whose
      statistics are `stats` when the scan reaches it, if its oracle would
      report `answer`. The start the scan stamps is the old one, or `now`. */
  function DecideOn(id: QueryId, iter: PeerIter, stats: QueryStats, answer: PeersIterState,
                    now: Instant, timeout: Duration): Option<Stop>
  {
    Decide(id, Advanced(iter, answer), Since(now, stats.start.UnwrapOr(now)), timeout)
  }

  class QueryPool {
    var nextId: Usize
    const config: QueryConfig
    var queries: map<QueryId, Query>

    /** Every query is stored under its own id, so no query object is shared
        by two ids. */
    ghost predicate Valid()
      reads this, queries.Values
    {
      forall id :: id in queries ==> queries[id].id == id
    }

    /** `QueryPool::new`. */
    constructor(config: QueryConfig)
      ensures Valid()
      ensures this.config == config && nextId == 0 && queries == map[]
    {
      this.config := config;
      nextId := 0;
      queries := map[];
    }

    /** `size`: the number of running queries. */
    function Size(): nat
      reads this
    {
      |queries|
    }

    /** `get`. */
    function Get(id: QueryId): (q: Option<Query>)
      reads this
      ensures q.Some? <==> id in queries
      ensures q.Some? ==> q.value == queries[id]
    {
      if id in queries then Some(queries[id]) else None
    }

    /** `next_query_id`: hands out the counter and advances it, wrapping. */
    method NextQueryId() returns (id: QueryId)
      modifies this
      ensures id == QueryId(old(nextId))
      ensures nextId == WrappingIncrement(old(nextId))
      ensures queries == old(queries)
    {
      id := QueryId(nextId);
      nextId := WrappingIncrement(nextId);
    }

    /** `continue_fixed`: the id must not be in use (the source asserts it);
        a new, unstarted query contacting the fixed `peers` is added under it. */
    method ContinueFixed(id: QueryId, peers: seq<PeerId>, info: QueryInfo)
      requires Valid()
      requires id !in queries
      modifies this
      ensures Valid()
      ensures queries.Keys == old(queries).Keys + {id}
      ensures forall k :: k in old(queries) ==> queries[k] == old(queries)[k]
      ensures Size() == old(Size()) + 1
      ensures fresh(queries[id])
      ensures queries[id].peerIter == PeerIter(Fixed(config.replicationFactor), peers, false)
      ensures queries[id].info == info && queries[id].stats == QueryStats.Empty()
      ensures nextId == old(nextId)
    {
      var query := new Query(id, PeerIter(Fixed(config.replicationFactor), peers, false), info);
      queries := queries[id := query];
    }

    /** `add_fixed`: `next_query_id` followed by `continue_fixed`. */
    method AddFixed(peers: seq<PeerId>, info: QueryInfo) returns (id: QueryId)
      requires Valid()
      requires QueryId(nextId) !in queries
      modifies this
      ensures Valid()
      ensures id == QueryId(old(nextId)) && nextId == WrappingIncrement(old(nextId))
      ensures queries.Keys == old(queries).Keys + {id}
      ensures forall k :: k in old(queries) ==> queries[k] == old(queries)[k]
      ensures Size() == old(Size()) + 1
      ensures fresh(queries[id])
      ensures queries[id].peerIter == PeerIter(Fixed(config.replicationFactor), peers, false)
      ensures queries[id].info == info && queries[id].stats == QueryStats.Empty()
    {
      id := NextQueryId();
      ContinueFixed(id, peers, info);
    }

    /** `continue_iter_closest`: a new, unstarted closest-peers query under
        `id`, disjoint or not as configured. The source does not check that
        `id` is unused: a query already under `id` is replaced. */
    method ContinueIterClosest(id: QueryId, target: seq<bv8>, peers: seq<PeerId>, info: QueryInfo)
      requires Valid()
      modifies this
      ensures Valid()
      ensures queries.Keys == old(queries).Keys + {id}
      ensures forall k :: k in old(queries) && k != id ==> queries[k] == old(queries)[k]
      ensures Size() == old(Size()) + (if id in old(queries) then 0 else 1)
      ensures fresh(queries[id])
      ensures var cfg := ClosestPeersIterConfig(NumResults(info, config), config.parallelism);
              queries[id].peerIter ==
                PeerIter(if config.disjointQueryPaths then ClosestDisjoint(cfg, target) else Closest(cfg, target), peers, false)
      ensures queries[id].info == info && queries[id].stats == QueryStats.Empty()
      ensures nextId == old(nextId)
    {
      var cfg := ClosestPeersIterConfig(NumResults(info, config), config.parallelism);
      var kind := if config.disjointQueryPaths then ClosestDisjoint(cfg, target) else Closest(cfg, target);
      var query := new Query(id, PeerIter(kind, peers, false), info);
      queries := queries[id := query];
    }

    /** `add_iter_closest`: `next_query_id` followed by `continue_iter_closest`. */
    method AddIterClosest(target: seq<bv8>, peers: seq<PeerId>, info: QueryInfo) returns (id: QueryId)
      requires Valid()
      modifies this
      ensures Valid()
      ensures id == QueryId(old(nextId)) && nextId == WrappingIncrement(old(nextId))
      ensures queries.Keys == old(queries).Keys + {id}
      ensures forall k :: k in old(queries) && k != id ==> queries[k] == old(queries)[k]
      ensures Size() == old(Size()) + (if id in old(queries) then 0 else 1)
      ensures fresh(queries[id])
      ensures var cfg := ClosestPeersIterConfig(NumResults(info, config), config.parallelism);
              queries[id].peerIter ==
                PeerIter(if config.disjointQueryPaths then ClosestDisjoint(cfg, target) else Closest(cfg, target), peers, false)
      ensures queries[id].info == info && queries[id].stats == QueryStats.Empty()
    {
      id := NextQueryId();
      ContinueIterClosest(id, target, peers, info);
    }

    /** What the scan of `poll` did to every query but the one at `k`: the
        queries before `k` were stamped, advanced and passed over, the
        queries after `k` were not visited. */
    ghost predicate PassedOver(now: Instant, order: seq<QueryId>, answers: seq<PeersIterState>, objs: seq<Query>,
                               iters0: seq<PeerIter>, stats0: seq<QueryStats>, k: nat)
      requires |answers| == |order| == |objs| == |iters0| == |stats0|
      reads set j | 0 <= j < |objs| && j != k :: objs[j]
    {
      && (forall j :: 0 <= j < k && j < |order| ==>
            && DecideOn(order[j], iters0[j], stats0[j], answers[j], now, config.timeout) == None
            && objs[j].peerIter == AfterAdvance(iters0[j], answers[j])
            && objs[j].stats == Visited(stats0[j], Advanced(iters0[j], answers[j]), now))
      && (forall j :: k < j < |order| ==> objs[j].peerIter == iters0[j] && objs[j].stats == stats0[j])
    }

    /** `poll`: visits the queries in the (unspecified) iteration order
        `order`; `answers[j]` is what the iterator of query `order[j]` would
        report if advanced. `objs[j]` is that query object, and `iters0[j]`,
        `stats0[j]` are its iterator and statistics before the call. Each
        visited query is stamped with a start time unless it already has one,
        and is advanced. The scan stops at the first query that yields a peer
        (reported, and left in the pool), that has finished, or that waits
        without a peer and has run for at least the configured timeout
        (removed, stamped with an end time and reported). If the scan runs
        through, the pool reports `Idle` when it holds no query and waiting
        otherwise. `k` is the index at which the scan stopped, `|order|` if it
        ran through. */
    method Poll(now: Instant, order: seq<QueryId>, answers: seq<PeersIterState>)
      returns (r: QueryPoolState, ghost k: nat, ghost objs: seq<Query>,
               ghost iters0: seq<PeerIter>, ghost stats0: seq<QueryStats>)
      requires Valid()
      requires NoDuplicates(order) && |answers| == |order|
      requires forall i :: 0 <= i < |order| ==> order[i] in queries
      requires forall id :: id in queries ==> id in order
      modifies this, queries.Values
      ensures Valid()
      ensures nextId == old(nextId)
      ensures |objs| == |iters0| == |stats0| == |order|
      ensures forall j :: 0 <= j < |order| ==>
                && objs[j] == old(queries)[order[j]]
                && iters0[j] == old(objs[j].peerIter) && stats0[j] == old(objs[j].stats)
      ensures k <= |order|
      // the queries before `k` were passed over, the one at `k` stopped the scan
      ensures PassedOver(now, order, answers, objs, iters0, stats0, k)
      ensures k < |order| ==> DecideOn(order[k], iters0[k], stats0[k], answers[k], now, config.timeout).Some?
      ensures k < |order| ==>
                && objs[k].peerIter == AfterAdvance(iters0[k], answers[k])
                && objs[k].stats ==
                     var visited := Visited(stats0[k], Advanced(iters0[k], answers[k]), now);
                     if r.PoolWaiting? then visited else visited.(end := Some(now))
      // the report, and the pool's membership
      ensures r.Idle? <==> old(queries) == map[]
      ensures r == PoolWaiting(None) <==> k == |order| && old(queries) != map[]
      ensures r.PoolWaiting? && r.request.Some? ==>
                k < |order| && r.request.value.0 == order[k] &&
                Advanced(iters0[k], answers[k]) == Waiting(Some(r.request.value.1))
      ensures r.PoolFinished? ==>
                k < |order| && r.finished == objs[k] && Advanced(iters0[k], answers[k]) == Finished
      ensures r.PoolTimeout? ==>
                && k < |order| && r.timedOut == objs[k]
                && !Advanced(iters0[k], answers[k]).Finished? && !YieldsPeer(Advanced(iters0[k], answers[k]))
                && Since(now, stats0[k].start.UnwrapOr(now)) >= config.timeout
      ensures r.PoolFinished? || r.PoolTimeout? ==> queries == old(queries) - {order[k]}
      ensures !r.PoolFinished? && !r.PoolTimeout? ==> queries == old(queries)
    {
      objs, iters0, stats0 := Snapshot(order);
      var stop: Option<Stop>;
      stop, k := Scan(now, order, answers, objs, iters0, stats0);
      if stop.Some? && !stop.value.StopWaiting? {
        var query := Retire(stop.value.at, now, order, answers, objs, iters0, stats0, k);
        r := if stop.value.StopFinished? then PoolFinished(query) else PoolTimeout(query);
      } else if stop.Some? {
        r := PoolWaiting(Some((stop.value.at, stop.value.peer)));
      } else if |queries| == 0 {
        r := Idle;
      } else {
        r := PoolWaiting(None);
      }
    }

    /** The query objects `order` names, with their iterators and statistics;
        distinct ids name distinct objects. */
    ghost method Snapshot(order: seq<QueryId>) returns (objs: seq<Query>, iters: seq<PeerIter>, stats: seq<QueryStats>)
      requires Valid() && NoDuplicates(order)
      requires forall i :: 0 <= i < |order| ==> order[i] in queries
      ensures |objs| == |iters| == |stats| == |order|
      ensures forall j :: 0 <= j < |order| ==>
                objs[j] == queries[order[j]] && iters[j] == objs[j].peerIter && stats[j] == objs[j].stats
      ensures forall i, j :: 0 <= i < j < |order| ==> objs[i] != objs[j]
    {
      objs := seq(|order|, j requires 0 <= j < |order| && order[j] in queries reads this => queries[order[j]]);
      iters := seq(|order|, j requires 0 <= j < |objs| reads objs => objs[j].peerIter);
      stats := seq(|order|, j requires 0 <= j < |objs| reads objs => objs[j].stats);
      forall i, j | 0 <= i < j < |order| ensures objs[i] != objs[j] {
        assert objs[i].id == order[i] && objs[j].id == order[j];
      }
    }

    /** The end of `poll` for a finished or timed-out query: `id` leaves the
        pool and its query is stamped with an end time. The other queries'
        record of the scan is not disturbed. */
    method Retire(id: QueryId, now: Instant, ghost order: seq<QueryId>, ghost answers: seq<PeersIterState>,
                  ghost objs: seq<Query>, ghost iters0: seq<PeerIter>, ghost stats0: seq<QueryStats>, ghost k: nat)
      returns (query: Query)
      requires Valid() && id in queries
      requires |answers| == |order| == |objs| == |iters0| == |stats0| && k < |objs|
      requires objs[k] == queries[id] && forall j :: 0 <= j < |objs| && j != k ==> objs[j] != objs[k]
      requires PassedOver(now, order, answers, objs, iters0, stats0, k)
      modifies this, queries[id]
      ensures Valid()
      ensures query == old(queries[id]) && queries == old(queries) - {id} && nextId == old(nextId)
      ensures query.stats == old(query.stats).(end := Some(now)) && query.peerIter == old(query.peerIter)
      ensures PassedOver(now, order, answers, objs, iters0, stats0, k)
    {
      query := queries[id];
      assert query !in set j | 0 <= j < |objs| && j != k :: objs[j];
      queries := queries - {id};
      query.Conclude(now);
    }

    /** The `for` loop of `poll`: stamps and advances the queries in `order`
        until one of them stops the scan, and says where and why. */
    method Scan(now: Instant, order: seq<QueryId>, answers: seq<PeersIterState>, ghost objs: seq<Query>,
                ghost iters0: seq<PeerIter>, ghost stats0: seq<QueryStats>)
      returns (stop: Option<Stop>, ghost k: nat)
      requires |answers| == |order| == |objs| == |iters0| == |stats0|
      requires forall i :: 0 <= i < |order| ==> order[i] in queries && queries[order[i]] == objs[i]
      requires forall i, j :: 0 <= i < j < |order| ==> objs[i] != objs[j]
      requires forall j :: 0 <= j < |order| ==> iters0[j] == objs[j].peerIter && stats0[j] == objs[j].stats
      modifies set j | 0 <= j < |objs| :: objs[j]
      ensures k <= |order| && (stop.None? <==> k == |order|)
      ensures PassedOver(now, order, answers, objs, iters0, stats0, k)
      ensures k < |order| ==>
                && stop == DecideOn(order[k], iters0[k], stats0[k], answers[k], now, config.timeout)
                && objs[k].peerIter == AfterAdvance(iters0[k], answers[k])
                && objs[k].stats == Visited(stats0[k], Advanced(iters0[k], answers[k]), now)
    {
      var i := 0;
      stop := None;
      while i < |order| && stop.None?
        invariant 0 <= i <= |order|
        invariant stop.Some? ==>
                    (i > 0 && stop == DecideOn(order[i - 1], iters0[i - 1], stats0[i - 1], answers[i - 1], now, config.timeout))
        invariant forall j :: 0 <= j < i && (stop.None? || j < i - 1) ==>
                    DecideOn(order[j], iters0[j], stats0[j], answers[j], now, config.timeout) == None
        invariant forall j :: 0 <= j < i ==>
                    objs[j].peerIter == AfterAdvance(iters0[j], answers[j]) &&
                    objs[j].stats == Visited(stats0[j], Advanced(iters0[j], answers[j]), now)
        invariant forall j :: i <= j < |order| ==> objs[j].peerIter == iters0[j] && objs[j].stats == stats0[j]
      {
        var id := order[i];
        var query := queries[id];
        assert query == objs[i];
        query.stats := query.stats.(start := query.stats.start.Or(Some(now)));
        var state := query.Next(now, answers[i]);
        match state {
          case Finished =>
            stop := Some(StopFinished(id));
          case Waiting(Some(peer)) =>
            stop := Some(StopWaiting(id, peer));
          case _ =>
            var elapsed := Since(now, query.stats.start.UnwrapOr(now));
            if elapsed >= config.timeout {
              stop := Some(StopTimeout(id));
            }
        }
        i := i + 1;
      }
      k := if stop.Some? then i - 1 else i;
      assert PassedOver(now, order, answers, objs, iters0, stats0, k);
    }
  }
}
