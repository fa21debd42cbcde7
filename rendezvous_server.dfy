/** The registration store of a rendezvous server
    (protocols/rendezvous/src/server.rs).

    Peers register themselves under a namespace for a bounded time (TTL);
    other peers discover the registrations of a namespace, or of all
    namespaces, page by page. Each answer comes with a cookie that remembers
    which registrations were already handed out, so that discovering again
    with that cookie returns only registrations not seen before.

    The store keeps three tables:
    - `byPeer`, the left-to-right view of a bijective map from a
      `(peer, namespace)` pair to the id of its current registration;
    - `registrations`, from id to registration;
    - `cookies`, from cookie to the set of ids it has already returned. */
module RendezvousServer {
  import opened Wrappers
  import opened Identity

  type Namespace = seq<char>

  /** Time to live, in seconds (`u64`). */
  type Ttl = nat

  /** Identifier of one registration (a random `u64`). */
  type RegistrationId = nat

  const U64_MAX: nat := 0xFFFF_FFFF_FFFF_FFFF

  /** Default bounds on the TTL a peer may ask for: two hours and 72 hours
      (constants of the rendezvous crate's lib.rs, which is not part of this
      model). */
  const MIN_TTL: Ttl := 60 * 60 * 2
  const MAX_TTL: Ttl := 60 * 60 * 72

  /** `Config`: the TTL bounds the store enforces. Nothing requires
      `minTtl <= maxTtl`. */
  datatype Config = Config(minTtl: Ttl, maxTtl: Ttl)
  {
    function WithMinTtl(ttl: Ttl): (c: Config)
      ensures c.minTtl == ttl && c.maxTtl == maxTtl
    {
      this.(minTtl := ttl)
    }

    function WithMaxTtl(ttl: Ttl): (c: Config)
      ensures c.maxTtl == ttl && c.minTtl == minTtl
    {
      this.(maxTtl := ttl)
    }
  }

  /** `Config::default()`. */
  const DefaultConfig: Config := Config(MIN_TTL, MAX_TTL)

  /** A signed peer record; the signature has been checked by the codec, so
      only the peer it names and its addresses are kept. */
  datatype PeerRecord = PeerRecord(peerId: PeerId, addresses: seq<Multiaddr>)

  /** A registration request, with the TTL the codec's `effective_ttl`
      gives it (the requested TTL, or the protocol default). */
  datatype NewRegistration = NewRegistration(namespace: Namespace, record: PeerRecord, effectiveTtl: Ttl)

  /** A registration as stored and as handed out by discovery. */
  datatype Registration = Registration(namespace: Namespace, record: PeerRecord, ttl: Ttl)

  /** A discovery cookie: an opaque random id and the namespace it is
      restricted to (`None` for a cookie valid for all namespaces). */
  datatype Cookie = Cookie(id: nat, namespace: Option<Namespace>)

  datatype TtlOutOfRange =
    | TooLong(bound: Ttl, requested: Ttl)
    | TooShort(bound: Ttl, requested: Ttl)

  datatype CookieNamespaceMismatch = CookieNamespaceMismatch

  /** The error codes of the rendezvous protocol that the server hands out. */
  datatype ErrorCode = NotAuthorized | InvalidTtl | InvalidCookie

  datatype Message =
    | Register(registration: NewRegistration)
    | RegisterResponse(ttlOrError: Result<Ttl, ErrorCode>)
    | Unregister(unregisterNamespace: Namespace)
    | Discover(discoverNamespace: Option<Namespace>, cookie: Option<Cookie>, limit: Option<nat>)
    | DiscoverResponse(page: Result<(seq<Registration>, Cookie), ErrorCode>)

  datatype Event =
    | DiscoverServed(enquirer: PeerId, discovered: seq<Registration>)
    | DiscoverNotServed(enquirer: PeerId, error: ErrorCode)
    | PeerRegistered(peer: PeerId, registration: Registration)
    | PeerNotRegistered(peer: PeerId, namespace: Namespace, error: ErrorCode)
    | PeerUnregistered(peer: PeerId, namespace: Namespace)
    | RegistrationExpired(expired: Registration)

  /** The key of `byPeer`: who registered, and under which namespace. */
  type Key = (PeerId, Namespace)

  // ---------------------------------------------------------------------------
  // The store invariant, on values

  /** `byPeer` is injective, as the left side of a bijective map is. */
  ghost predicate Injective(byPeer: map<Key, RegistrationId>) {
    forall k1, k2 :: k1 in byPeer && k2 in byPeer && k1 != k2 ==> byPeer[k1] != byPeer[k2]
  }

  /** The tables agree: the ids `byPeer` maps to are exactly the stored ids,
      and each stored registration belongs to the pair that maps to it. */
  ghost predicate StoreInvariant(byPeer: map<Key, RegistrationId>,
                                 registrations: map<RegistrationId, Registration>)
  {
    && Injective(byPeer)
    && byPeer.Values == registrations.Keys
    && forall k :: k in byPeer ==>
         registrations[byPeer[k]].record.peerId == k.0 && registrations[byPeer[k]].namespace == k.1
  }

  /** Under the store invariant no `(peer, namespace)` pair has two
      registrations. */
  lemma AtMostOneRegistrationPerPair(byPeer: map<Key, RegistrationId>,
                                     registrations: map<RegistrationId, Registration>,
                                     a: RegistrationId, b: RegistrationId)
    requires StoreInvariant(byPeer, registrations)
    requires a in registrations && b in registrations && a != b
    ensures (registrations[a].record.peerId, registrations[a].namespace)
         != (registrations[b].record.peerId, registrations[b].namespace)
  {
    var ka :| ka in byPeer && byPeer[ka] == a;
    var kb :| kb in byPeer && byPeer[kb] == b;
    assert ka != kb;
  }

  /** The registrations once the pair `key` gave up its registration, if it
      had one. */
  function WithoutPair(byPeer: map<Key, RegistrationId>, registrations: map<RegistrationId, Registration>,
                       key: Key): map<RegistrationId, Registration>
  {
    if key in byPeer then registrations - {byPeer[key]} else registrations
  }

  /** Storing a registration under a fresh id, in place of the pair's earlier
      registration if any, keeps the store consistent. */
  lemma InsertKeepsInvariant(byPeer: map<Key, RegistrationId>, registrations: map<RegistrationId, Registration>,
                             key: Key, freshId: RegistrationId, registration: Registration)
    requires StoreInvariant(byPeer, registrations)
    requires freshId !in registrations
    requires registration.record.peerId == key.0 && registration.namespace == key.1
    ensures StoreInvariant(byPeer[key := freshId],
                           WithoutPair(byPeer, registrations, key)[freshId := registration])
  {
    var byPeer' := byPeer[key := freshId];
    var registrations' := WithoutPair(byPeer, registrations, key)[freshId := registration];
    forall k1, k2 | k1 in byPeer' && k2 in byPeer' && k1 != k2 ensures byPeer'[k1] != byPeer'[k2] {
      if k1 != key && k2 != key {
        assert byPeer'[k1] == byPeer[k1] && byPeer'[k2] == byPeer[k2];
      } else if k1 == key {
        assert byPeer'[k2] == byPeer[k2] && byPeer[k2] in registrations;
      } else {
        assert byPeer'[k1] == byPeer[k1] && byPeer[k1] in registrations;
      }
    }
    forall id | id in registrations' ensures id in byPeer'.Values {
      if id != freshId {
        var k :| k in byPeer && byPeer[k] == id;
        assert k != key;
        assert byPeer'[k] == id;
      } else {
        assert byPeer'[key] == id;
      }
    }
    forall id | id in byPeer'.Values ensures id in registrations' {
      var k :| k in byPeer' && byPeer'[k] == id;
      if k != key {
        assert byPeer[k] == id && id in registrations;
        if key in byPeer {
          assert byPeer[key] != id;
        }
      }
    }
  }

  /** Dropping a pair and its registration keeps the store consistent. */
  lemma RemoveKeepsInvariant(byPeer: map<Key, RegistrationId>, registrations: map<RegistrationId, Registration>,
                             key: Key)
    requires StoreInvariant(byPeer, registrations)
    ensures StoreInvariant(byPeer - {key}, WithoutPair(byPeer, registrations, key))
  {
    var byPeer' := byPeer - {key};
    var registrations' := WithoutPair(byPeer, registrations, key);
    forall x | x in registrations' ensures x in byPeer'.Values {
      var k :| k in byPeer && byPeer[k] == x;
      assert k != key;
      assert byPeer'[k] == x;
    }
    forall x | x in byPeer'.Values ensures x in registrations' {
      var k :| k in byPeer' && byPeer'[k] == x;
      assert byPeer[k] == x;
    }
  }

  /** Dropping an id from both tables keeps the store consistent. */
  lemma RemoveByRightKeepsInvariant(byPeer: map<Key, RegistrationId>, registrations: map<RegistrationId, Registration>,
                                    id: RegistrationId)
    requires StoreInvariant(byPeer, registrations)
    ensures StoreInvariant(RemoveByRight(byPeer, id), registrations - {id})
  {
    var byPeer' := RemoveByRight(byPeer, id);
    forall x | x in registrations - {id} ensures x in byPeer'.Values {
      var k :| k in byPeer && byPeer[k] == x;
      assert byPeer'[k] == x;
    }
  }

  // ---------------------------------------------------------------------------
  // TTL bounds

  /** The check `add` makes before touching the store: too long is checked
      before too short. */
  function CheckTtl(config: Config, ttl: Ttl): (r: Option<TtlOutOfRange>)
    ensures r == None <==> config.minTtl <= ttl <= config.maxTtl
    ensures r.Some? && r.value.TooLong? <==> ttl > config.maxTtl
    ensures r.Some? && r.value.TooShort? <==> ttl <= config.maxTtl && ttl < config.minTtl
    ensures r.Some? ==> r.value.requested == ttl
    ensures r.Some? ==> r.value.bound == if r.value.TooLong? then config.maxTtl else config.minTtl
  {
    if ttl > config.maxTtl then Some(TooLong(config.maxTtl, ttl))
    else if ttl < config.minTtl then Some(TooShort(config.minTtl, ttl))
    else None
  }

  /** With bounds that cross, no TTL is accepted. */
  lemma CrossedBoundsRejectEverything(config: Config, ttl: Ttl)
    requires config.minTtl > config.maxTtl
    ensures CheckTtl(config, ttl).Some?
  {
  }

  // ---------------------------------------------------------------------------
  // Discovery: which ids one page holds

  /** An entry of the bijective map, in iteration order. */
  type Entry = (Key, RegistrationId)

  /** The entries of `byPeer`, visited in the order `order` gives. */
  function Entries(order: seq<Key>, byPeer: map<Key, RegistrationId>): (es: seq<Entry>)
    requires forall i :: 0 <= i < |order| ==> order[i] in byPeer
    ensures |es| == |order|
    ensures forall i :: 0 <= i < |order| ==> es[i] == (order[i], byPeer[order[i]])
  {
    if order == [] then [] else [(order[0], byPeer[order[0]])] + Entries(order[1..], byPeer)
  }

  /** The filter of `get`: an entry is handed out when its id was not handed
      out under the cookie and it is in the requested namespace, if any. */
  predicate Matches(e: Entry, seen: set<RegistrationId>, namespace: Option<Namespace>) {
    e.1 !in seen && (namespace.None? || namespace.value == e.0.1)
  }

  /** The ids of one page: the first `budget` matching entries, in order
      (the `filter_map` followed by `take`). */
  function Page(es: seq<Entry>, seen: set<RegistrationId>, namespace: Option<Namespace>, budget: nat): seq<RegistrationId>
  {
    if budget == 0 || es == [] then []
    else if Matches(es[0], seen, namespace) then [es[0].1] + Page(es[1..], seen, namespace, budget - 1)
    else Page(es[1..], seen, namespace, budget)
  }

  /** No two entries carry the same registration id. */
  predicate DistinctIds(es: seq<Entry>) {
    forall i, j :: 0 <= i < j < |es| ==> es[i].1 != es[j].1
  }

  /** Dropping the first entry keeps the ids distinct, and the first id does
      not occur among the others. */
  lemma DistinctIdsOfTail(es: seq<Entry>)
    requires es != [] && DistinctIds(es)
    ensures DistinctIds(es[1..])
    ensures forall i :: 0 <= i < |es[1..]| ==> es[1..][i].1 != es[0].1
  {
    forall i, j | 0 <= i < j < |es[1..]| ensures es[1..][i].1 != es[1..][j].1 {
      assert es[1..][i] == es[i + 1] && es[1..][j] == es[j + 1];
    }
    forall i | 0 <= i < |es[1..]| ensures es[1..][i].1 != es[0].1 {
      assert es[1..][i] == es[i + 1];
    }
  }

  /** A page never exceeds its budget, nor the number of entries. */
  lemma {:induction false} PageIsBounded(es: seq<Entry>, seen: set<RegistrationId>,
                                         namespace: Option<Namespace>, budget: nat)
    ensures |Page(es, seen, namespace, budget)| <= budget
    ensures |Page(es, seen, namespace, budget)| <= |es|
  {
    if budget > 0 && es != [] {
      PageIsBounded(es[1..], seen, namespace, if Matches(es[0], seen, namespace) then budget - 1 else budget);
    }
  }

  /** Every id of a page comes from an entry that matches. */
  lemma {:induction false} PageIsFiltered(es: seq<Entry>, seen: set<RegistrationId>,
                                          namespace: Option<Namespace>, budget: nat)
    ensures forall k :: 0 <= k < |Page(es, seen, namespace, budget)| ==>
              exists i :: 0 <= i < |es| && es[i].1 == Page(es, seen, namespace, budget)[k] && Matches(es[i], seen, namespace)
  {
    if budget > 0 && es != [] {
      var m := Matches(es[0], seen, namespace);
      var b := if m then budget - 1 else budget;
      var rest := Page(es[1..], seen, namespace, b);
      var page := Page(es, seen, namespace, budget);
      assert page == if m then [es[0].1] + rest else rest;
      PageIsFiltered(es[1..], seen, namespace, b);
      forall k | 0 <= k < |page|
        ensures exists i :: 0 <= i < |es| && es[i].1 == page[k] && Matches(es[i], seen, namespace)
      {
        if m && k == 0 {
          assert es[0].1 == page[0];
        } else {
          var k' := if m then k - 1 else k;
          assert page[k] == rest[k'];
          var i :| 0 <= i < |es[1..]| && es[1..][i].1 == rest[k'] && Matches(es[1..][i], seen, namespace);
          assert es[i + 1] == es[1..][i];
        }
      }
    } else {
      assert Page(es, seen, namespace, budget) == [];
    }
  }

  /** Prepending an element that does not occur keeps a sequence free of
      duplicates. */
  lemma ConsNoDuplicates<T>(x: T, s: seq<T>)
    requires NoDuplicates(s) && forall k :: 0 <= k < |s| ==> s[k] != x
    ensures NoDuplicates([x] + s)
  {
    var t := [x] + s;
    forall i, j | 0 <= i < j < |t| ensures t[i] != t[j] {
      assert t[j] == s[j - 1];
      if i > 0 {
        assert t[i] == s[i - 1];
      }
    }
  }

  /** A page holds no id twice when the entries' ids are distinct. */
  lemma {:induction false} PageHasNoDuplicates(es: seq<Entry>, seen: set<RegistrationId>,
                                               namespace: Option<Namespace>, budget: nat)
    requires DistinctIds(es)
    ensures NoDuplicates(Page(es, seen, namespace, budget))
  {
    if budget > 0 && es != [] {
      DistinctIdsOfTail(es);
      var b := if Matches(es[0], seen, namespace) then budget - 1 else budget;
      var rest := Page(es[1..], seen, namespace, b);
      PageHasNoDuplicates(es[1..], seen, namespace, b);
      if Matches(es[0], seen, namespace) {
        PageIsFiltered(es[1..], seen, namespace, b);
        forall k | 0 <= k < |rest| ensures rest[k] != es[0].1 {
          var i :| 0 <= i < |es[1..]| && es[1..][i].1 == rest[k] && Matches(es[1..][i], seen, namespace);
        }
        ConsNoDuplicates(es[0].1, rest);
      }
    }
  }

  /** A page that stops short of its budget holds every matching entry. */
  lemma {:induction false} PageIsComplete(es: seq<Entry>, seen: set<RegistrationId>,
                                          namespace: Option<Namespace>, budget: nat, e: Entry)
    requires |Page(es, seen, namespace, budget)| < budget
    requires e in es && Matches(e, seen, namespace)
    ensures e.1 in Page(es, seen, namespace, budget)
  {
    if es[0] == e {
    } else {
      assert e in es[1..];
      if Matches(es[0], seen, namespace) {
        PageIsComplete(es[1..], seen, namespace, budget - 1, e);
      } else {
        PageIsComplete(es[1..], seen, namespace, budget, e);
      }
    }
  }

  /** Ids that appear in no entry do not influence a page. */
  lemma {:induction false} PageIgnoresAbsentIds(es: seq<Entry>, seen: set<RegistrationId>,
                                                extra: set<RegistrationId>,
                                                namespace: Option<Namespace>, budget: nat)
    requires forall e :: e in es ==> e.1 !in extra
    ensures Page(es, seen + extra, namespace, budget) == Page(es, seen, namespace, budget)
  {
    if budget == 0 || es == [] {
    } else {
      assert es[0] in es;
      assert Matches(es[0], seen + extra, namespace) == Matches(es[0], seen, namespace);
      forall e | e in es[1..] ensures e.1 !in extra { assert e in es; }
      if Matches(es[0], seen, namespace) {
        PageIgnoresAbsentIds(es[1..], seen, extra, namespace, budget - 1);
      } else {
        PageIgnoresAbsentIds(es[1..], seen, extra, namespace, budget);
      }
    }
  }

  /** The ids a cookie remembers after `ids` were handed out under it
      (`extend` of the set of ids seen so far). */
  function Remember(seen: set<RegistrationId>, ids: seq<RegistrationId>): (r: set<RegistrationId>)
    ensures forall id :: id in r <==> id in seen || id in ids
  {
    seen + set id | id in ids
  }

  /** Skipping an entry that does not match leaves the page as it is. */
  lemma PageSkipsHead(es: seq<Entry>, seen: set<RegistrationId>, namespace: Option<Namespace>, budget: nat)
    requires es != [] && !Matches(es[0], seen, namespace)
    ensures Page(es, seen, namespace, budget) == Page(es[1..], seen, namespace, budget)
  {
  }

  /** With distinct ids, the first entry's id occurs in no later entry. */
  lemma HeadIdNotInTail(es: seq<Entry>)
    requires es != [] && DistinctIds(es)
    ensures forall e :: e in es[1..] ==> e.1 !in {es[0].1}
  {
    DistinctIdsOfTail(es);
    forall e | e in es[1..] ensures e.1 !in {es[0].1} {
      var j :| 0 <= j < |es[1..]| && es[1..][j] == e;
    }
  }

  /** The pagination law: a page of `a` ids followed by the page of `b` ids
      discovered with the cookie the first page produced (the ids seen so far
      plus the first page) is exactly the page of `a + b` ids. Pages that
      follow each other therefore never repeat an id and never skip one. */
  lemma {:induction false} PagesConcatenate(es: seq<Entry>, seen: set<RegistrationId>,
                                            namespace: Option<Namespace>, a: nat, b: nat)
    requires DistinctIds(es)
    ensures var first := Page(es, seen, namespace, a);
            first + Page(es, Remember(seen, first), namespace, b) == Page(es, seen, namespace, a + b)
  {
    var first := Page(es, seen, namespace, a);
    if es == [] {
    } else if a == 0 {
      assert first == [] && Remember(seen, first) == seen;
    } else {
      var tail := es[1..];
      DistinctIdsOfTail(es);
      var seenFirst := Remember(seen, first);
      if Matches(es[0], seen, namespace) {
        var rest := Page(tail, seen, namespace, a - 1);
        PagesConcatenate(tail, seen, namespace, a - 1, b);
        assert seenFirst == Remember(seen, rest) + {es[0].1};
        HeadIdNotInTail(es);
        PageIgnoresAbsentIds(tail, Remember(seen, rest), {es[0].1}, namespace, b);
        PageSkipsHead(es, seenFirst, namespace, b);
      } else {
        PagesConcatenate(tail, seen, namespace, a, b);
        PageSkipsHead(es, seenFirst, namespace, b);
      }
    }
  }

  /** A page in which no entry matches is empty. */
  lemma {:induction false} PageOfNoMatchIsEmpty(es: seq<Entry>, seen: set<RegistrationId>,
                                                namespace: Option<Namespace>, budget: nat)
    requires forall e :: e in es ==> !Matches(e, seen, namespace)
    ensures Page(es, seen, namespace, budget) == []
  {
    if budget == 0 || es == [] {
    } else {
      assert es[0] in es;
      forall e | e in es[1..] ensures !Matches(e, seen, namespace) { assert e in es; }
      PageOfNoMatchIsEmpty(es[1..], seen, namespace, budget);
    }
  }

  /** Discovering again with the cookie of a page that was not cut short by
      its budget returns nothing: that page already held every match. */
  lemma ExhaustedCookieYieldsNothing(es: seq<Entry>, seen: set<RegistrationId>,
                                     namespace: Option<Namespace>, budget: nat, next: nat)
    requires |Page(es, seen, namespace, budget)| < budget
    ensures var first := Page(es, seen, namespace, budget);
            Page(es, Remember(seen, first), namespace, next) == []
  {
    var first := Page(es, seen, namespace, budget);
    var seen' := Remember(seen, first);
    forall e | e in es ensures !Matches(e, seen', namespace) {
      if Matches(e, seen, namespace) {
        PageIsComplete(es, seen, namespace, budget, e);
      }
    }
    PageOfNoMatchIsEmpty(es, seen', namespace, next);
  }

  /** The ids handed out under `cookie` so far: none for no cookie or an
      unknown one. */
  function SeenUnder(cookies: map<Cookie, set<RegistrationId>>, cookie: Option<Cookie>): set<RegistrationId> {
    if cookie.Some? && cookie.value in cookies then cookies[cookie.value] else {}
  }

  /** The page size of `get`: the limit, `u64::MAX` when none is given. */
  function Budget(limit: Option<nat>): nat {
    if limit.Some? then limit.value else U64_MAX
  }

  /** The namespace check of `get`: a cookie tied to a namespace is refused
      when discovering all namespaces, or a different one. */
  predicate CookieFits(namespace: Option<Namespace>, cookie: Option<Cookie>) {
    var cookieNamespace := if cookie.Some? then cookie.value.namespace else None;
    match (namespace, cookieNamespace)
    case (None, Some(_)) => false
    case (Some(ns), Some(cns)) => ns == cns
    case _ => true
  }

  lemma CookieFitsExactly(namespace: Option<Namespace>, cookie: Option<Cookie>)
    ensures !CookieFits(namespace, cookie) <==>
              cookie.Some? && cookie.value.namespace.Some? &&
              (namespace.None? || namespace.value != cookie.value.namespace.value)
  {
  }

  // ---------------------------------------------------------------------------
  // Expiry: scrubbing an id from the cookies

  /** What `cookies.retain` leaves: every cookie loses `id`, and cookies whose
      set is then empty are dropped. */
  function Scrubbed(cookies: map<Cookie, set<RegistrationId>>, id: RegistrationId): map<Cookie, set<RegistrationId>>
  {
    map c | c in cookies && cookies[c] - {id} != {} :: cookies[c] - {id}
  }

  /** A scrubbed cookie table mentions `id` nowhere and holds no empty set. */
  lemma ScrubbedForgetsId(cookies: map<Cookie, set<RegistrationId>>, id: RegistrationId)
    ensures forall c :: c in Scrubbed(cookies, id) ==> id !in Scrubbed(cookies, id)[c]
    ensures forall c :: c in Scrubbed(cookies, id) ==> Scrubbed(cookies, id)[c] != {}
    ensures Scrubbed(cookies, id).Keys <= cookies.Keys
  {
  }

  /** `cookies.retain(..)` with the closure of the expiry step, one cookie at
      a time. */
  method ScrubCookies(cookies: map<Cookie, set<RegistrationId>>, id: RegistrationId)
    returns (kept: map<Cookie, set<RegistrationId>>)
    ensures forall c :: c in kept <==> c in cookies && cookies[c] - {id} != {}
    ensures forall c :: c in kept ==> kept[c] == cookies[c] - {id}
  {
    kept := map[];
    var todo := cookies.Keys;
    while todo != {}
      invariant todo <= cookies.Keys
      invariant forall c :: c in kept <==> c in cookies && c !in todo && cookies[c] - {id} != {}
      invariant forall c :: c in kept ==> kept[c] == cookies[c] - {id}
      decreases todo
    {
      var c :| c in todo;
      var remaining := cookies[c] - {id};
      if remaining != {} {
        kept := kept[c := remaining];
      }
      todo := todo - {c};
    }
  }

  /** The map a `remove_by_right` leaves: `byPeer` without the pair whose id
      is `id`. */
  function RemoveByRight(byPeer: map<Key, RegistrationId>, id: RegistrationId): (m: map<Key, RegistrationId>)
    ensures forall k :: k in m <==> k in byPeer && byPeer[k] != id
    ensures forall k :: k in m ==> m[k] == byPeer[k]
  {
    map k | k in byPeer && byPeer[k] != id :: byPeer[k]
  }

  /** The cookie table after the timers of `ids` fired, in that order: each
      expiry scrubs its id from the table. */
  function ScrubbedAll(cookies: map<Cookie, set<RegistrationId>>, ids: seq<RegistrationId>): map<Cookie, set<RegistrationId>>
    decreases |ids|
  {
    if ids == [] then cookies else Scrubbed(ScrubbedAll(cookies, ids[..|ids| - 1]), ids[|ids| - 1])
  }

  /** Scrubbing several ids one after the other is scrubbing all of them at
      once: a cookie survives exactly when it holds an id outside `ids`, and
      it then holds its old set minus `ids`. */
  lemma {:induction false} ScrubbedAllRemovesEach(cookies: map<Cookie, set<RegistrationId>>, ids: seq<RegistrationId>)
    requires ids != []
    ensures forall c :: c in ScrubbedAll(cookies, ids) <==> c in cookies && cookies[c] - (set id | id in ids) != {}
    ensures forall c :: c in ScrubbedAll(cookies, ids) ==> ScrubbedAll(cookies, ids)[c] == cookies[c] - (set id | id in ids)
    ensures forall c, j :: c in ScrubbedAll(cookies, ids) && 0 <= j < |ids| ==> ids[j] !in ScrubbedAll(cookies, ids)[c]
    ensures ScrubbedAll(cookies, ids).Keys <= cookies.Keys
  {
    var prefix, last := ids[..|ids| - 1], ids[|ids| - 1];
    var all := set id | id in ids;
    assert ids == prefix + [last];
    assert all == (set id | id in prefix) + {last};
    if prefix != [] {
      ScrubbedAllRemovesEach(cookies, prefix);
    } else {
      assert ScrubbedAll(cookies, prefix) == cookies;
    }
    forall c, j | c in ScrubbedAll(cookies, ids) && 0 <= j < |ids| ensures ids[j] !in ScrubbedAll(cookies, ids)[c] {
      assert ids[j] in all;
    }
  }

  /** The pair table after the timers of `ids` fired: every pair mapped to
      one of them is gone, the others keep their ids. */
  function RemoveAllByRight(byPeer: map<Key, RegistrationId>, ids: seq<RegistrationId>): (m: map<Key, RegistrationId>)
    ensures forall k :: k in m <==> k in byPeer && byPeer[k] !in ids
    ensures forall k :: k in m ==> m[k] == byPeer[k]
  {
    map k | k in byPeer && byPeer[k] !in ids :: byPeer[k]
  }

  /** One more expiry removes one more id by value. */
  lemma RemoveAllByRightStep(byPeer: map<Key, RegistrationId>, ids: seq<RegistrationId>, id: RegistrationId)
    ensures RemoveByRight(RemoveAllByRight(byPeer, ids), id) == RemoveAllByRight(byPeer, ids + [id])
  {
    var a, b := RemoveByRight(RemoveAllByRight(byPeer, ids), id), RemoveAllByRight(byPeer, ids + [id]);
    forall k ensures k in a <==> k in b {
      if k in byPeer {
        assert byPeer[k] in ids + [id] <==> byPeer[k] in ids || byPeer[k] == id;
      }
    }
  }

  /** One step of a page from position `i` on: the entry there is taken when
      it matches, skipped otherwise. */
  lemma PageStep(es: seq<Entry>, i: nat, seen: set<RegistrationId>, namespace: Option<Namespace>, budget: nat)
    requires i < |es| && budget > 0
    ensures Page(es[i..], seen, namespace, budget) ==
            if Matches(es[i], seen, namespace) then [es[i].1] + Page(es[i + 1..], seen, namespace, budget - 1)
            else Page(es[i + 1..], seen, namespace, budget)
  {
    assert es[i..][0] == es[i] && es[i..][1..] == es[i + 1..];
  }

  /** The `filter_map(..).take(budget)` loop of `get`, over the map entries
      in iteration order. */
  method TakeMatching(order: seq<Key>, byPeer: map<Key, RegistrationId>, seen: set<RegistrationId>,
                      namespace: Option<Namespace>, budget: nat)
    returns (found: seq<RegistrationId>)
    requires forall i :: 0 <= i < |order| ==> order[i] in byPeer
    ensures found == Page(Entries(order, byPeer), seen, namespace, budget)
  {
    ghost var es := Entries(order, byPeer);
    found := [];
    var i := 0;
    assert es[0..] == es;
    while i < |order| && |found| < budget
      invariant 0 <= i <= |order|
      invariant |found| <= budget
      invariant found + Page(es[i..], seen, namespace, budget - |found|) == Page(es, seen, namespace, budget)
    {
      var key := order[i];
      var id := byPeer[key];
      assert es[i] == (key, id);
      ghost var rest := budget - |found|;
      PageStep(es, i, seen, namespace, rest);
      if id !in seen && (namespace.None? || namespace.value == key.1) {
        assert found + [id] + Page(es[i + 1..], seen, namespace, rest - 1)
            == found + ([id] + Page(es[i + 1..], seen, namespace, rest - 1));
        found := found + [id];
      }
      i := i + 1;
    }
    assert Page(es[i..], seen, namespace, budget - |found|) == [];
  }

  /** The registrations of a page, in page order. */
  function Lookup(ids: seq<RegistrationId>, registrations: map<RegistrationId, Registration>): (regs: seq<Registration>)
    requires forall i :: 0 <= i < |ids| ==> ids[i] in registrations
    ensures |regs| == |ids| && forall i :: 0 <= i < |ids| ==> regs[i] == registrations[ids[i]]
  {
    if ids == [] then [] else [registrations[ids[0]]] + Lookup(ids[1..], registrations)
  }

  /** The entries of the store carry distinct ids: `byPeer` is injective. */
  lemma EntriesHaveDistinctIds(order: seq<Key>, byPeer: map<Key, RegistrationId>)
    requires Injective(byPeer)
    requires NoDuplicates(order) && (forall i :: 0 <= i < |order| ==> order[i] in byPeer)
    ensures DistinctIds(Entries(order, byPeer))
  {
    var es := Entries(order, byPeer);
    forall a, b | 0 <= a < b < |es| ensures es[a].1 != es[b].1 {
      assert order[a] != order[b];
    }
  }

  /** What `get` promises about the ids it hands out: at most `limit` of
      them, none twice, each stored, none handed out under the cookie
      before, each in the requested namespace when one was given. */
  ghost predicate PageIsSound(ids: seq<RegistrationId>, registrations: map<RegistrationId, Registration>,
                              seen: set<RegistrationId>, namespace: Option<Namespace>, budget: nat)
  {
    && |ids| <= budget
    && NoDuplicates(ids)
    && (forall i :: 0 <= i < |ids| ==> ids[i] in registrations && ids[i] !in seen)
    && (namespace.Some? ==> forall i :: 0 <= i < |ids| ==> registrations[ids[i]].namespace == namespace.value)
  }

  /** A page drawn from a consistent store names only stored registrations
      (so the lookup of `get` cannot fail), none twice, none the cookie has
      already returned, at most `budget` of them, and, when a namespace is
      requested, only registrations in that namespace. */
  lemma PageOfStoreIsSound(order: seq<Key>, byPeer: map<Key, RegistrationId>,
                           registrations: map<RegistrationId, Registration>,
                           seen: set<RegistrationId>, namespace: Option<Namespace>, budget: nat)
    requires StoreInvariant(byPeer, registrations)
    requires NoDuplicates(order) && (forall i :: 0 <= i < |order| ==> order[i] in byPeer)
    ensures PageIsSound(Page(Entries(order, byPeer), seen, namespace, budget), registrations, seen, namespace, budget)
  {
    var es := Entries(order, byPeer);
    var ids := Page(es, seen, namespace, budget);
    PageIsBounded(es, seen, namespace, budget);
    EntriesHaveDistinctIds(order, byPeer);
    PageHasNoDuplicates(es, seen, namespace, budget);
    PageIsFiltered(es, seen, namespace, budget);
    forall k | 0 <= k < |ids|
      ensures ids[k] in registrations && ids[k] !in seen
      ensures namespace.Some? ==> registrations[ids[k]].namespace == namespace.value
    {
      var y :| 0 <= y < |es| && es[y].1 == ids[k] && Matches(es[y], seen, namespace);
      assert byPeer[order[y]] == ids[k];
    }
  }


  // ---------------------------------------------------------------------------
  // The store

  class Registrations {
    var byPeer: map<Key, RegistrationId>
    var registrations: map<RegistrationId, Registration>
    var cookies: map<Cookie, set<RegistrationId>>
    const minTtl: Ttl
    const maxTtl: Ttl

    ghost predicate Valid()
      reads this
    {
      StoreInvariant(byPeer, registrations)
    }

    /** `Registrations::with_config`: an empty store with the given bounds. */
    constructor WithConfig(config: Config)
      ensures Valid()
      ensures byPeer == map[] && registrations == map[] && cookies == map[]
      ensures minTtl == config.minTtl && maxTtl == config.maxTtl
    {
      byPeer, registrations, cookies := map[], map[], map[];
      minTtl, maxTtl := config.minTtl, config.maxTtl;
    }

    /** `add`: refuses a TTL outside `[minTtl, maxTtl]` without touching the
        store; otherwise stores the registration under the fresh id `freshId`
        (the random id of the source), replacing any earlier registration of
        the same peer in the same namespace. */
    method Add(newRegistration: NewRegistration, freshId: RegistrationId)
      returns (r: Result<Registration, TtlOutOfRange>)
      requires Valid()
      requires freshId !in registrations
      modifies this
      ensures Valid()
      ensures var ttl := newRegistration.effectiveTtl;
              && (ttl > maxTtl ==> r == Err(TooLong(maxTtl, ttl)))
              && (ttl <= maxTtl && ttl < minTtl ==> r == Err(TooShort(minTtl, ttl)))
              && (minTtl <= ttl <= maxTtl ==>
                    r == Ok(Registration(newRegistration.namespace, newRegistration.record, ttl)))
      ensures r.Err? ==> byPeer == old(byPeer) && registrations == old(registrations)
      ensures r.Ok? ==>
                var key := (newRegistration.record.peerId, newRegistration.namespace);
                && byPeer == old(byPeer)[key := freshId]
                && registrations ==
                     WithoutPair(old(byPeer), old(registrations), key)
                     [freshId := r.value]
      ensures cookies == old(cookies)
    {
      var ttl := newRegistration.effectiveTtl;
      if ttl > maxTtl {
        return Err(TooLong(maxTtl, ttl));
      }
      if ttl < minTtl {
        return Err(TooShort(minTtl, ttl));
      }
      var key := (newRegistration.record.peerId, newRegistration.namespace);
      var registration := Registration(newRegistration.namespace, newRegistration.record, ttl);
      InsertKeepsInvariant(byPeer, registrations, key, freshId, registration);
      if key in byPeer {
        registrations := registrations - {byPeer[key]};
      }
      byPeer := byPeer[key := freshId];
      registrations := registrations[freshId := registration];
      r := Ok(registration);
    }

    /** `remove`: drops the registration of `peer` in `namespace`, if there
        is one; the cookies are left as they are. */
    method Remove(namespace: Namespace, peer: PeerId)
      requires Valid()
      modifies this
      ensures Valid()
      ensures var key := (peer, namespace);
              && byPeer == old(byPeer) - {key}
              && registrations == WithoutPair(old(byPeer), old(registrations), key)
      ensures (peer, namespace) !in old(byPeer) ==> byPeer == old(byPeer) && registrations == old(registrations)
      ensures cookies == old(cookies)
    {
      var key := (peer, namespace);
      RemoveKeepsInvariant(byPeer, registrations, key);
      if key in byPeer {
        registrations := registrations - {byPeer[key]};
      }
      byPeer := byPeer - {key};
    }

    /** `get`: one page of discovery. `order` is the (unspecified) order in
        which the bijective map is iterated: distinct keys of the map, as
        many as it has, hence every key once (`ListingCoversSet`).
        `newCookieId` is the random id of
        the cookie handed back. A cookie that does not fit the requested
        namespace is refused without touching the store. Otherwise the page
        holds the first `limit` (default `u64::MAX`) registrations in the
        namespace that the cookie has not yet returned, and the new cookie
        remembers the old cookie's ids plus the page's. */
    method Get(namespace: Option<Namespace>, cookie: Option<Cookie>, limit: Option<nat>,
               order: seq<Key>, newCookieId: nat)
      returns (r: Result<(seq<Registration>, Cookie), CookieNamespaceMismatch>, ghost ids: seq<RegistrationId>)
      requires Valid()
      requires NoDuplicates(order) && (forall i :: 0 <= i < |order| ==> order[i] in byPeer)
      requires |order| == |byPeer|
      modifies this
      ensures Valid()
      ensures byPeer == old(byPeer) && registrations == old(registrations)
      ensures r.Err? <==> !CookieFits(namespace, cookie)
      ensures r.Err? ==> cookies == old(cookies)
      ensures r.Ok? ==>
                var seen := SeenUnder(old(cookies), cookie);
                var budget := Budget(limit);
                && ids == Page(Entries(order, byPeer), seen, namespace, budget)
                && r.value.1 == Cookie(newCookieId, namespace)
                && cookies == old(cookies)[r.value.1 := Remember(seen, ids)]
                && PageIsSound(ids, registrations, seen, namespace, budget)
                && r.value.0 == Lookup(ids, registrations)
    {
      ids := [];
      if !CookieFits(namespace, cookie) {
        return Err(CookieNamespaceMismatch), ids;
      }
      var seen := SeenUnder(cookies, cookie);
      var budget := Budget(limit);
      var found := TakeMatching(order, byPeer, seen, namespace, budget);
      PageOfStoreIsSound(order, byPeer, registrations, seen, namespace, budget);
      ids := found;
      var newCookie := Cookie(newCookieId, namespace);
      cookies := cookies[newCookie := Remember(seen, found)];
      r := Ok((Lookup(found, registrations), newCookie));
    }

    /** One expiry: the timer of `id` has fired. The id leaves every cookie
        (cookies left empty are dropped) and both maps; the expired
        registration is reported only if it was still stored. */
    method Expire(id: RegistrationId) returns (expired: Option<Registration>)
      requires Valid()
      modifies this
      ensures Valid()
      ensures cookies == Scrubbed(old(cookies), id)
      ensures byPeer == RemoveByRight(old(byPeer), id)
      ensures registrations == old(registrations) - {id}
      ensures expired == if id in old(registrations) then Some(old(registrations)[id]) else None
    {
      RemoveByRightKeepsInvariant(byPeer, registrations, id);
      cookies := ScrubCookies(cookies, id);
      byPeer := RemoveByRight(byPeer, id);
      expired := if id in registrations then Some(registrations[id]) else None;
      registrations := registrations - {id};
    }

    /** One expiry as a step of `poll`'s loop: the tables after the ids in
        `done` expired become the tables after `done` and then `id`. */
    method ExpireNext(ghost cookies0: map<Cookie, set<RegistrationId>>, ghost byPeer0: map<Key, RegistrationId>,
                      ghost done: seq<RegistrationId>, id: RegistrationId)
      returns (expired: Option<Registration>)
      requires Valid()
      requires cookies == ScrubbedAll(cookies0, done) && byPeer == RemoveAllByRight(byPeer0, done)
      modifies this
      ensures Valid()
      ensures cookies == ScrubbedAll(cookies0, done + [id])
      ensures byPeer == RemoveAllByRight(byPeer0, done + [id])
      ensures registrations == old(registrations) - {id}
      ensures expired == if id in old(registrations) then Some(old(registrations)[id]) else None
      ensures expired.None? ==> registrations == old(registrations)
    {
      assert (done + [id])[..|done|] == done;
      RemoveAllByRightStep(byPeer0, done, id);
      expired := Expire(id);
    }

    /** The expiry step of `poll`: `fired` holds the ids whose timers have
        fired, in firing order. Timers of registrations that are gone (removed
        or replaced) are consumed silently; the step stops at the first one
        still stored and reports it. `consumed` is how many timers it used.
        The cookie and pair tables end as after the consumed expiries, one
        after the other (`ScrubbedAllRemovesEach` gives them in closed form). */
    method PollExpiry(fired: seq<RegistrationId>) returns (expired: Option<Registration>, consumed: nat)
      requires Valid()
      modifies this
      ensures Valid()
      ensures consumed <= |fired|
      ensures forall j :: 0 <= j < consumed - 1 ==> fired[j] !in old(registrations)
      ensures expired.None? ==> consumed == |fired| && registrations == old(registrations)
      ensures expired.Some? ==>
                && consumed > 0
                && fired[consumed - 1] in old(registrations)
                && expired.value == old(registrations)[fired[consumed - 1]]
                && registrations == old(registrations) - {fired[consumed - 1]}
      ensures cookies == ScrubbedAll(old(cookies), fired[..consumed])
      ensures byPeer == RemoveAllByRight(old(byPeer), fired[..consumed])
    {
      consumed := 0;
      expired := None;
      assert fired[..0] == [];
      while consumed < |fired|
        invariant Valid()
        invariant consumed <= |fired|
        invariant expired.None?
        invariant registrations == old(registrations)
        invariant forall j :: 0 <= j < consumed ==> fired[j] !in old(registrations)
        invariant cookies == ScrubbedAll(old(cookies), fired[..consumed])
        invariant byPeer == RemoveAllByRight(old(byPeer), fired[..consumed])
      {
        var id := fired[consumed];
        expired := ExpireNext(old(cookies), old(byPeer), fired[..consumed], id);
        assert fired[..consumed + 1] == fired[..consumed] + [id];
        consumed := consumed + 1;
        if expired.Some? {
          return;
        }
      }
    }
  }

  // ---------------------------------------------------------------------------
  // Requests

  /** The `Register` arm of `handle_request`: a record of another peer is
      refused with `NotAuthorized` and a TTL out of range with `InvalidTtl`,
      neither touching the store; otherwise the registration is stored and
      acknowledged with its TTL. */
  method HandleRegister(store: Registrations, peer: PeerId, registration: NewRegistration, freshId: RegistrationId)
    returns (event: Event, response: Message)
    requires store.Valid()
    requires freshId !in store.registrations
    modifies store
    ensures store.Valid()
    ensures store.cookies == old(store.cookies)
    ensures registration.record.peerId != peer ==>
              && event == PeerNotRegistered(peer, registration.namespace, NotAuthorized)
              && response == RegisterResponse(Err(NotAuthorized))
              && store.byPeer == old(store.byPeer) && store.registrations == old(store.registrations)
    ensures registration.record.peerId == peer ==>
              if CheckTtl(Config(store.minTtl, store.maxTtl), registration.effectiveTtl).Some? then
                && event == PeerNotRegistered(peer, registration.namespace, InvalidTtl)
                && response == RegisterResponse(Err(InvalidTtl))
                && store.byPeer == old(store.byPeer) && store.registrations == old(store.registrations)
              else
                var stored := Registration(registration.namespace, registration.record, registration.effectiveTtl);
                var key := (peer, registration.namespace);
                && event == PeerRegistered(peer, stored)
                && response == RegisterResponse(Ok(registration.effectiveTtl))
                && store.byPeer == old(store.byPeer)[key := freshId]
                && store.registrations == WithoutPair(old(store.byPeer), old(store.registrations), key)[freshId := stored]
  {
    if registration.record.peerId != peer {
      var error := NotAuthorized;
      return PeerNotRegistered(peer, registration.namespace, error), RegisterResponse(Err(error));
    }
    var namespace := registration.namespace;
    var added := store.Add(registration, freshId);
    match added {
      case Ok(reg) =>
        event, response := PeerRegistered(peer, reg), RegisterResponse(Ok(reg.ttl));
      case Err(_) =>
        var error := InvalidTtl;
        event, response := PeerNotRegistered(peer, namespace, error), RegisterResponse(Err(error));
    }
  }

  /** The `Discover` arm of `handle_request`: a page with its new cookie, or
      `InvalidCookie` when the cookie does not fit the namespace. */
  method HandleDiscover(store: Registrations, peer: PeerId, namespace: Option<Namespace>, cookie: Option<Cookie>,
                        limit: Option<nat>, order: seq<Key>, newCookieId: nat)
    returns (event: Event, response: Message)
    requires store.Valid()
    requires NoDuplicates(order) && (forall i :: 0 <= i < |order| ==> order[i] in store.byPeer)
    requires |order| == |store.byPeer|
    modifies store
    ensures store.Valid()
    ensures store.byPeer == old(store.byPeer) && store.registrations == old(store.registrations)
    ensures CookieFits(namespace, cookie) ==>
              var seen := SeenUnder(old(store.cookies), cookie);
              var ids := Page(Entries(order, store.byPeer), seen, namespace, Budget(limit));
              && PageIsSound(ids, store.registrations, seen, namespace, Budget(limit))
              && event == DiscoverServed(peer, Lookup(ids, store.registrations))
              && response == DiscoverResponse(Ok((event.discovered, Cookie(newCookieId, namespace))))
              && store.cookies == old(store.cookies)[Cookie(newCookieId, namespace) := Remember(seen, ids)]
              && (forall i :: 0 <= i < |event.discovered| ==> event.discovered[i] in store.registrations.Values)
              && (namespace.Some? ==> forall i :: 0 <= i < |event.discovered| ==> event.discovered[i].namespace == namespace.value)
    ensures !CookieFits(namespace, cookie) ==>
              && event == DiscoverNotServed(peer, InvalidCookie)
              && response == DiscoverResponse(Err(InvalidCookie))
              && store.cookies == old(store.cookies)
  {
    var page, ids := store.Get(namespace, cookie, limit, order, newCookieId);
    match page {
      case Ok((discovered, newCookie)) =>
        forall i | 0 <= i < |discovered| ensures discovered[i] in store.registrations.Values {
          assert store.registrations[ids[i]] == discovered[i];
        }
        event, response := DiscoverServed(peer, discovered), DiscoverResponse(Ok((discovered, newCookie)));
      case Err(_) =>
        var error := InvalidCookie;
        event, response := DiscoverNotServed(peer, error), DiscoverResponse(Err(error));
    }
  }

  /** `handle_request`: turns one inbound message of `peer` into store
      operations, an event and an optional response. A registration for a
      record of another peer is refused with `NotAuthorized`, a TTL out of
      range with `InvalidTtl`, an ill-fitting cookie with `InvalidCookie`;
      none of these touches the store. Unregistering always reports
      `PeerUnregistered`, without a response. Responses arriving at the
      server are ignored. `freshId`, `order` and `newCookieId` stand for the
      random ids and the map iteration order the store operations use. */
  method HandleRequest(store: Registrations, peer: PeerId, message: Message,
                       freshId: RegistrationId, order: seq<Key>, newCookieId: nat)
    returns (r: Option<(Event, Option<Message>)>)
    requires store.Valid()
    requires freshId !in store.registrations
    requires NoDuplicates(order) && (forall i :: 0 <= i < |order| ==> order[i] in store.byPeer)
    requires |order| == |store.byPeer|
    modifies store
    ensures store.Valid()
    ensures message.Register? && message.registration.record.peerId != peer ==>
              && r == Some((PeerNotRegistered(peer, message.registration.namespace, NotAuthorized),
                            Some(RegisterResponse(Err(NotAuthorized)))))
              && store.byPeer == old(store.byPeer) && store.registrations == old(store.registrations)
    ensures message.Register? && message.registration.record.peerId == peer ==>
              var reg := message.registration;
              if CheckTtl(Config(store.minTtl, store.maxTtl), reg.effectiveTtl).Some? then
                && r == Some((PeerNotRegistered(peer, reg.namespace, InvalidTtl), Some(RegisterResponse(Err(InvalidTtl)))))
                && store.byPeer == old(store.byPeer) && store.registrations == old(store.registrations)
              else
                var stored := Registration(reg.namespace, reg.record, reg.effectiveTtl);
                var key := (peer, reg.namespace);
                && r == Some((PeerRegistered(peer, stored), Some(RegisterResponse(Ok(reg.effectiveTtl)))))
                && store.byPeer == old(store.byPeer)[key := freshId]
                && store.registrations == WithoutPair(old(store.byPeer), old(store.registrations), key)[freshId := stored]
    ensures message.Register? ==> store.cookies == old(store.cookies)
    ensures message.Unregister? ==>
              var key := (peer, message.unregisterNamespace);
              && r == Some((PeerUnregistered(peer, message.unregisterNamespace), None))
              && store.byPeer == old(store.byPeer) - {key}
              && store.registrations == WithoutPair(old(store.byPeer), old(store.registrations), key)
              && store.cookies == old(store.cookies)
    ensures message.Discover? ==> store.byPeer == old(store.byPeer) && store.registrations == old(store.registrations)
    ensures message.Discover? ==>
              var namespace := message.discoverNamespace;
              if CookieFits(namespace, message.cookie) then
                var seen := SeenUnder(old(store.cookies), message.cookie);
                var ids := Page(Entries(order, store.byPeer), seen, namespace, Budget(message.limit));
                && PageIsSound(ids, store.registrations, seen, namespace, Budget(message.limit))
                && r == Some((DiscoverServed(peer, Lookup(ids, store.registrations)),
                              Some(DiscoverResponse(Ok((Lookup(ids, store.registrations), Cookie(newCookieId, namespace)))))))
                && store.cookies == old(store.cookies)[Cookie(newCookieId, namespace) := Remember(seen, ids)]
              else
                r == Some((DiscoverNotServed(peer, InvalidCookie), Some(DiscoverResponse(Err(InvalidCookie))))) &&
                store.cookies == old(store.cookies)
    ensures message.RegisterResponse? || message.DiscoverResponse? ==>
              r == None && store.byPeer == old(store.byPeer) && store.registrations == old(store.registrations) &&
              store.cookies == old(store.cookies)
  {
    match message {
      case Register(registration) =>
        var event, response := HandleRegister(store, peer, registration, freshId);
        r := Some((event, Some(response)));
      case Unregister(namespace) =>
        store.Remove(namespace, peer);
        r := Some((PeerUnregistered(peer, namespace), None));
      case Discover(namespace, cookie, limit) =>
        var event, response := HandleDiscover(store, peer, namespace, cookie, limit, order, newCookieId);
        r := Some((event, Some(response)));
      case RegisterResponse(_) =>
        r := None;
      case DiscoverResponse(_) =>
        r := None;
    }
  }
}
