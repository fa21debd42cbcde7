/** A network behaviour that acts as an allow list or as a block list of peers
    (misc/allow-block-list/src/lib.rs).

    The behaviour keeps a set of peers and a FIFO queue of peers whose
    connections the swarm must close. Which of the two lists it is decides how
    `Enforce` reads the set: an allow list admits exactly its members, a block
    list admits exactly the peers not in it. */
module AllowBlockList {
  import opened Wrappers
  import opened Identity

  /** Why a connection was denied. */
  datatype Denied = NotAllowed(peer: PeerId) | Blocked(peer: PeerId)

  /** The state `S` of `Behaviour<S>`: `AllowedPeers` or `BlockedPeers`. */
  datatype PeerList = AllowedPeers(peers: set<PeerId>) | BlockedPeers(peers: set<PeerId>)
  {
    /** True when the list lets a connection with `peer` through. */
    predicate Admits(peer: PeerId) {
      if AllowedPeers? then peer in peers else peer !in peers
    }

    /** `Enforce::enforce`: the allow list denies a peer that it does not
        contain, the block list denies a peer that it contains. */
    function Enforce(peer: PeerId): (r: Result<(), Denied>)
      ensures AllowedPeers? ==> (r.Err? <==> peer !in peers)
      ensures BlockedPeers? ==> (r.Err? <==> peer in peers)
      ensures r.Err? ==> r.error.peer == peer
      ensures r.Err? ==> (r.error.NotAllowed? <==> AllowedPeers?)
    {
      match this
      case AllowedPeers(s) => if peer !in s then Err(NotAllowed(peer)) else Ok(())
      case BlockedPeers(s) => if peer in s then Err(Blocked(peer)) else Ok(())
    }
  }

  /** Reference reading of `Enforce`: a connection is accepted exactly when
      the list admits the peer. */
  lemma EnforceMatchesAdmits(list: PeerList, peer: PeerId)
    ensures list.Enforce(peer).Ok? <==> list.Admits(peer)
  {
  }

  /** Which connections `ToSwarm::CloseConnection` closes. */
  datatype CloseConnection = One(connection: ConnectionId) | All

  /** The events `poll` hands to the swarm. */
  datatype ToSwarm = CloseConnectionEvent(peerId: PeerId, connection: CloseConnection)

  /** The result of `poll`: an event, or `Pending` when there is nothing to do. */
  datatype Poll = Ready(event: ToSwarm) | Pending

  /** The connection handler the behaviour installs (libp2p's dummy handler). */
  datatype Handler = DummyHandler

  /** The role this side plays in an outbound connection. */
  datatype Endpoint = Dialer | Listener

  /** Port reuse policy of an outbound connection. */
  datatype PortUse = New | Reuse

  /** Which list a fresh behaviour is. */
  datatype ListKind = Allow | Block

  class Behaviour {
    /** The list: `AllowedPeers` or `BlockedPeers`. Its kind never changes. */
    var state: PeerList
    /** Peers whose connections are to be closed, oldest first. */
    var closeConnections: seq<PeerId>

    /** `Behaviour::default()` for either kind of list: no peers, nothing queued. */
    constructor(kind: ListKind)
      ensures state == (if kind == Allow then AllowedPeers({}) else BlockedPeers({}))
      ensures closeConnections == []
    {
      state := if kind == Allow then AllowedPeers({}) else BlockedPeers({});
      closeConnections := [];
    }

    /** `allow_peer`: inserts `peer` into the allow list and reports whether it
        was new. Nothing is queued for closing. */
    method AllowPeer(peer: PeerId) returns (inserted: bool)
      requires state.AllowedPeers?
      modifies this
      ensures inserted <==> peer !in old(state.peers)
      ensures state == AllowedPeers(old(state.peers) + {peer})
      ensures closeConnections == old(closeConnections)
      ensures state.Enforce(peer).Ok?
    {
      inserted := peer !in state.peers;
      state := AllowedPeers(state.peers + {peer});
    }

    /** `disallow_peer`: removes `peer` from the allow list and reports whether
        it was there; only then are its connections queued for closing. */
    method DisallowPeer(peer: PeerId) returns (removed: bool)
      requires state.AllowedPeers?
      modifies this
      ensures removed <==> peer in old(state.peers)
      ensures state == AllowedPeers(old(state.peers) - {peer})
      ensures closeConnections == if removed then old(closeConnections) + [peer] else old(closeConnections)
      ensures state.Enforce(peer) == Err(NotAllowed(peer))
    {
      removed := peer in state.peers;
      state := AllowedPeers(state.peers - {peer});
      if removed {
        closeConnections := closeConnections + [peer];
      }
    }

    /** `block_peer`: inserts `peer` into the block list and reports whether it
        was new; only then are its connections queued for closing. */
    method BlockPeer(peer: PeerId) returns (inserted: bool)
      requires state.BlockedPeers?
      modifies this
      ensures inserted <==> peer !in old(state.peers)
      ensures state == BlockedPeers(old(state.peers) + {peer})
      ensures closeConnections == if inserted then old(closeConnections) + [peer] else old(closeConnections)
      ensures state.Enforce(peer) == Err(Blocked(peer))
    {
      inserted := peer !in state.peers;
      state := BlockedPeers(state.peers + {peer});
      if inserted {
        closeConnections := closeConnections + [peer];
      }
    }

    /** `unblock_peer`: removes `peer` from the block list and reports whether
        it was there. Nothing is queued for closing. */
    method UnblockPeer(peer: PeerId) returns (removed: bool)
      requires state.BlockedPeers?
      modifies this
      ensures removed <==> peer in old(state.peers)
      ensures state == BlockedPeers(old(state.peers) - {peer})
      ensures closeConnections == old(closeConnections)
      ensures state.Enforce(peer).Ok?
    {
      removed := peer in state.peers;
      state := BlockedPeers(state.peers - {peer});
    }

    /** `handle_established_inbound_connection`: accepted exactly when
        `Enforce` accepts the remote peer, with the denial `Enforce` gives. */
    method HandleEstablishedInboundConnection(connection: ConnectionId, peer: PeerId,
                                              localAddr: Multiaddr, remoteAddr: Multiaddr)
      returns (r: Result<Handler, Denied>)
      ensures r.Ok? <==> state.Admits(peer)
      ensures r.Err? ==> r.error == state.Enforce(peer).error
    {
      var verdict := state.Enforce(peer);
      if verdict.Err? {
        return Err(verdict.error);
      }
      r := Ok(DummyHandler);
    }

    /** `handle_pending_outbound_connection`: a dial without a known peer is
        always accepted; otherwise `Enforce` decides. An accepted dial adds no
        addresses. */
    method HandlePendingOutboundConnection(connection: ConnectionId, peer: Option<PeerId>,
                                           addresses: seq<Multiaddr>, endpoint: Endpoint)
      returns (r: Result<seq<Multiaddr>, Denied>)
      ensures peer.None? ==> r == Ok([])
      ensures peer.Some? ==> (r.Ok? <==> state.Admits(peer.value))
      ensures peer.Some? && r.Err? ==> r.error == state.Enforce(peer.value).error
      ensures r.Ok? ==> r.value == []
    {
      if peer.Some? {
        var verdict := state.Enforce(peer.value);
        if verdict.Err? {
          return Err(verdict.error);
        }
      }
      r := Ok([]);
    }

    /** `handle_established_outbound_connection`: accepted exactly when
        `Enforce` accepts the remote peer. */
    method HandleEstablishedOutboundConnection(connection: ConnectionId, peer: PeerId,
                                               addr: Multiaddr, roleOverride: Endpoint,
                                               portUse: PortUse)
      returns (r: Result<Handler, Denied>)
      ensures r.Ok? <==> state.Admits(peer)
      ensures r.Err? ==> r.error == state.Enforce(peer).error
    {
      var verdict := state.Enforce(peer);
      if verdict.Err? {
        return Err(verdict.error);
      }
      r := Ok(DummyHandler);
    }

    /** `poll`: hands out the oldest queued peer, closing all its connections,
        or `Pending` when the queue is empty. The list itself never changes. */
    method Poll() returns (r: Poll)
      modifies this
      ensures old(closeConnections) == [] ==> r == Pending && closeConnections == []
      ensures old(closeConnections) != [] ==>
                r == Ready(CloseConnectionEvent(old(closeConnections)[0], All)) &&
                closeConnections == old(closeConnections)[1..]
      ensures state == old(state)
    {
      if closeConnections == [] {
        return Pending;
      }
      var peer := closeConnections[0];
      closeConnections := closeConnections[1..];
      r := Ready(CloseConnectionEvent(peer, All));
    }
  }
}
