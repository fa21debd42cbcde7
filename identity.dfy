/** Identities and addresses that the models treat as opaque values. */
module Identity {

  /** A libp2p peer identity (the hash of a public key); only equality matters. */
  type PeerId = nat

  /** A multiaddress; the models never look inside one. */
  type Multiaddr = seq<char>

  /** The swarm's identifier of one connection. */
  type ConnectionId = nat
}
