/**
 * The peer directory: a deduplicated set of peer endpoints, persisted after
 * every change, with insert-if-absent, union-merge and random selection.
 */
module Peers {
  import opened Wrappers

  /** A peer's endpoint: its IP address, kept as an opaque string, and its listening port. */
  datatype Peer = Peer(IP: string, Port: int)
  {
    /** Two peers are the same endpoint when their addresses and ports agree. */
    function Equals(other: Peer): (r: bool)
      ensures r <==> this == other
    {
      IP == other.IP && Port == other.Port
    }
  }

  /** What a persisted or transmitted peer list holds. */
  datatype PeerListSnapshot = PeerListSnapshot(Peers: set<Peer>, PeerFileName: string)

  class PeerList {
    /** The known peers; a set, since Equals is equality of the endpoint. */
    var peers: set<Peer>
    /** The file the list is flushed to. */
    const peerFileName: string
    /** How many times the list has been flushed to disk. */
    ghost var flushes: nat

    /** A new, empty list bound to `peerFileName`. */
    constructor (peerFileName: string)
      ensures peers == {} && this.peerFileName == peerFileName && flushes == 0
    {
      this.peerFileName := peerFileName;
      peers := {};
      flushes := 0;
    }

    /** The list a snapshot describes, as reading it back from disk or from a message yields it. */
    constructor Decoded(snapshot: PeerListSnapshot)
      ensures peers == snapshot.Peers && peerFileName == snapshot.PeerFileName && flushes == 0
    {
      peerFileName := snapshot.PeerFileName;
      peers := snapshot.Peers;
      flushes := 0;
    }

    function Snapshot(): PeerListSnapshot
      reads this
    {
      PeerListSnapshot(peers, peerFileName)
    }

    /** Persists the list; the write itself is not modelled, only that it happens. */
    method FlushToDisk()
      modifies this`flushes
      ensures flushes == old(flushes) + 1
    {
      flushes := flushes + 1;
    }

    /** Adds `peer` unless it is already known, then flushes. */
    method AddPeerAndFlush(peer: Peer)
      modifies this
      ensures peers == old(peers) + {peer}
      ensures flushes == old(flushes) + 1
    {
      AddPeer(peer);
      FlushToDisk();
    }

    /** Adds `peer` unless it is already known. */
    method AddPeer(peer: Peer)
      modifies this`peers
      ensures peer in peers && peers == old(peers) + {peer}
      ensures |peers| == |old(peers)| + if peer in old(peers) then 0 else 1
    {
      if peer !in peers {
        peers := peers + {peer};
      }
    }

    /**
     * A peer drawn from the list, or None when the list is empty. The draw is
     * a nondeterministic choice among the members.
     */
    method SelectRandomPeer() returns (p: Option<Peer>)
      ensures p == None <==> peers == {}
      ensures p.Some? ==> p.value in peers
    {
      var ram: seq<Peer> := [];
      var rest := peers;
      while rest != {}
        invariant rest <= peers
        invariant forall x :: x in ram <==> x in peers && x !in rest
        decreases |rest|
      {
        var x :| x in rest;
        ram := ram + [x];
        rest := rest - {x};
      }
      if |ram| == 0 {
        assert forall x | x in peers :: x in ram;
        return None;
      }
      var k :| 0 <= k < |ram|;
      assert ram[k] in ram;
      p := Some(ram[k]);
    }

    /** Adds every peer of `list` that is not yet known, then flushes once. */
    method MergeWith(list: PeerList)
      modifies this
      ensures peers == old(peers) + old(list.peers)
      ensures old(list.peers) <= old(peers) ==> peers == old(peers)
      ensures flushes == old(flushes) + 1
    {
      var theirs := list.peers;
      var rest := theirs;
      while rest != {}
        invariant rest <= theirs
        invariant peers == old(peers) + (theirs - rest)
        invariant flushes == old(flushes)
        decreases |rest|
      {
        var peer :| peer in rest;
        if peer !in peers {
          AddPeer(peer);
        }
        rest := rest - {peer};
      }
      FlushToDisk();
    }
  }

  /**
   * The list stored in `peerFileName`, or a new empty one bound to that file
   * when nothing is stored there; `stored` is what the file holds, if it exists.
   */
  method GetPeerList(peerFileName: string, stored: Option<PeerListSnapshot>) returns (list: PeerList)
    ensures fresh(list) && list.flushes == 0
    ensures stored.None? ==> list.peers == {} && list.peerFileName == peerFileName
    ensures stored.Some? ==> list.Snapshot() == stored.value
  {
    if stored.Some? {
      list := new PeerList.Decoded(stored.value);
    } else {
      list := new PeerList(peerFileName);
    }
  }
}
