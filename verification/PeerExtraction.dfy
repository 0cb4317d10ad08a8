/** The three ways in which peers are extracted from records: by the bootstrap loop, the bubble
    merge and the message overlap merge (src/gossip/topic/bootstrap.rs, src/gossip/merge/). */
module PeerExtraction {
  import opened Wrappers
  import opened Bytes
  import opened Library
  import opened Record
  import opened RecordPublisher

  /** The peer slots of a record; none if its content does not decode. */
  function PeersOf(lib: Library, r: Record): seq<Bytes32> {
    match lib.decodeContent(r.content)
    case None => []
    case Some(content) => content.activePeers
  }

  /** `k` is advertised by `r`: its publisher, or a non-empty peer slot. */
  predicate Advertises(lib: Library, r: Record, k: Bytes32) {
    k == r.pubKey || (k != ZERO_SLOT && k in PeersOf(lib, r))
  }

  /** The usable peers advertised by `records`, other than `except`. */
  ghost function Candidates(lib: Library, records: set<Record>, except: set<Bytes32>): set<Bytes32> {
    set r, k | r in records && k in [r.pubKey] + PeersOf(lib, r) && Advertises(lib, r, k)
               && lib.isEndpointId(k) && k !in except :: k
  }

  /** In terms of the decoded content: the usable keys that are a record's publisher or a non-zero entry
      of its active peers. */
  lemma CandidatesExactly(lib: Library, records: set<Record>, except: set<Bytes32>, k: Bytes32)
    ensures k in Candidates(lib, records, except) <==>
      lib.isEndpointId(k) && k !in except && exists r :: r in records && IsPublisherOrActivePeer(lib, r, k)
  {
    forall r ensures Advertises(lib, r, k) <==> IsPublisherOrActivePeer(lib, r, k) {
    }
    if r :| r in records && IsPublisherOrActivePeer(lib, r, k) {
      assert k in [r.pubKey] + PeersOf(lib, r);
    }
  }

  predicate IsPublisherOrActivePeer(lib: Library, r: Record, k: Bytes32) {
    || k == r.pubKey
    || (k != ZERO_SLOT && lib.decodeContent(r.content).Some?
        && k in lib.decodeContent(r.content).value.activePeers)
  }

  // ---------- bootstrap ----------

  predicate IsBootstrapNode(lib: Library, self: Bytes32, r: Record, k: Bytes32) {
    && (k == r.pubKey || (k in PeersOf(lib, r) && k != ZERO_SLOT && k != self))
    && lib.isEndpointId(k)
  }

  ghost function BootstrapNodes(lib: Library, self: Bytes32, records: set<Record>): set<Bytes32> {
    set r, k | r in records && k in [r.pubKey] + PeersOf(lib, r) && IsBootstrapNode(lib, self, r, k) :: k
  }

  /** The publisher and the peers pushed for one record. */
  method PushPeers(lib: Library, self: Bytes32, r: Record) returns (v: seq<Bytes32>)
    ensures forall k :: k in v <==> k == r.pubKey || (k in PeersOf(lib, r) && k != ZERO_SLOT && k != self)
  {
    v := [r.pubKey];
    var peers := PeersOf(lib, r);
    for i := 0 to |peers|
      invariant forall k :: k in v <==> k == r.pubKey || (k in peers[..i] && k != ZERO_SLOT && k != self)
    {
      if peers[i] != ZERO_SLOT && peers[i] != self {
        v := v + [peers[i]];
      }
    }
    assert peers[..|peers|] == peers;
  }

  lemma BootstrapNodesExactly(lib: Library, self: Bytes32, records: set<Record>, k: Bytes32)
    ensures k in BootstrapNodes(lib, self, records) <==>
      && lib.isEndpointId(k)
      && exists r :: r in records && IsPublisherOrActivePeer(lib, r, k) && (k == self ==> k == r.pubKey)
  {
    forall r ensures IsBootstrapNode(lib, self, r, k) <==>
      lib.isEndpointId(k) && IsPublisherOrActivePeer(lib, r, k) && (k == self ==> k == r.pubKey)
    {
    }
    if r :| r in records && IsBootstrapNode(lib, self, r, k) {
      assert k in [r.pubKey] + PeersOf(lib, r);
    }
  }

  lemma BootstrapNodesOfMore(lib: Library, self: Bytes32, done: set<Record>, r: Record, more: set<Bytes32>)
    requires forall k :: k in more <==> IsBootstrapNode(lib, self, r, k)
    ensures BootstrapNodes(lib, self, done + {r}) == BootstrapNodes(lib, self, done) + more
  {
    forall k | k in more ensures k in BootstrapNodes(lib, self, done + {r}) {
      assert r in done + {r} && k in [r.pubKey] + PeersOf(lib, r);
    }
  }

  method CollectBootstrapNodes(lib: Library, self: Bytes32, records: set<Record>) returns (nodes: set<Bytes32>)
    ensures nodes == BootstrapNodes(lib, self, records)
    ensures forall k :: k in nodes <==>
      && lib.isEndpointId(k)
      && exists r :: r in records && IsPublisherOrActivePeer(lib, r, k) && (k == self ==> k == r.pubKey)
  {
    nodes := {};
    var rest := records;
    while rest != {}
      invariant rest <= records
      invariant nodes == BootstrapNodes(lib, self, records - rest)
      decreases |rest|
    {
      var r :| r in rest;
      var pushed := PushPeers(lib, self, r);
      var more := set k | k in pushed && lib.isEndpointId(k);
      BootstrapNodesOfMore(lib, self, records - rest, r, more);
      assert records - (rest - {r}) == records - rest + {r};
      nodes := nodes + more;
      rest := rest - {r};
    }
    assert records - rest == records;
    forall k { BootstrapNodesExactly(lib, self, records, k); }
  }

  // ---------- message overlap ----------

  predicate IsOverlapPeer(lib: Library, self: Bytes32, neighbors: set<Bytes32>, r: Record, k: Bytes32) {
    && ((k == r.pubKey && lib.isEndpointId(k) && k != self)
        || (k in PeersOf(lib, r) && k != ZERO_SLOT && lib.isEndpointId(k) && k != self))
    && k !in neighbors
  }

  ghost function OverlapPeers(lib: Library, self: Bytes32, neighbors: set<Bytes32>, records: set<Record>)
    : set<Bytes32>
  {
    set r, k | r in records && k in [r.pubKey] + PeersOf(lib, r) && IsOverlapPeer(lib, self, neighbors, r, k) :: k
  }

  method PushOverlapPeers(lib: Library, self: Bytes32, r: Record) returns (peers: seq<Bytes32>)
    ensures forall k :: k in peers <==> IsOverlapPeer(lib, self, {}, r, k)
  {
    peers := [];
    if lib.isEndpointId(r.pubKey) && r.pubKey != self {
      peers := [r.pubKey];
    }
    var slots := PeersOf(lib, r);
    for i := 0 to |slots|
      invariant forall k :: k in peers <==>
        (k == r.pubKey && lib.isEndpointId(k) && k != self)
        || (k in slots[..i] && k != ZERO_SLOT && lib.isEndpointId(k) && k != self)
    {
      if slots[i] == ZERO_SLOT {
        continue;
      }
      if lib.isEndpointId(slots[i]) && slots[i] != self {
        peers := peers + [slots[i]];
      }
    }
    assert slots[..|slots|] == slots;
  }

  lemma OverlapPeersOfMore(
    lib: Library, self: Bytes32, neighbors: set<Bytes32>, done: set<Record>, r: Record, more: set<Bytes32>)
    requires forall k :: k in more <==> IsOverlapPeer(lib, self, neighbors, r, k)
    ensures OverlapPeers(lib, self, neighbors, done + {r}) == OverlapPeers(lib, self, neighbors, done) + more
  {
    forall k | k in more ensures k in OverlapPeers(lib, self, neighbors, done + {r}) {
      assert r in done + {r} && k in [r.pubKey] + PeersOf(lib, r);
    }
  }

  method CollectOverlapPeers(lib: Library, self: Bytes32, neighbors: set<Bytes32>, records: set<Record>)
    returns (keys: set<Bytes32>)
    ensures keys == OverlapPeers(lib, self, neighbors, records)
    ensures forall k :: k in keys <==>
      && lib.isEndpointId(k) && k != self && k !in neighbors
      && exists r :: r in records && IsPublisherOrActivePeer(lib, r, k)
  {
    keys := {};
    var rest := records;
    while rest != {}
      invariant rest <= records
      invariant keys == OverlapPeers(lib, self, neighbors, records - rest)
      decreases |rest|
    {
      var r :| r in rest;
      var pushed := PushOverlapPeers(lib, self, r);
      var more := set k | k in pushed && k !in neighbors;
      OverlapPeersOfMore(lib, self, neighbors, records - rest, r, more);
      assert records - (rest - {r}) == records - rest + {r};
      keys := keys + more;
      rest := rest - {r};
    }
    assert records - rest == records;
    MergesExtractTheSame(lib, self, neighbors, records);
  }

  // ---------- bubble ----------

  predicate IsBubblePeer(lib: Library, self: Bytes32, neighbors: set<Bytes32>, r: Record, k: Bytes32) {
    || (k in PeersOf(lib, r)
        && !(k == ZERO_SLOT || k in neighbors || k == r.pubKey || k == self)
        && lib.isEndpointId(k))
    || (k == r.pubKey && lib.isEndpointId(k) && k != self && k !in neighbors)
  }

  /** An iterator chain in the source: a set comprehension over the records. */
  function BubblePeers(lib: Library, self: Bytes32, neighbors: set<Bytes32>, records: set<Record>): set<Bytes32> {
    set r, k | r in records && k in [r.pubKey] + PeersOf(lib, r) && IsBubblePeer(lib, self, neighbors, r, k) :: k
  }

  // ---------- agreement ----------

  /** On any records, the two merges extract the same peers: everything usable that is advertised,
      except the node itself and its neighbours. */
  lemma MergesExtractTheSame(lib: Library, self: Bytes32, neighbors: set<Bytes32>, records: set<Record>)
    ensures BubblePeers(lib, self, neighbors, records) == OverlapPeers(lib, self, neighbors, records)
    ensures BubblePeers(lib, self, neighbors, records) == Candidates(lib, records, neighbors + {self})
    ensures forall k :: k in BubblePeers(lib, self, neighbors, records) <==>
      && lib.isEndpointId(k) && k != self && k !in neighbors
      && exists r :: r in records && IsPublisherOrActivePeer(lib, r, k)
  {
    forall k ensures k in Candidates(lib, records, neighbors + {self}) <==>
      && lib.isEndpointId(k) && k != self && k !in neighbors
      && exists r :: r in records && IsPublisherOrActivePeer(lib, r, k)
    {
      CandidatesExactly(lib, records, neighbors + {self}, k);
    }
    forall r, k ensures IsBubblePeer(lib, self, neighbors, r, k) <==> IsOverlapPeer(lib, self, neighbors, r, k) {
    }
    forall r, k ensures IsBubblePeer(lib, self, neighbors, r, k) <==>
                        Advertises(lib, r, k) && lib.isEndpointId(k) && k !in neighbors + {self} {
    }
  }

  /** On any records, the bootstrap nodes differ from that only by the neighbours and, if some record
      was published under the node's own key, the node itself. */
  lemma BootstrapExtractsTheSame(lib: Library, self: Bytes32, neighbors: set<Bytes32>, records: set<Record>)
    ensures BootstrapNodes(lib, self, records) - neighbors - {self} == BubblePeers(lib, self, neighbors, records)
    ensures self in BootstrapNodes(lib, self, records) <==>
            lib.isEndpointId(self) && exists r :: r in records && r.pubKey == self
  {
    forall r, k | k != self && k !in neighbors
      ensures IsBootstrapNode(lib, self, r, k) <==> IsBubblePeer(lib, self, neighbors, r, k)
    {
    }
    if lib.isEndpointId(self) && exists r :: r in records && r.pubKey == self {
      var r :| r in records && r.pubKey == self;
      assert IsBootstrapNode(lib, self, r, self) && self in [r.pubKey] + PeersOf(lib, r);
    }
  }

  /** Records that `get_records` produced, for any number of slots and answers. */
  ghost predicate Read(lib: Library, node: Node, records: set<Record>) {
    forall r | r in records :: exists unixMinute, items :: r in Records(lib, node, unixMinute, items)
  }

  /** For records that were read, the three extractions agree up to the neighbours, and none of them
      contains the node itself. */
  lemma ExtractionsAgree(lib: Library, node: Node, neighbors: set<Bytes32>, records: set<Record>)
    requires Read(lib, node, records)
    ensures var self := PubKey(lib, node);
      && BubblePeers(lib, self, neighbors, records) == OverlapPeers(lib, self, neighbors, records)
      && BootstrapNodes(lib, self, records) - neighbors == BubblePeers(lib, self, neighbors, records)
      && self !in BootstrapNodes(lib, self, records)
      && self !in BubblePeers(lib, self, neighbors, records)
  {
    var self := PubKey(lib, node);
    MergesExtractTheSame(lib, self, neighbors, records);
    BootstrapExtractsTheSame(lib, self, neighbors, records);
    forall r | r in records ensures r.pubKey != self {
      var unixMinute, items :| r in Records(lib, node, unixMinute, items);
      RecordsAreVerified(lib, node, unixMinute, items);
    }
  }
}
