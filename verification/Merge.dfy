/** One check of each merge actor (src/gossip/merge/bubble.rs, src/gossip/merge/message_overlap.rs). */
module Merge {
  import opened Wrappers
  import opened Bytes
  import opened Library
  import opened Record
  import opened RecordPublisher
  import opened PeerExtraction
  import opened SplitDetection
  import opened GossipReceiver
  import opened Publisher
  import opened GossipSender

  /** A join request that is bounded and useful: as many of the candidates as allowed, no two alike. */
  ghost predicate Useful(request: seq<Bytes32>, candidates: set<Bytes32>, maxJoinPeers: nat) {
    && |request| == (if maxJoinPeers < |candidates| then maxJoinPeers else |candidates|)
    && Distinct(request)
    && forall k | k in request :: k in candidates
  }

  /** Both slots a merge at `unixMinute` reads. */
  ghost function TwoSlots(lib: Library, node: Node, unixMinute: u64, previous: seq<Item>, current: seq<Item>)
    : set<Record>
    requires unixMinute >= 1
  {
    Records(lib, node, unixMinute - 1, previous) + Records(lib, node, unixMinute, current)
  }

  /** Reads both slots; either failure ends the merge. */
  method ReadTwoSlots(lib: Library, node: Node, unixMinute: u64, previous: Fetch, current: Fetch)
    returns (res: Result<set<Record>>)
    requires unixMinute >= 1
    ensures res.Ok? <==> previous.Answered? && current.Answered?
    ensures res.Ok? ==> res.value == TwoSlots(lib, node, unixMinute, previous.items, current.items)
  {
    var before := GetRecords(lib, node, unixMinute - 1, previous);
    if before.Err? { return before; }
    var records := before.value;
    var now := GetRecords(lib, node, unixMinute, current);
    if now.Err? { return now; }
    records := records + now.value;
    return Ok(records);
  }

  /** The request a merge sends for a set of peers: none if the set is empty. */
  method RequestJoin(keys: set<Bytes32>, maxJoinPeers: nat, swaps: seq<(nat, nat)>)
    returns (request: Option<seq<Bytes32>>)
    ensures request.Some? <==> keys != {}
    ensures request.Some? ==> Useful(request.value, keys, maxJoinPeers)
  {
    if keys == {} {
      return None;
    }
    var peers := ToSeq(keys);
    var sent := JoinPeers(peers, Some(maxJoinPeers), swaps);
    return Some(sent);
  }

  /** The subtraction `unix_minute - 1` needs a minute after the epoch's first. `neighbors` is `None`
      when the receiving actor is gone; `accepted` is how the join request ends. */
  method BubbleMerge(
    lib: Library, node: Node, minNeighbors: nat, maxJoinPeers: nat, unixMinute: u64,
    previous: Fetch, current: Fetch, neighbors: Option<set<Bytes32>>, swaps: seq<(nat, nat)>, accepted: bool)
    returns (res: Result<()>, request: Option<seq<Bytes32>>)
    requires unixMinute >= 1
    ensures !(previous.Answered? && current.Answered? && neighbors.Some?) ==> res.Err? && request.None?
    ensures previous.Answered? && current.Answered? && neighbors.Some? ==>
      var records := TwoSlots(lib, node, unixMinute, previous.items, current.items);
      var candidates := Candidates(lib, records, neighbors.value + {PubKey(lib, node)});
      && (request.Some? <==> |neighbors.value| < minNeighbors && candidates != {})
      && (request.Some? ==> Useful(request.value, candidates, maxJoinPeers))
      && (res.Ok? <==> request.None? || accepted)
  {
    var read := ReadTwoSlots(lib, node, unixMinute, previous, current);
    if read.Err? { return Err(read.error), None; }
    var records := read.value;
    if neighbors.None? { return Err(ActorGone), None; }

    var self := PubKey(lib, node);
    assert records == {} ==> Candidates(lib, records, neighbors.value + {self}) == {};
    if |neighbors.value| < minNeighbors && records != {} {
      var pubKeys := BubblePeers(lib, self, neighbors.value, records);
      MergesExtractTheSame(lib, self, neighbors.value, records);
      request := RequestJoin(pubKeys, maxJoinPeers, swaps);
      return if request.None? || accepted then Ok(()) else Err(ActorGone), request;
    }
    return Ok(()), None;
  }

  /** What a message overlap merge returns and requests, given the local window of hashes and the
      neighbours, each `None` when the receiving actor is gone. */
  ghost predicate OverlapOk(
    lib: Library, node: Node, maxJoinPeers: nat, unixMinute: u64, previous: Fetch, current: Fetch,
    localHashes: Option<seq<Bytes32>>, neighbors: Option<set<Bytes32>>, accepted: bool,
    res: Result<()>, request: Option<seq<Bytes32>>)
    requires unixMinute >= 1
  {
    if !(previous.Answered? && current.Answered? && localHashes.Some?) then res.Err? && request.None?
    else
      var flagged := Flagged(lib, localHashes.value, TwoSlots(lib, node, unixMinute, previous.items, current.items));
      if flagged != {} && neighbors.None? then res.Err? && request.None?
      else
        var except := (if neighbors.Some? then neighbors.value else {}) + {PubKey(lib, node)};
        var candidates := Candidates(lib, flagged, except);
        && (request.Some? <==> candidates != {})
        && (request.Some? ==> Useful(request.value, candidates, maxJoinPeers))
        && (res.Ok? <==> request.None? || accepted)
  }

  /** `receiver` is null and `neighbors` `None` when the receiving actor is gone at that point. */
  method MessageOverlapMerge(
    lib: Library, node: Node, maxJoinPeers: nat, unixMinute: u64, previous: Fetch, current: Fetch,
    receiver: GossipReceiverActor?, neighbors: Option<set<Bytes32>>, swaps: seq<(nat, nat)>, accepted: bool)
    returns (res: Result<()>, request: Option<seq<Bytes32>>)
    requires unixMinute >= 1 && (receiver != null ==> receiver.Valid())
    ensures OverlapOk(lib, node, maxJoinPeers, unixMinute, previous, current,
                      if receiver == null then None else Some(Window(receiver.history)), neighbors, accepted,
                      res, request)
  {
    var read := ReadTwoSlots(lib, node, unixMinute, previous, current);
    if read.Err? { return Err(read.error), None; }
    var records := read.value;
    if receiver == null { return Err(ActorGone), None; }
    var localHashes := receiver.LastMessageHashes();

    if localHashes != [] {
      var peersToJoin := Flagged(lib, localHashes, records);
      if peersToJoin != {} {
        if neighbors.None? { return Err(ActorGone), None; }
        var self := PubKey(lib, node);
        var pubKeys := CollectOverlapPeers(lib, self, neighbors.value, peersToJoin);
        MergesExtractTheSame(lib, self, neighbors.value, peersToJoin);
        request := RequestJoin(pubKeys, maxJoinPeers, swaps);
        return if request.None? || accepted then Ok(()) else Err(ActorGone), request;
      }
    }
    return Ok(()), None;
  }

  /** The records whose hashes do not overlap with the local window. */
  function Flagged(lib: Library, localHashes: seq<Bytes32>, records: set<Record>): set<Record> {
    set r | r in records && lib.decodeContent(r.content).Some?
            && Flags(localHashes, lib.decodeContent(r.content).value)
  }

  /** Which records are flagged, in terms of their decoded content: those with some non-zero hash, none of
      which is in the local window, unless that is empty. */
  lemma FlaggedExactly(lib: Library, localHashes: seq<Bytes32>, records: set<Record>, r: Record)
    ensures r in Flagged(lib, localHashes, records) <==>
      && r in records && lib.decodeContent(r.content).Some? && localHashes != []
      && var hashes := lib.decodeContent(r.content).value.lastMessageHashes;
         && (exists h :: h in hashes && h != ZERO_SLOT)
         && (forall h | h in hashes && h != ZERO_SLOT :: h !in localHashes)
  {
    if lib.decodeContent(r.content).Some? {
      var hashes := lib.decodeContent(r.content).value.lastMessageHashes;
      forall h ensures h in NonZero(hashes) <==> h in hashes && h != ZERO_SLOT {
        NonZeroMembers(hashes, h);
      }
      if NonZero(hashes) != [] {
        assert NonZero(hashes)[0] in NonZero(hashes);
      }
    }
  }

  /** Every peer of a useful request is advertised by some record read, is a usable endpoint, and is
      neither the node itself nor a neighbour. */
  lemma RequestedPeersAreNewAndAdvertised(
    lib: Library, self: Bytes32, neighbors: set<Bytes32>, records: set<Record>, request: seq<Bytes32>,
    maxJoinPeers: nat)
    requires Useful(request, Candidates(lib, records, neighbors + {self}), maxJoinPeers)
    ensures |request| <= maxJoinPeers
    ensures forall k | k in request ::
      && k != self && k !in neighbors && lib.isEndpointId(k)
      && exists r :: r in records && IsPublisherOrActivePeer(lib, r, k)
  {
    forall k | k in request
      ensures k != self && k !in neighbors && lib.isEndpointId(k)
      ensures exists r :: r in records && IsPublisherOrActivePeer(lib, r, k)
    {
      CandidatesExactly(lib, records, neighbors + {self}, k);
    }
  }

  function Elements(request: seq<Bytes32>): set<Bytes32> { set k | k in request }

  lemma {:induction false} ElementsOfDistinct(request: seq<Bytes32>)
    requires Distinct(request)
    ensures |Elements(request)| == |request|
  {
    if request != [] {
      var rest := request[1..];
      assert forall i | 0 <= i < |rest| :: rest[i] == request[i + 1];
      ElementsOfDistinct(rest);
      assert request[0] !in rest;
      assert Elements(request) == {request[0]} + Elements(rest);
    }
  }

  /** If the limit allows for all candidates, all are asked. */
  lemma UsefulRequestCovers(request: seq<Bytes32>, candidates: set<Bytes32>, maxJoinPeers: nat)
    requires Useful(request, candidates, maxJoinPeers) && |candidates| <= maxJoinPeers
    ensures forall k | k in candidates :: k in request
  {
    ElementsOfDistinct(request);
    forall k | k in candidates ensures k in request {
      if k !in request {
        assert |Elements(request) + {k}| == |request| + 1;
        SubsetSize(Elements(request) + {k}, candidates);
      }
    }
  }

  /** A message overlap merge with a candidate sends a request, which asks the candidate if its limit
      covers all of them. */
  lemma CandidateIsAsked(
    lib: Library, node: Node, maxJoinPeers: nat, unixMinute: u64, previous: seq<Item>, current: seq<Item>,
    localHashes: seq<Bytes32>, neighbors: set<Bytes32>, accepted: bool,
    res: Result<()>, request: Option<seq<Bytes32>>, k: Bytes32)
    requires unixMinute >= 1
    requires OverlapOk(lib, node, maxJoinPeers, unixMinute, Answered(previous), Answered(current),
                       Some(localHashes), Some(neighbors), accepted, res, request)
    requires k in OverlapCandidates(lib, node, unixMinute, previous, current, localHashes, neighbors)
    ensures request.Some?
    ensures |OverlapCandidates(lib, node, unixMinute, previous, current, localHashes, neighbors)| <= maxJoinPeers
      ==> k in request.value
  {
    var candidates := OverlapCandidates(lib, node, unixMinute, previous, current, localHashes, neighbors);
    if |candidates| <= maxJoinPeers {
      UsefulRequestCovers(request.value, candidates, maxJoinPeers);
    }
  }

  /** The peers a message overlap merge wants to join. */
  ghost function OverlapCandidates(
    lib: Library, node: Node, unixMinute: u64, previous: seq<Item>, current: seq<Item>,
    localHashes: seq<Bytes32>, neighbors: set<Bytes32>): set<Bytes32>
    requires unixMinute >= 1
  {
    Candidates(lib, Flagged(lib, localHashes, TwoSlots(lib, node, unixMinute, previous, current)),
               neighbors + {PubKey(lib, node)})
  }

  /** The publisher and the active peers of a flagged record, other than the node itself and its
      neighbours, are among them. */
  lemma FlaggedIsCandidate(
    lib: Library, node: Node, unixMinute: u64, previous: seq<Item>, current: seq<Item>,
    localHashes: seq<Bytes32>, neighbors: set<Bytes32>, r: Record, k: Bytes32)
    requires unixMinute >= 1
    requires || r in Flagged(lib, localHashes, Records(lib, node, unixMinute - 1, previous))
             || r in Flagged(lib, localHashes, Records(lib, node, unixMinute, current))
    requires IsPublisherOrActivePeer(lib, r, k)
    requires lib.isEndpointId(k) && k !in neighbors + {PubKey(lib, node)}
    ensures k in OverlapCandidates(lib, node, unixMinute, previous, current, localHashes, neighbors)
  {
    var flagged := Flagged(lib, localHashes, TwoSlots(lib, node, unixMinute, previous, current));
    assert r in flagged;
    CandidatesExactly(lib, flagged, neighbors + {PubKey(lib, node)}, k);
  }
}
