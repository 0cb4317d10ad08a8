/** What the background publisher puts into a record (src/gossip/topic/publisher.rs). */
module Publisher {
  import opened Wrappers
  import opened Bytes
  import opened Library
  import opened Record
  import opened RecordPublisher
  import GossipReceiver

  /** `values` in the first slots, zeros in the rest. */
  function Padded(values: seq<Bytes32>, slots: nat): (p: seq<Bytes32>)
    requires |values| <= slots
    ensures |p| == slots
  {
    values + Zeros(slots - |values|)
  }

  /** The entries that are not zero, in order. */
  function NonZero(slots: seq<Bytes32>): seq<Bytes32> {
    if slots == [] then []
    else (if slots[0] != ZERO_SLOT then [slots[0]] else []) + NonZero(slots[1..])
  }

  function Take(values: seq<Bytes32>, n: nat): (t: seq<Bytes32>)
    ensures |t| <= n && |t| <= |values|
  {
    if |values| <= n then values else values[..n]
  }

  /** Fills a fresh array of `slots` zeros from the front with at most `slots` values. */
  method FillSlots(values: seq<Bytes32>, slots: nat) returns (filled: seq<Bytes32>)
    ensures filled == Padded(Take(values, slots), slots)
    ensures |filled| == slots
    ensures forall i | 0 <= i < slots :: filled[i] == if i < |values| then values[i] else ZERO_SLOT
  {
    var taken := Take(values, slots);
    var a := new Bytes32[slots](_ => ZERO_SLOT);
    for i := 0 to |taken|
      invariant forall j | 0 <= j < slots :: a[j] == if j < i then taken[j] else ZERO_SLOT
    {
      a[i] := taken[i];
    }
    filled := a[..];
  }

  /** The content published for a list of neighbours and a window of hashes. */
  function ContentOf(neighbors: seq<Bytes32>, hashes: seq<Bytes32>): GossipRecordContent {
    GossipRecordContent(
      Padded(Take(neighbors, MAX_RECORD_PEERS), MAX_RECORD_PEERS),
      Padded(Take(hashes, MAX_MESSAGE_HASHES), MAX_MESSAGE_HASHES))
  }

  method BuildContent(neighbors: seq<Bytes32>, hashes: seq<Bytes32>) returns (content: GossipRecordContent)
    ensures content == ContentOf(neighbors, hashes)
  {
    var peers := FillSlots(neighbors, MAX_RECORD_PEERS);
    var last := FillSlots(hashes, MAX_MESSAGE_HASHES);
    content := GossipRecordContent(peers, last);
  }

  lemma {:induction false} NonZeroOfConcat(a: seq<Bytes32>, b: seq<Bytes32>)
    ensures NonZero(a + b) == NonZero(a) + NonZero(b)
  {
    if a == [] {
      assert a + b == b;
    } else {
      NonZeroOfConcat(a[1..], b);
      assert (a + b)[1..] == a[1..] + b;
    }
  }

  lemma {:induction false} NonZeroOfZeros(n: nat)
    ensures NonZero(Zeros(n)) == []
  {
    if n > 0 {
      assert Zeros(n)[1..] == Zeros(n - 1);
      NonZeroOfZeros(n - 1);
    }
  }

  /** Dropping the zeros of a padded array gives back the non-zero values, in order. */
  lemma PaddingIsUndone(values: seq<Bytes32>, slots: nat)
    requires |values| <= slots
    ensures NonZero(Padded(values, slots)) == NonZero(values)
  {
    NonZeroOfConcat(values, Zeros(slots - |values|));
    NonZeroOfZeros(slots - |values|);
  }

  lemma {:induction false} NonZeroMembers(slots: seq<Bytes32>, x: Bytes32)
    ensures x in NonZero(slots) <==> x in slots && x != ZERO_SLOT
  {
    if slots != [] {
      NonZeroMembers(slots[1..], x);
      assert x in slots <==> x == slots[0] || x in slots[1..];
    }
  }

  /** A reader of a published content recovers the non-zero hashes of the author's window, in order,
      and the non-zero of its first five neighbours. */
  lemma PublishedWindow(neighbors: seq<Bytes32>, history: seq<Bytes32>)
    ensures var g := ContentOf(neighbors, GossipReceiver.Window(history));
      && NonZero(g.lastMessageHashes) == NonZero(GossipReceiver.Window(history))
      && NonZero(g.activePeers) == NonZero(Take(neighbors, MAX_RECORD_PEERS))
  {
    PaddingIsUndone(GossipReceiver.Window(history), MAX_MESSAGE_HASHES);
    PaddingIsUndone(Take(neighbors, MAX_RECORD_PEERS), MAX_RECORD_PEERS);
  }

  /** One publish of the background publisher; `neighbors` is `None` and `receiver` is null when the
      receiving actor is gone, the rest is as for `PublishRecordCached`. It never fails on size. */
  method Publish(
    lib: Library, node: Node, unixMinute: u64, neighbors: Option<seq<Bytes32>>,
    receiver: GossipReceiver.GossipReceiverActor?, fetch: Fetch, entropy: Entropy, course: Course)
    returns (res: Result<()>, put: Option<Put>)
    requires lib.SealLaw() && lib.ContentLaw()
    requires receiver != null ==> receiver.Valid()
    ensures put.Some? <==>
      && neighbors.Some? && receiver != null && course != CutBeforePut && fetch.Answered?
      && |Records(lib, node, unixMinute, fetch.items)| < node.maxBootstrapRecords
    ensures put.Some? ==>
      && put.value.topic == node.topic && put.value.unixMinute == unixMinute
      && (res.Ok? <==> course == Stored)
      && var content := ContentOf(neighbors.value, GossipReceiver.Window(receiver.history));
         HonestItem(lib, node, unixMinute, content, entropy) == Ok(put.value.item)
  {
    if neighbors.None? || receiver == null {
      return Err(ActorGone), None;
    }
    var hashes := receiver.LastMessageHashes();
    var content := BuildContent(neighbors.value, hashes);
    var record := SignRecord(lib, node.topic, unixMinute, lib.encodeContent(content), node.signingKey);
    GossipRecordsFit(lib, node.topic, unixMinute, content, node.signingKey,
                     EncryptionKey(lib, node, unixMinute), entropy);
    res, put := PublishRecordCached(lib, node, record, None, fetch, entropy, course);
  }
}
