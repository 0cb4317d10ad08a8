/** The calls into libraries that are not part of this model: Ed25519, HPKE, key derivation and
    the postcard codec. They are values of an arbitrary `Library`; what the proofs may use of
    them is exactly `Laws`. */
module Library {
  import opened Wrappers
  import opened Bytes

  const MAX_RECORD_PEERS := 5
  const MAX_MESSAGE_HASHES := 5

  type PeerSlots = s: seq<Bytes32> | |s| == MAX_RECORD_PEERS
    witness Zeros(MAX_RECORD_PEERS)
  type HashSlots = s: seq<Bytes32> | |s| == MAX_MESSAGE_HASHES
    witness Zeros(MAX_MESSAGE_HASHES)

  /** The content a gossip node publishes: fixed arrays whose empty slots are zero. */
  datatype GossipRecordContent = GossipRecordContent(activePeers: PeerSlots, lastMessageHashes: HashSlots)

  const EMPTY_CONTENT := GossipRecordContent(Zeros(MAX_RECORD_PEERS), Zeros(MAX_MESSAGE_HASHES))

  const CIPHERTEXT_OVERHEAD := 56
  const GOSSIP_CONTENT_LENGTH := 320

  datatype Library = Library(
    // Ed25519: public half of a signing key, signature, strict verification.
    verifyingKey: Bytes32 -> Bytes32,
    sign: (Bytes32, bytes) -> Bytes64,
    verifyStrict: (Bytes32, bytes, Bytes64) -> bool,
    // Whether 32 bytes parse as a verifying key, and as an endpoint identifier.
    isVerifyingKey: Bytes32 -> bool,
    isEndpointId: Bytes32 -> bool,
    // HPKE: the natural number is the randomness a call draws.
    seal: (Bytes32, nat, bytes) -> bytes,
    open: (Bytes32, bytes) -> Option<bytes>,
    // A secret rotation (named by a number), applied to topic hash, minute and secret hash.
    rotate: (nat, Bytes32, u64, Bytes32) -> Bytes32,
    // postcard
    encodeContent: GossipRecordContent -> bytes,
    decodeContent: bytes -> Option<GossipRecordContent>)
  {
    ghost predicate SignatureLaw() {
      forall sk: Bytes32, m: bytes :: verifyStrict(verifyingKey(sk), m, sign(sk, m))
    }

    ghost predicate KeyLaw() {
      forall sk: Bytes32 :: isVerifyingKey(verifyingKey(sk)) && isEndpointId(verifyingKey(sk))
    }

    ghost predicate SealLaw() {
      && (forall sk: Bytes32, e: nat, m: bytes :: open(sk, seal(verifyingKey(sk), e, m)) == Some(m))
      && (forall pk: Bytes32, e: nat, m: bytes :: |seal(pk, e, m)| == |m| + CIPHERTEXT_OVERHEAD)
    }

    ghost predicate ContentLaw() {
      forall g: GossipRecordContent ::
        |encodeContent(g)| == GOSSIP_CONTENT_LENGTH && decodeContent(encodeContent(g)) == Some(g)
    }

    ghost predicate Laws() {
      SignatureLaw() && KeyLaw() && SealLaw() && ContentLaw()
    }
  }

  function Flatten(slots: seq<Bytes32>): (b: bytes)
    ensures |b| == 32 * |slots|
  {
    if slots == [] then [] else slots[0] + Flatten(slots[1..])
  }

  function Unflatten(b: bytes, n: nat): (slots: seq<Bytes32>)
    requires |b| == 32 * n
    ensures |slots| == n
  {
    if n == 0 then [] else [b[..32]] + Unflatten(b[32..], n - 1)
  }

  lemma {:induction false} UnflattenFlatten(slots: seq<Bytes32>)
    ensures Unflatten(Flatten(slots), |slots|) == slots
  {
    if slots != [] {
      UnflattenFlatten(slots[1..]);
      var b := Flatten(slots);
      assert b[..32] == slots[0] && b[32..] == Flatten(slots[1..]);
    }
  }

  function PlainEncode(g: GossipRecordContent): bytes {
    Flatten(g.activePeers) + Flatten(g.lastMessageHashes)
  }

  function PlainDecode(b: bytes): Option<GossipRecordContent> {
    if |b| != GOSSIP_CONTENT_LENGTH then None
    else Some(GossipRecordContent(Unflatten(b[..160], 5), Unflatten(b[160..], 5)))
  }

  /** The laws can be met together, so what is proved from them is not vacuous. */
  lemma LawsAreConsistent() returns (lib: Library)
    ensures lib.Laws()
  {
    lib := Library(
      sk => sk,
      (sk, m) => ZeroBytes(64),
      (pk, m, s) => true,
      k => true,
      k => true,
      (pk, e, m) => ZeroBytes(CIPHERTEXT_OVERHEAD) + m,
      (sk, b) => if |b| < CIPHERTEXT_OVERHEAD then None else Some(b[CIPHERTEXT_OVERHEAD..]),
      (rotation, topic, minute, secret) => secret,
      PlainEncode,
      PlainDecode);
    forall g: GossipRecordContent
      ensures |PlainEncode(g)| == GOSSIP_CONTENT_LENGTH && PlainDecode(PlainEncode(g)) == Some(g)
    {
      UnflattenFlatten(g.activePeers);
      UnflattenFlatten(g.lastMessageHashes);
      assert PlainEncode(g)[..160] == Flatten(g.activePeers);
      assert PlainEncode(g)[160..] == Flatten(g.lastMessageHashes);
    }
    forall sk: Bytes32, e: nat, m: bytes
      ensures lib.open(sk, lib.seal(lib.verifyingKey(sk), e, m)) == Some(m)
    {
      assert (ZeroBytes(CIPHERTEXT_OVERHEAD) + m)[CIPHERTEXT_OVERHEAD..] == m;
    }
  }
}
