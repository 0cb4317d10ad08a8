/** Reading a slot and publishing into it (src/crypto/record.rs). */
module RecordPublisher {
  import opened Wrappers
  import opened Bytes
  import opened Library
  import opened Record

  const I64_MAX := 0x7fff_ffff_ffff_ffff

  type i64 = n: int | -I64_MAX - 1 <= n <= I64_MAX

  /** What the DHT hands back for one mutable item. */
  datatype Item = Item(value: bytes, seqNo: i64)

  /** The settings of one node. `rotation` names its secret rotation. */
  datatype Node = Node(
    signingKey: Bytes32, topic: Bytes32, rotation: nat, initialSecretHash: Bytes32, maxBootstrapRecords: nat)

  function PubKey(lib: Library, node: Node): Bytes32 { lib.verifyingKey(node.signingKey) }

  function EncryptionKey(lib: Library, node: Node, unixMinute: u64): Bytes32 {
    lib.rotate(node.rotation, node.topic, unixMinute, node.initialSecretHash)
  }

  /** Nodes of one topic that share the secret and its rotation. */
  predicate SameGroup(a: Node, b: Node) {
    a.topic == b.topic && a.rotation == b.rotation && a.initialSecretHash == b.initialSecretHash
  }

  // ---------- get_records ----------

  /** How a DHT get ends. */
  datatype Fetch = Answered(items: seq<Item>) | FetchFailed | FetchCancelled

  /** The record an item holds for `node` in a slot, if it survives decoding, decryption,
      verification and the filter of the node's own records. */
  function Admit(lib: Library, node: Node, unixMinute: u64, item: Item): Option<Record> {
    match ReadWire(lib, item.value, EncryptionKey(lib, node, unixMinute))
    case Err(_) => None
    case Ok(record) =>
      if Verify(lib, record, node.topic, unixMinute).Ok? && record.pubKey != PubKey(lib, node)
      then Some(record) else None
  }

  /** One DHT item as the dedup loop sees it. */
  datatype Entry = Entry(record: Option<Record>, seqNo: i64)

  function Entries(lib: Library, node: Node, unixMinute: u64, items: seq<Item>): (v: seq<Entry>)
    ensures |v| == |items|
    ensures forall i | 0 <= i < |v| :: v[i] == Entry(Admit(lib, node, unixMinute, items[i]), items[i].seqNo)
  {
    seq(|items|, i requires 0 <= i < |items| => Entry(Admit(lib, node, unixMinute, items[i]), items[i].seqNo))
  }

  predicate From(v: seq<Entry>, i: int, k: Bytes32) {
    0 <= i < |v| && v[i].record.Some? && v[i].record.value.pubKey == k
  }

  /** Entry `w` beats entry `j` of the same publisher. */
  predicate Beats(v: seq<Entry>, w: int, j: int)
    requires 0 <= w < |v| && 0 <= j < |v|
  {
    v[j].seqNo < v[w].seqNo || (v[j].seqNo == v[w].seqNo && w < j)
  }

  /** Entry `i` is the first of the entries of its publisher with the greatest sequence number. */
  predicate Wins(v: seq<Entry>, i: int) {
    && 0 <= i < |v| && v[i].record.Some?
    && forall j | 0 <= j < |v| && j != i && From(v, j, v[i].record.value.pubKey) :: Beats(v, i, j)
  }

  /** The winning records. */
  function Winners(v: seq<Entry>): set<Record> {
    set i | 0 <= i < |v| && Wins(v, i) :: v[i].record.value
  }

  /** The publishers that occur. */
  function Publishers(v: seq<Entry>): set<Bytes32> {
    set i | 0 <= i < |v| && v[i].record.Some? :: v[i].record.value.pubKey
  }

  /** What `get_records` returns for a DHT answer. */
  function Records(lib: Library, node: Node, unixMinute: u64, items: seq<Item>): set<Record> {
    Winners(Entries(lib, node, unixMinute, items))
  }

  /** After `n` entries the table holds, for each publisher seen, its entry number `origin[k]`,
      which beats the others seen. */
  ghost predicate Tracks(v: seq<Entry>, n: nat, deduped: map<Bytes32, (i64, Record)>, origin: map<Bytes32, int>) {
    && n <= |v|
    && origin.Keys == deduped.Keys
    && (forall j, k | From(v, j, k) && j < n :: k in deduped)
    && (forall k | k in origin ::
          && From(v, origin[k], k) && origin[k] < n
          && deduped[k] == (v[origin[k]].seqNo, v[origin[k]].record.value))
    && (forall k, j | k in origin && From(v, j, k) && j < n && j != origin[k] :: Beats(v, origin[k], j))
  }

  lemma TracksToWinners(v: seq<Entry>, deduped: map<Bytes32, (i64, Record)>, origin: map<Bytes32, int>)
    requires Tracks(v, |v|, deduped, origin)
    ensures (set k | k in deduped :: deduped[k].1) == Winners(v)
  {
    var records := set k | k in deduped :: deduped[k].1;
    forall r | r in records ensures r in Winners(v) {
      var k :| k in deduped && deduped[k].1 == r;
      assert Wins(v, origin[k]);
    }
    forall r | r in Winners(v) ensures r in records {
      var i :| 0 <= i < |v| && Wins(v, i) && v[i].record.value == r;
      assert From(v, i, r.pubKey) && From(v, origin[r.pubKey], r.pubKey);
      assert origin[r.pubKey] == i;
    }
  }

  /** The dedup loop: keep an item unless the table holds one of the same publisher with at least
      its sequence number. */
  method Dedup(v: seq<Entry>) returns (records: set<Record>)
    ensures records == Winners(v)
  {
    ghost var origin: map<Bytes32, int> := map[];
    var deduped: map<Bytes32, (i64, Record)> := map[];
    for i := 0 to |v|
      invariant Tracks(v, i, deduped, origin)
    {
      if v[i].record.Some? {
        var record := v[i].record.value;
        assert From(v, i, record.pubKey);
        if record.pubKey in deduped && deduped[record.pubKey].0 >= v[i].seqNo {
        } else {
          deduped := deduped[record.pubKey := (v[i].seqNo, record)];
          origin := origin[record.pubKey := i];
        }
      }
    }
    TracksToWinners(v, deduped, origin);
    records := set k | k in deduped :: deduped[k].1;
  }

  method GetRecords(lib: Library, node: Node, unixMinute: u64, fetch: Fetch) returns (res: Result<set<Record>>)
    ensures fetch.Answered? ==> res == Ok(Records(lib, node, unixMinute, fetch.items))
    ensures fetch.FetchFailed? ==> res == Err(DhtFailed)
    ensures fetch.FetchCancelled? ==> res == Err(Cancelled)
  {
    match fetch
    case FetchFailed => return Err(DhtFailed);
    case FetchCancelled => return Err(Cancelled);
    case Answered(items) =>
      var records := Dedup(Entries(lib, node, unixMinute, items));
      return Ok(records);
  }

  /** Every publisher has a winning entry among the first `n`. */
  lemma {:induction false} WinnerExists(v: seq<Entry>, k: Bytes32, n: nat) returns (w: int)
    requires n <= |v|
    requires exists i :: i < n && From(v, i, k)
    ensures w < n && From(v, w, k)
    ensures forall j | j < n && j != w && From(v, j, k) :: Beats(v, w, j)
  {
    if exists i :: i < n - 1 && From(v, i, k) {
      w := WinnerExists(v, k, n - 1);
      if From(v, n - 1, k) && v[n - 1].seqNo > v[w].seqNo {
        w := n - 1;
      }
    } else {
      w := n - 1;
    }
  }

  lemma ImageSize(records: set<Record>, keys: set<Bytes32>)
    requires forall r, r' | r in records && r' in records && r.pubKey == r'.pubKey :: r == r'
    requires keys == set r | r in records :: r.pubKey
    ensures |records| == |keys|
  {
    if records != {} {
      var r :| r in records;
      var keys' := set r' | r' in records - {r} :: r'.pubKey;
      ImageSize(records - {r}, keys');
      assert keys == keys' + {r.pubKey};
    }
  }

  /** Exactly one record per publisher; collecting them into a set loses none. */
  lemma OneRecordPerPublisher(v: seq<Entry>)
    ensures forall r, r' | r in Winners(v) && r' in Winners(v) && r.pubKey == r'.pubKey :: r == r'
    ensures (set r | r in Winners(v) :: r.pubKey) == Publishers(v)
    ensures |Winners(v)| == |Publishers(v)|
  {
    forall k | k in Publishers(v) ensures exists r :: r in Winners(v) && r.pubKey == k {
      var i :| 0 <= i < |v| && v[i].record.Some? && v[i].record.value.pubKey == k;
      assert From(v, i, k);
      var w := WinnerExists(v, k, |v|);
      assert Wins(v, w);
      assert v[w].record.value in Winners(v);
    }
    forall i, j | Wins(v, i) && Wins(v, j) && v[i].record.value.pubKey == v[j].record.value.pubKey ensures i == j {
      assert From(v, i, v[j].record.value.pubKey) && From(v, j, v[i].record.value.pubKey);
    }
    assert forall r | r in Winners(v) :: r.pubKey in Publishers(v);
    ImageSize(Winners(v), Publishers(v));
  }

  /** Of the entries with the greatest possible sequence number, which is what every put uses,
      the first of each publisher wins and no other does. */
  lemma FirstHonestItemWins(v: seq<Entry>, i: nat)
    requires i < |v| && v[i].record.Some? && v[i].seqNo == I64_MAX
    ensures Wins(v, i) <==> forall j | j < i && From(v, j, v[i].record.value.pubKey) :: v[j].seqNo < I64_MAX
  {
  }

  /** Adding items, or changing their order, never removes a publisher; permuting keeps the set and
      therefore the number of records. */
  lemma PublishersMonotone(lib: Library, node: Node, unixMinute: u64, few: seq<Item>, many: seq<Item>)
    requires forall item | item in few :: item in many
    ensures Publishers(Entries(lib, node, unixMinute, few)) <= Publishers(Entries(lib, node, unixMinute, many))
    ensures |Records(lib, node, unixMinute, few)| <= |Records(lib, node, unixMinute, many)|
  {
    var v, w := Entries(lib, node, unixMinute, few), Entries(lib, node, unixMinute, many);
    forall k | k in Publishers(v) ensures k in Publishers(w) {
      var i :| 0 <= i < |v| && v[i].record.Some? && v[i].record.value.pubKey == k;
      assert few[i] in many;
      var j :| 0 <= j < |many| && many[j] == few[i];
      assert w[j].record == v[i].record;
    }
    OneRecordPerPublisher(v);
    OneRecordPerPublisher(w);
    SubsetSize(Publishers(v), Publishers(w));
  }

  lemma PublishersPermutation(lib: Library, node: Node, unixMinute: u64, items: seq<Item>, permuted: seq<Item>)
    requires multiset(items) == multiset(permuted)
    ensures Publishers(Entries(lib, node, unixMinute, items)) == Publishers(Entries(lib, node, unixMinute, permuted))
    ensures |Records(lib, node, unixMinute, items)| == |Records(lib, node, unixMinute, permuted)|
  {
    assert forall item :: item in items <==> item in multiset(items);
    assert forall item :: item in permuted <==> item in multiset(permuted);
    PublishersMonotone(lib, node, unixMinute, items, permuted);
    PublishersMonotone(lib, node, unixMinute, permuted, items);
  }

  lemma SubsetSize<T>(a: set<T>, b: set<T>)
    requires a <= b
    ensures |a| <= |b|
  {
    if a != {} {
      var x :| x in a;
      SubsetSize(a - {x}, b - {x});
    }
  }

  /** Exactly which items are admitted, and as what: those that decode and decrypt under the key of the
      slot's topic, minute, rotation and secret to a record of this slot that is signed by its publisher,
      who is not the node itself. */
  lemma AdmittedExactly(lib: Library, node: Node, unixMinute: u64, item: Item, r: Record)
    ensures Admit(lib, node, unixMinute, item) == Some(r) <==>
      && ReadWire(lib, item.value, lib.rotate(node.rotation, node.topic, unixMinute, node.initialSecretHash)) == Ok(r)
      && SignedFor(lib, r, node.topic, unixMinute) && r.pubKey != lib.verifyingKey(node.signingKey)
  {
    VerifyChecksAll(lib, r, node.topic, unixMinute);
  }

  predicate SignedFor(lib: Library, r: Record, topic: Bytes32, unixMinute: u64) {
    && r.topic == topic && r.unixMinute == unixMinute && lib.isVerifyingKey(r.pubKey)
    && lib.verifyStrict(r.pubKey, SignatureData(r.topic, r.unixMinute, r.pubKey, r.content), r.signature)
  }

  /** Everything `get_records` returns belongs to the slot it was read from, carries a valid signature of
      its publisher, comes from an item of the answer and is not the node's own. */
  lemma RecordsAreVerified(lib: Library, node: Node, unixMinute: u64, items: seq<Item>)
    ensures forall r | r in Records(lib, node, unixMinute, items) ::
      && r.topic == node.topic && r.unixMinute == unixMinute && r.pubKey != PubKey(lib, node)
      && lib.isVerifyingKey(r.pubKey)
      && lib.verifyStrict(r.pubKey, SignatureData(r.topic, r.unixMinute, r.pubKey, r.content), r.signature)
      && exists item :: item in items && Admit(lib, node, unixMinute, item) == Some(r)
  {
    var v := Entries(lib, node, unixMinute, items);
    forall r | r in Records(lib, node, unixMinute, items)
      ensures SignedFor(lib, r, node.topic, unixMinute) && r.pubKey != PubKey(lib, node)
      ensures exists item :: item in items && Admit(lib, node, unixMinute, item) == Some(r)
    {
      var i :| 0 <= i < |v| && Wins(v, i) && v[i].record.value == r;
      assert items[i] in items && Admit(lib, node, unixMinute, items[i]) == Some(r);
      AdmittedExactly(lib, node, unixMinute, items[i], r);
    }
  }

  // ---------- publish ----------

  /** The item a node puts for a gossip content in a slot. */
  function HonestItem(lib: Library, author: Node, unixMinute: u64, g: GossipRecordContent, entropy: Entropy)
    : Result<Item>
  {
    var record := Sign(lib, author.topic, unixMinute, lib.encodeContent(g), author.signingKey);
    match WireBytes(lib, record, EncryptionKey(lib, author, unixMinute), entropy)
    case Err(e) => Err(e)
    case Ok(value) => Ok(Item(value, I64_MAX))
  }

  /** A published gossip record is always built, and every node of the group can decode it. */
  lemma HonestItemIsRead(
    lib: Library, author: Node, reader: Node, unixMinute: u64, g: GossipRecordContent, entropy: Entropy)
    requires lib.Laws() && SameGroup(author, reader)
    ensures var item := HonestItem(lib, author, unixMinute, g, entropy);
      var record := Sign(lib, author.topic, unixMinute, lib.encodeContent(g), author.signingKey);
      && item.Ok? && item.value.seqNo == I64_MAX
      && ReadWire(lib, item.value.value, EncryptionKey(lib, reader, unixMinute)) == Ok(record)
      && record.pubKey == PubKey(lib, author)
      && lib.decodeContent(record.content) == Some(g)
  {
    var record := Sign(lib, author.topic, unixMinute, lib.encodeContent(g), author.signingKey);
    WireRoundTrip(lib, record, EncryptionKey(lib, author, unixMinute), entropy);
  }

  /** Every other node of the group admits it. */
  lemma HonestItemAdmitted(
    lib: Library, author: Node, reader: Node, unixMinute: u64, g: GossipRecordContent, entropy: Entropy)
    requires lib.Laws()
    requires SameGroup(author, reader) && PubKey(lib, author) != PubKey(lib, reader)
    ensures var record := Sign(lib, author.topic, unixMinute, lib.encodeContent(g), author.signingKey);
      && HonestItem(lib, author, unixMinute, g, entropy).Ok?
      && HonestItem(lib, author, unixMinute, g, entropy).value.seqNo == I64_MAX
      && Admit(lib, reader, unixMinute, HonestItem(lib, author, unixMinute, g, entropy).value) == Some(record)
      && record.pubKey == PubKey(lib, author)
      && lib.decodeContent(record.content) == Some(g)
  {
    var content := lib.encodeContent(g);
    HonestItemIsRead(lib, author, reader, unixMinute, g, entropy);
    ParseAfterSerialize(Sign(lib, author.topic, unixMinute, content, author.signingKey));
    SignedRecordVerifiesExactly(lib, author.topic, unixMinute, content, author.signingKey, reader.topic, unixMinute);
  }

  /** A put request: the slot it goes to and the item. */
  datatype Put = Put(topic: Bytes32, unixMinute: u64, item: Item)

  /** How a publish meets the token and the DHT: the token fires before a put is made, or while one is
      under way; else the put is stored, or not. */
  datatype Course = CutBeforePut | CutDuringPut | Stored | NotStored

  /** The records a publish counts: the cached ones, or those it reads. */
  function Known(lib: Library, node: Node, unixMinute: u64, cached: Option<set<Record>>, fetch: Fetch): set<Record>
    requires cached.Some? || fetch.Answered?
  {
    if cached.Some? then cached.value else Records(lib, node, unixMinute, fetch.items)
  }

  /** What a publish of `record` returns and puts. */
  ghost predicate PublishOk(
    lib: Library, node: Node, record: Record, cached: Option<set<Record>>, fetch: Fetch,
    entropy: Entropy, course: Course, res: Result<()>, put: Option<Put>)
  {
    if course.CutBeforePut? then put.None? && res == Err(Cancelled)
    else if cached.None? && !fetch.Answered? then put.None? && res.Err?
    else if |Known(lib, node, record.unixMinute, cached, fetch)| >= node.maxBootstrapRecords then
      put.None? && res == Ok(())
    else
      && (put.Some? <==> |record.content| <= 1764)
      && (res.Ok? <==> put.Some? && course == Stored)
      && (put.Some? && course.CutDuringPut? ==> res == Err(Cancelled))
      && (put.Some? ==> PutCarries(lib, node, record, entropy, put.value))
  }

  /** The put goes to the record's own slot and can be read back to the record. */
  ghost predicate PutCarries(lib: Library, node: Node, record: Record, entropy: Entropy, put: Put) {
    var encryptionKey := lib.rotate(node.rotation, node.topic, record.unixMinute, node.initialSecretHash);
    && put.topic == node.topic && put.unixMinute == record.unixMinute
    && put.item.seqNo == 0x7fff_ffff_ffff_ffff
    && WireBytes(lib, record, encryptionKey, entropy) == Ok(put.item.value)
    && ReadWire(lib, put.item.value, encryptionKey) == Ok(record)
  }

  /** Publishes `record` unless the slot is full. `cached` replaces the read of the slot; `fetch` is
      the DHT's answer to that read. A put that was cut short may still have been stored. */
  method PublishRecordCached(
    lib: Library, node: Node, record: Record, cached: Option<set<Record>>, fetch: Fetch,
    entropy: Entropy, course: Course)
    returns (res: Result<()>, put: Option<Put>)
    requires lib.SealLaw()
    ensures PublishOk(lib, node, record, cached, fetch, entropy, course, res, put)
  {
    if course.CutBeforePut? {
      return Err(Cancelled), None;
    }
    var records: set<Record>;
    match cached {
      case Some(known) => records := known;
      case None =>
        var read := GetRecords(lib, node, record.unixMinute, fetch);
        match read {
          case Err(e) => return Err(e), None;
          case Ok(found) => records := found;
        }
    }
    if |records| >= node.maxBootstrapRecords {
      return Ok(()), None;
    }
    var encryptionKey := EncryptionKey(lib, node, record.unixMinute);
    var encryptedRecord := EncryptRecord(lib, record, encryptionKey, entropy);
    WireRoundTrip(lib, record, encryptionKey, entropy);
    var data := SerializeEncrypted(encryptedRecord);
    match data {
      case Err(e) => return Err(e), None;
      case Ok(value) =>
        put := Some(Put(node.topic, record.unixMinute, Item(value, I64_MAX)));
        match course {
          case CutDuringPut => res := Err(Cancelled);
          case Stored => res := Ok(());
          case _ => res := Err(DhtFailed);
        }
    }
  }
}
