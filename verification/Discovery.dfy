/** From one node's publish to another node's joins: what holds across all components. */
module Discovery {
  import opened Wrappers
  import opened Bytes
  import opened Library
  import opened Record
  import opened RecordPublisher
  import opened PeerExtraction
  import opened BootstrapIteration
  import opened Bootstrap
  import GossipReceiver
  import opened Publisher
  import opened SplitDetection
  import opened Merge

  /** If the item is anywhere in the answer, whatever else is, a record of its author is read. */
  lemma ReadAmidNoise(
    lib: Library, author: Node, reader: Node, unixMinute: u64, g: GossipRecordContent, entropy: Entropy,
    items: seq<Item>)
    requires lib.Laws() && SameGroup(author, reader) && PubKey(lib, author) != PubKey(lib, reader)
    requires HonestItem(lib, author, unixMinute, g, entropy).Ok?
    requires HonestItem(lib, author, unixMinute, g, entropy).value in items
    ensures exists r :: r in Records(lib, reader, unixMinute, items) && r.pubKey == PubKey(lib, author)
  {
    HonestItemAdmitted(lib, author, reader, unixMinute, g, entropy);
    var v := Entries(lib, reader, unixMinute, items);
    var i :| 0 <= i < |items| && items[i] == HonestItem(lib, author, unixMinute, g, entropy).value;
    assert v[i].record.value.pubKey == PubKey(lib, author);
    OneRecordPerPublisher(v);
    assert PubKey(lib, author) in Publishers(v);
  }

  /** Discovery: if `author` published a gossip content for a minute and the item is in the answer to
      the read of that slot, then in every iteration of every run of `reader` that reads the slot the
      author is among the bootstrap nodes, and is asked to join unless the iteration got another
      answer than "not joined" or was left early. */
  lemma AuthorIsDiscovered(
    lib: Library, author: Node, reader: Node, unixMinute: u64, g: GossipRecordContent, entropy: Entropy,
    config: Config, startMinute: u64, turn: nat -> Turn, log: seq<Iteration>, i: nat, slot: nat)
    requires lib.Laws() && SameGroup(author, reader) && PubKey(lib, author) != PubKey(lib, reader)
    requires ValidLog(lib, reader, config, startMinute, turn, log) && i < |log|
    requires slot < |log[i].window| && log[i].window[slot] == unixMinute
    requires var fetch := if slot == 0 then turn(i).earlier else turn(i).later;
      && HonestItem(lib, author, unixMinute, g, entropy).Ok?
      && fetch.Answered? && HonestItem(lib, author, unixMinute, g, entropy).value in fetch.items
    ensures PubKey(lib, author) in log[i].nodes
    ensures EndsUnjoined(log[i]) && NeverJoinedNorFailed(log[i].checks) ==> PubKey(lib, author) in log[i].joins
  {
    assert IterationAt(lib, reader, config, startMinute, turn, log, i);
    var fetch := if slot == 0 then turn(i).earlier else turn(i).later;
    ReadAmidNoise(lib, author, reader, unixMinute, g, entropy, fetch.items);
    var r :| r in Records(lib, reader, unixMinute, fetch.items) && r.pubKey == PubKey(lib, author);
    assert r in log[i].records;
    assert IsBootstrapNode(lib, PubKey(lib, reader), r, r.pubKey) && r.pubKey in [r.pubKey] + PeersOf(lib, r);
    JoinsAreTheNodes(lib, reader, config, startMinute, turn, log, i);
  }

  /** How the task behind a publish attempt fares. */
  datatype Fate = Fate(fetch: Fetch, entropy: Entropy, course: Course)

  /** The attempts of a run, with what became of each. */
  ghost predicate TasksOk(
    lib: Library, node: Node, attempts: seq<Attempt>, fates: seq<Fate>, puts: seq<Option<Put>>)
  {
    && |fates| == |puts| == |attempts|
    && forall k | 0 <= k < |attempts| ::
         TaskOk(lib, node, attempts[k], fates[k].fetch, fates[k].entropy, fates[k].course, puts[k])
  }

  /** Among the tasks of a run in which an iteration ended unjoined at `minute`, one put an item for that
      minute, if the slot had room for those that were for it. */
  lemma UnjoinedNodePuts(
    lib: Library, author: Node, config: Config, startMinute: u64, turn: nat -> Turn, horizon: nat, run: Run,
    i: nat, fates: seq<Fate>, puts: seq<Option<Put>>)
    returns (k: nat)
    requires RunOk(lib, author, config, startMinute, turn, horizon, run)
    requires i < |run.log| && EndsUnjoined(run.log[i]) && run.log[i].unixMinute > 0
    requires TasksOk(lib, author, AttemptsOf(run.startup, run.log, |run.log|), fates, puts)
    requires var attempts := AttemptsOf(run.startup, run.log, |run.log|);
      forall k | 0 <= k < |attempts| && attempts[k].record.unixMinute == run.log[i].unixMinute ::
        HasRoom(lib, author, attempts[k], fates[k].fetch, fates[k].course)
    ensures k < |puts| && puts[k].Some? && puts[k].value.unixMinute == run.log[i].unixMinute
    ensures EmptyItem(lib, author, run.log[i].unixMinute, fates[k].entropy) == Ok(puts[k].value.item)
  {
    var minute := run.log[i].unixMinute;
    var attempts := AttemptsOf(run.startup, run.log, |run.log|);
    assert Unjoined(run.log, |run.log|, minute);
    AttemptExists(lib, author, config, startMinute, turn, run.log, |run.log|, minute);
    k :| k < |attempts| && attempts[k].record.unixMinute == minute;
    assert TaskOk(lib, author, attempts[k], fates[k].fetch, fates[k].entropy, fates[k].course, puts[k]);
  }

  /** Two nodes that bootstrap at the same time find each other: if an iteration of `author` ends
      unjoined at a minute whose slot has room, every iteration of `reader` in that minute or the next
      that gets past its first check, does not read the older pair, and whose read of the slot returns
      the completed puts, has `author` among its nodes. */
  lemma UnjoinedNodeIsDiscovered(
    lib: Library, author: Node, config: Config, startMinute: u64, turn: nat -> Turn, horizon: nat, run: Run,
    i: nat, fates: seq<Fate>, puts: seq<Option<Put>>,
    reader: Node, config': Config, startMinute': u64, turn': nat -> Turn, log: seq<Iteration>, j: nat)
    requires lib.Laws() && SameGroup(author, reader) && PubKey(lib, author) != PubKey(lib, reader)
    requires RunOk(lib, author, config, startMinute, turn, horizon, run)
    requires i < |run.log| && EndsUnjoined(run.log[i]) && run.log[i].unixMinute > 0
    requires TasksOk(lib, author, AttemptsOf(run.startup, run.log, |run.log|), fates, puts)
    requires var attempts := AttemptsOf(run.startup, run.log, |run.log|);
      forall k | 0 <= k < |attempts| && attempts[k].record.unixMinute == run.log[i].unixMinute ::
        HasRoom(lib, author, attempts[k], fates[k].fetch, fates[k].course)
    requires ValidLog(lib, reader, config', startMinute', turn', log) && j < |log|
    requires forall n: nat :: turn'(n).unixMinute > 0
    requires log[j].window != [] && !(j == 0 && config'.checkOlderRecordsFirstOnStartup)
    requires run.log[i].unixMinute <= log[j].unixMinute <= run.log[i].unixMinute + 1
    requires var fetch := if log[j].unixMinute == run.log[i].unixMinute then turn'(j).later else turn'(j).earlier;
      && fetch.Answered?
      && forall k | 0 <= k < |puts| && puts[k].Some? && puts[k].value.unixMinute == run.log[i].unixMinute ::
           puts[k].value.item in fetch.items
    ensures PubKey(lib, author) in log[j].nodes
    ensures EndsUnjoined(log[j]) && NeverJoinedNorFailed(log[j].checks) ==> PubKey(lib, author) in log[j].joins
  {
    var k := UnjoinedNodePuts(lib, author, config, startMinute, turn, horizon, run, i, fates, puts);
    OlderPairOnlyFirst(lib, reader, config', startMinute', turn', log, j);
    var slot := if log[j].unixMinute == run.log[i].unixMinute then 1 else 0;
    AuthorIsDiscovered(lib, author, reader, run.log[i].unixMinute, EMPTY_CONTENT, fates[k].entropy,
                       config', startMinute', turn', log, j, slot);
  }

  /** The record of an author whose item comes first among its items with the greatest sequence number
      is the one read, and the only one of that author. */
  lemma FirstItemIsRead(
    lib: Library, author: Node, reader: Node, unixMinute: u64, g: GossipRecordContent, entropy: Entropy,
    items: seq<Item>, i: nat)
    requires lib.Laws() && SameGroup(author, reader) && PubKey(lib, author) != PubKey(lib, reader)
    requires i < |items| && HonestItem(lib, author, unixMinute, g, entropy) == Ok(items[i])
    requires forall j | j < i && From(Entries(lib, reader, unixMinute, items), j, PubKey(lib, author)) ::
      items[j].seqNo < I64_MAX
    ensures var record := Sign(lib, author.topic, unixMinute, lib.encodeContent(g), author.signingKey);
      && lib.decodeContent(record.content) == Some(g)
      && forall r :: r in Records(lib, reader, unixMinute, items) && r.pubKey == PubKey(lib, author) <==> r == record
  {
    HonestItemAdmitted(lib, author, reader, unixMinute, g, entropy);
    var v := Entries(lib, reader, unixMinute, items);
    FirstHonestItemWins(v, i);
    assert Wins(v, i);
    OneRecordPerPublisher(v);
  }

  /** Item `i` of an answer is what `author`, having heard `history`, published for the slot, and comes
      before its other items with the greatest sequence number. */
  ghost predicate IsReadAt(
    lib: Library, author: Node, reader: Node, unixMinute: u64, entropy: Entropy, neighbors: seq<Bytes32>,
    history: seq<Bytes32>, items: seq<Item>, i: nat)
  {
    && i < |items|
    && HonestItem(lib, author, unixMinute, ContentOf(neighbors, GossipReceiver.Window(history)), entropy)
       == Ok(items[i])
    && forall j | j < i && From(Entries(lib, reader, unixMinute, items), j, PubKey(lib, author)) ::
         items[j].seqNo < I64_MAX
  }

  /** Both have heard something that counts, and their windows share no hash. */
  ghost predicate Disjoint(authorHistory: seq<Bytes32>, readerHistory: seq<Bytes32>) {
    && readerHistory != []
    && (exists h :: h in GossipReceiver.Window(authorHistory) && h != ZERO_SLOT)
    && (forall h | h in GossipReceiver.Window(authorHistory) && h != ZERO_SLOT ::
          h !in GossipReceiver.Window(readerHistory))
  }

  /** Split detection across the wire: `author` publishes the window of the messages it has heard;
      `reader` reads that record, and its overlap check flags it exactly when both have heard
      something that counts and their windows share no hash. */
  lemma SplitIsSeen(
    lib: Library, author: Node, reader: Node, unixMinute: u64, entropy: Entropy,
    neighbors: seq<Bytes32>, authorHistory: seq<Bytes32>, readerHistory: seq<Bytes32>, items: seq<Item>, i: nat)
    requires lib.Laws() && SameGroup(author, reader) && PubKey(lib, author) != PubKey(lib, reader)
    requires IsReadAt(lib, author, reader, unixMinute, entropy, neighbors, authorHistory, items, i)
    ensures var flagged := Flagged(lib, GossipReceiver.Window(readerHistory), Records(lib, reader, unixMinute, items));
      (exists r :: r in flagged && r.pubKey == PubKey(lib, author)) <==> Disjoint(authorHistory, readerHistory)
  {
    var g := ContentOf(neighbors, GossipReceiver.Window(authorHistory));
    FirstItemIsRead(lib, author, reader, unixMinute, g, entropy, items, i);
    FlagsExactlyDisjointWindows(neighbors, authorHistory, readerHistory);
    var record := Sign(lib, author.topic, unixMinute, lib.encodeContent(g), author.signingKey);
    var flagged := Flagged(lib, GossipReceiver.Window(readerHistory), Records(lib, reader, unixMinute, items));
    assert record in flagged <==> Flags(GossipReceiver.Window(readerHistory), g);
  }

  lemma FlaggedRecord(
    lib: Library, author: Node, reader: Node, unixMinute: u64, entropy: Entropy,
    peers: seq<Bytes32>, authorHistory: seq<Bytes32>, readerHistory: seq<Bytes32>, items: seq<Item>, i: nat)
    returns (r: Record)
    requires lib.Laws() && SameGroup(author, reader) && PubKey(lib, author) != PubKey(lib, reader)
    requires IsReadAt(lib, author, reader, unixMinute, entropy, peers, authorHistory, items, i)
    requires Disjoint(authorHistory, readerHistory)
    ensures r in Flagged(lib, GossipReceiver.Window(readerHistory), Records(lib, reader, unixMinute, items))
    ensures r.pubKey == PubKey(lib, author) && lib.isEndpointId(r.pubKey)
    ensures lib.decodeContent(r.content) == Some(ContentOf(peers, GossipReceiver.Window(authorHistory)))
  {
    SplitIsSeen(lib, author, reader, unixMinute, entropy, peers, authorHistory, readerHistory, items, i);
    FirstItemIsRead(lib, author, reader, unixMinute, ContentOf(peers, GossipReceiver.Window(authorHistory)),
                    entropy, items, i);
    r :| r in Flagged(lib, GossipReceiver.Window(readerHistory), Records(lib, reader, unixMinute, items))
         && r.pubKey == PubKey(lib, author);
  }

  lemma FlaggedAtEither(
    lib: Library, reader: Node, unixMinute: u64, now: u64, previous: seq<Item>, current: seq<Item>,
    readerHistory: seq<Bytes32>, neighbors: set<Bytes32>, r: Record, k: Bytes32)
    requires unixMinute <= now <= unixMinute + 1 && now >= 1 && IsPublisherOrActivePeer(lib, r, k)
    requires lib.isEndpointId(k) && k !in neighbors && k != PubKey(lib, reader)
    requires r in Flagged(lib, GossipReceiver.Window(readerHistory),
                          Records(lib, reader, unixMinute, if now == unixMinute then current else previous))
    ensures k in OverlapCandidates(lib, reader, now, previous, current, GossipReceiver.Window(readerHistory), neighbors)
  {
    FlaggedIsCandidate(lib, reader, now, previous, current, GossipReceiver.Window(readerHistory), neighbors, r, k);
  }

  /** `k` is the author, or one of the first five neighbours it published, and can be joined by `reader`. */
  predicate WorthJoining(
    lib: Library, author: Node, reader: Node, peers: seq<Bytes32>, neighbors: set<Bytes32>, k: Bytes32)
  {
    && (k == PubKey(lib, author)
        || (k != ZERO_SLOT && lib.isEndpointId(k) && exists n :: 0 <= n < |peers| && n < 5 && peers[n] == k))
    && k != PubKey(lib, reader) && k !in neighbors
  }

  lemma PublishedPeers(peers: seq<Bytes32>, hashes: seq<Bytes32>, n: nat)
    requires n < |peers| && n < 5
    ensures ContentOf(peers, hashes).activePeers[n] == peers[n]
  {
  }

  /** An author's published neighbours are active peers of every record with that content. */
  lemma WorthJoiningIsAdvertised(
    lib: Library, author: Node, reader: Node, peers: seq<Bytes32>, hashes: seq<Bytes32>, neighbors: set<Bytes32>,
    r: Record, k: Bytes32)
    requires lib.Laws() && WorthJoining(lib, author, reader, peers, neighbors, k)
    requires r.pubKey == PubKey(lib, author) && lib.decodeContent(r.content) == Some(ContentOf(peers, hashes))
    ensures IsPublisherOrActivePeer(lib, r, k) && lib.isEndpointId(k)
  {
    if k != r.pubKey {
      var n :| 0 <= n < |peers| && n < 5 && peers[n] == k;
      PublishedPeers(peers, hashes, n);
    }
  }

  /** Whatever else was read: an author whose item is read, and each usable neighbour among the first five
      it published, is a bootstrap node of the reader and, unless a neighbour, extracted by both merges. */
  lemma PublishedPeersAreFound(
    lib: Library, author: Node, reader: Node, unixMinute: u64, entropy: Entropy, peers: seq<Bytes32>,
    history: seq<Bytes32>, items: seq<Item>, i: nat, records: set<Record>, neighbors: set<Bytes32>, k: Bytes32)
    requires lib.Laws() && SameGroup(author, reader) && PubKey(lib, author) != PubKey(lib, reader)
    requires IsReadAt(lib, author, reader, unixMinute, entropy, peers, history, items, i)
    requires Records(lib, reader, unixMinute, items) <= records
    requires || k == PubKey(lib, author)
             || (k != ZERO_SLOT && lib.isEndpointId(k) && exists n :: 0 <= n < |peers| && n < 5 && peers[n] == k)
    requires k != PubKey(lib, reader) && k !in neighbors
    ensures var self := PubKey(lib, reader);
      && k in BootstrapNodes(lib, self, records)
      && k in BubblePeers(lib, self, neighbors, records)
      && k in OverlapPeers(lib, self, neighbors, records)
  {
    var g := ContentOf(peers, GossipReceiver.Window(history));
    FirstItemIsRead(lib, author, reader, unixMinute, g, entropy, items, i);
    var r := Sign(lib, author.topic, unixMinute, lib.encodeContent(g), author.signingKey);
    assert r in records;
    WorthJoiningIsAdvertised(lib, author, reader, peers, GossipReceiver.Window(history), neighbors, r, k);
    BootstrapNodesExactly(lib, PubKey(lib, reader), records, k);
    MergesExtractTheSame(lib, PubKey(lib, reader), neighbors, records);
  }

  /** So they are among the nodes of every iteration that reads the slot with the item. */
  lemma PublishedPeersAreNodes(
    lib: Library, author: Node, reader: Node, unixMinute: u64, entropy: Entropy, peers: seq<Bytes32>,
    history: seq<Bytes32>, n: nat, k: Bytes32,
    config: Config, startMinute: u64, turn: nat -> Turn, log: seq<Iteration>, i: nat, slot: nat)
    requires lib.Laws() && SameGroup(author, reader) && PubKey(lib, author) != PubKey(lib, reader)
    requires ValidLog(lib, reader, config, startMinute, turn, log) && i < |log|
    requires slot < |log[i].window| && log[i].window[slot] == unixMinute
    requires var fetch := if slot == 0 then turn(i).earlier else turn(i).later;
      fetch.Answered? && IsReadAt(lib, author, reader, unixMinute, entropy, peers, history, fetch.items, n)
    requires WorthJoining(lib, author, reader, peers, {}, k)
    ensures k in log[i].nodes
    ensures EndsUnjoined(log[i]) && NeverJoinedNorFailed(log[i].checks) ==> k in log[i].joins
  {
    assert IterationAt(lib, reader, config, startMinute, turn, log, i);
    var fetch := if slot == 0 then turn(i).earlier else turn(i).later;
    PublishedPeersAreFound(lib, author, reader, unixMinute, entropy, peers, history, fetch.items, n,
                           log[i].records, {}, k);
    JoinsAreTheNodes(lib, reader, config, startMinute, turn, log, i);
  }

  /** If the windows of author and reader share nothing, they are candidates of the reader's overlap merge
      in that minute or the next. */
  lemma SplitIsCandidate(
    lib: Library, author: Node, reader: Node, unixMinute: u64, entropy: Entropy,
    peers: seq<Bytes32>, authorHistory: seq<Bytes32>, readerHistory: seq<Bytes32>, i: nat,
    now: u64, previous: seq<Item>, current: seq<Item>, neighbors: set<Bytes32>, k: Bytes32)
    requires lib.Laws() && SameGroup(author, reader) && PubKey(lib, author) != PubKey(lib, reader)
    requires unixMinute <= now <= unixMinute + 1 && now >= 1
    requires IsReadAt(lib, author, reader, unixMinute, entropy, peers, authorHistory,
                      if now == unixMinute then current else previous, i)
    requires Disjoint(authorHistory, readerHistory) && WorthJoining(lib, author, reader, peers, neighbors, k)
    ensures k in OverlapCandidates(lib, reader, now, previous, current, GossipReceiver.Window(readerHistory), neighbors)
  {
    var items := if now == unixMinute then current else previous;
    var r := FlaggedRecord(lib, author, reader, unixMinute, entropy, peers, authorHistory, readerHistory, items, i);
    WorthJoiningIsAdvertised(lib, author, reader, peers, GossipReceiver.Window(authorHistory), neighbors, r, k);
    FlaggedAtEither(lib, reader, unixMinute, now, previous, current, readerHistory, neighbors, r, k);
  }

  /** A split is healed: the merge then sends a request, which asks the author, and each of these peers, if
      its limit covers all candidates. */
  lemma SplitIsJoined(
    lib: Library, author: Node, reader: Node, unixMinute: u64, entropy: Entropy,
    peers: seq<Bytes32>, authorHistory: seq<Bytes32>, readerHistory: seq<Bytes32>, i: nat,
    now: u64, previous: seq<Item>, current: seq<Item>, neighbors: set<Bytes32>, maxJoinPeers: nat,
    accepted: bool, res: Result<()>, request: Option<seq<Bytes32>>, k: Bytes32)
    requires lib.Laws() && SameGroup(author, reader) && PubKey(lib, author) != PubKey(lib, reader)
    requires unixMinute <= now <= unixMinute + 1 && now >= 1
    requires IsReadAt(lib, author, reader, unixMinute, entropy, peers, authorHistory,
                      if now == unixMinute then current else previous, i)
    requires Disjoint(authorHistory, readerHistory) && WorthJoining(lib, author, reader, peers, neighbors, k)
    requires OverlapOk(lib, reader, maxJoinPeers, now, Fetch.Answered(previous), Fetch.Answered(current),
                       Some(GossipReceiver.Window(readerHistory)), Some(neighbors), accepted, res, request)
    ensures request.Some?
    ensures |OverlapCandidates(lib, reader, now, previous, current, GossipReceiver.Window(readerHistory), neighbors)|
              <= maxJoinPeers
      ==> k in request.value
  {
    SplitIsCandidate(lib, author, reader, unixMinute, entropy, peers, authorHistory, readerHistory, i,
                     now, previous, current, neighbors, k);
    CandidateIsAsked(lib, reader, maxJoinPeers, now, previous, current, GossipReceiver.Window(readerHistory),
                     neighbors, accepted, res, request, k);
  }

  /** On one stream of distinct non-zero hashes: exactly when both have heard something and they are at
      least five messages apart. */
  lemma LagIsSeenAsSplit(
    lib: Library, author: Node, reader: Node, unixMinute: u64, entropy: Entropy,
    neighbors: seq<Bytes32>, stream: seq<Bytes32>, heardByAuthor: nat, heardByReader: nat, items: seq<Item>, i: nat)
    requires lib.Laws() && SameGroup(author, reader) && PubKey(lib, author) != PubKey(lib, reader)
    requires heardByAuthor <= |stream| && heardByReader <= |stream|
    requires forall a, b | 0 <= a < b < |stream| :: stream[a] != stream[b]
    requires ZERO_SLOT !in stream
    requires var content := ContentOf(neighbors, GossipReceiver.Window(stream[..heardByAuthor]));
      i < |items| && HonestItem(lib, author, unixMinute, content, entropy) == Ok(items[i])
    requires forall j | j < i && From(Entries(lib, reader, unixMinute, items), j, PubKey(lib, author)) ::
      items[j].seqNo < I64_MAX
    ensures var window := GossipReceiver.Window(stream[..heardByReader]);
      var flagged := Flagged(lib, window, Records(lib, reader, unixMinute, items));
      (exists r :: r in flagged && r.pubKey == PubKey(lib, author))
      <==> && heardByAuthor >= 1 && heardByReader >= 1
           && (heardByAuthor - heardByReader >= 5 || heardByReader - heardByAuthor >= 5)
  {
    SplitIsSeen(lib, author, reader, unixMinute, entropy, neighbors,
                stream[..heardByAuthor], stream[..heardByReader], items, i);
    FlagsExactlyDisjointWindows(neighbors, stream[..heardByAuthor], stream[..heardByReader]);
    SharedStreamFlagged(neighbors, stream, heardByAuthor, heardByReader);
  }
}
