/** One iteration of the bootstrap loop (src/gossip/topic/bootstrap.rs). The clock, the DHT's answers,
    the join status and the outcome of every `select!` are arbitrary inputs; what the loop does is its log. */
module BootstrapIteration {
  import opened Wrappers
  import opened Bytes
  import opened Library
  import opened Record
  import opened RecordPublisher
  import opened PeerExtraction
  import GossipSender

  datatype Config = Config(publishRecordOnStartup: bool, checkOlderRecordsFirstOnStartup: bool)

  // ---------- inputs ----------

  datatype Status = Joined | NotJoined | CheckFailed

  /** Which branch of a `select!` runs. */
  datatype Wake = SleepOver | JoinSignal | TokenCancelled

  /** How the attempt to join one peer goes. */
  datatype PeerTurn = PeerTurn(requestSent: bool, wake: Wake, status: Status)

  /** Everything one iteration can observe. */
  datatype Turn = Turn(
    cancelled: bool,
    atTop: Status,
    unixMinute: u64,
    earlier: Fetch,
    later: Fetch,
    beforeJoins: Status,
    peer: nat -> PeerTurn,
    afterJoins: Status,
    confirmWake: Wake,
    atEnd: Status,
    lastWake: Wake)

  // ---------- the log ----------

  /** The places where the join status is checked, in the order of the loop. */
  datatype Site = AtTop | BeforeJoins | AfterPeer | AfterJoins | AtEnd

  datatype Check = Check(site: Site, status: Status)

  /** A publish handed to the publishing task, with the cached slot content if there is one. */
  datatype Attempt = Attempt(record: Record, cached: Option<set<Record>>)

  datatype Ending =
    | Again              // the loop continues
    | CancelledAtEnd     // the token fired in the last wait of the iteration
    | LeftEarly          // joined, status check failed, or token fired before the publish decision

  datatype Iteration = Iteration(
    checks: seq<Check>,
    unixMinute: u64,
    window: seq<u64>,      // the slots read, in order; empty if the iteration ends at its first check
    records: set<Record>,
    nodes: set<Bytes32>,
    joins: seq<Bytes32>,   // peers asked to join, in order
    attempts: seq<Attempt>,
    ending: Ending)

  /** The iteration ran to its end and the node was not joined. */
  predicate EndsUnjoined(it: Iteration) { it.ending != LeftEarly }

  /** Saturating subtraction. */
  function Back(minute: u64, n: nat): u64 { if minute < n then 0 else minute - n }

  /** A failed read counts as an empty set. */
  ghost function RecordsOrNone(lib: Library, node: Node, unixMinute: u64, fetch: Fetch): set<Record> {
    if fetch.Answered? then Records(lib, node, unixMinute, fetch.items) else {}
  }

  /** The record a bootstrapping node publishes: signed content without peers and hashes. */
  lemma EmptyRecordIsEmpty(lib: Library, node: Node, unixMinute: u64)
    requires lib.Laws()
    ensures var r := EmptyRecord(lib, node, unixMinute);
      && SignedFor(lib, r, node.topic, unixMinute) && r.pubKey == PubKey(lib, node)
      && lib.decodeContent(r.content).Some?
      && (forall i | 0 <= i < MAX_RECORD_PEERS :: lib.decodeContent(r.content).value.activePeers[i] == ZERO_SLOT)
      && (forall i | 0 <= i < MAX_MESSAGE_HASHES ::
            lib.decodeContent(r.content).value.lastMessageHashes[i] == ZERO_SLOT)
  {
  }

  function EmptyRecord(lib: Library, node: Node, unixMinute: u64): Record {
    Sign(lib, node.topic, unixMinute, lib.encodeContent(EMPTY_CONTENT), node.signingKey)
  }

  /** Some check other than the one after the joins answered "joined". */
  predicate FoundJoined(checks: seq<Check>) {
    || Check(AtTop, Joined) in checks || Check(BeforeJoins, Joined) in checks
    || Check(AfterPeer, Joined) in checks || Check(AtEnd, Joined) in checks
  }

  predicate NeverJoinedNorFailed(checks: seq<Check>) {
    forall c | c in checks :: c.status == NotJoined
  }

  /** A positive last answer ends the iteration; a positive answer after the joins is not acted upon
      but directly followed by the check at the end. */
  predicate PositiveAnswersEnd(checks: seq<Check>, leaves: bool) {
    && |checks| > 0
    && (checks[|checks| - 1].status == Joined ==> leaves)
    && (Check(AfterJoins, Joined) in checks ==>
          |checks| >= 2 && checks[|checks| - 2] == Check(AfterJoins, Joined) && checks[|checks| - 1].site == AtEnd)
  }

  // ---------- one iteration ----------

  method ReadSlot(lib: Library, node: Node, unixMinute: u64, fetch: Fetch) returns (records: set<Record>)
    ensures records == RecordsOrNone(lib, node, unixMinute, fetch)
  {
    var read := GetRecords(lib, node, unixMinute, fetch);
    records := if read.Ok? then read.value else {};
  }

  /** After this peer no further one is asked. */
  predicate StopsJoining(t: PeerTurn) {
    t.requestSent && (t.wake == TokenCancelled || t.status != NotJoined)
  }

  /** The status checks after the first `n` peers: one for each request that was sent and not cut
      short by the token. */
  function PeerChecks(peer: nat -> PeerTurn, n: nat): seq<Check> {
    if n == 0 then []
    else
      var t := peer(n - 1);
      PeerChecks(peer, n - 1) + if t.requestSent && t.wake != TokenCancelled then [Check(AfterPeer, t.status)] else []
  }

  /** The peers asked are distinct nodes, in any order, up to the first that stops the joining. */
  ghost predicate JoinsOk(nodes: set<Bytes32>, peer: nat -> PeerTurn, joins: seq<Bytes32>) {
    && GossipSender.Distinct(joins) && (forall k | k in joins :: k in nodes)
    && (forall i: nat | i < |joins| - 1 :: !StopsJoining(peer(i)))
    && ((exists k :: k in nodes && k !in joins) ==> |joins| > 0 && StopsJoining(peer(|joins| - 1)))
  }

  predicate CutShort(peer: nat -> PeerTurn, n: nat) {
    n > 0 && peer(n - 1).requestSent && peer(n - 1).wake == TokenCancelled
  }

  /** Asks the nodes one by one, in arbitrary order, until one status check does not answer "not
      joined" or the token fires. */
  method JoinOneByOne(nodes: set<Bytes32>, peer: nat -> PeerTurn)
    returns (joins: seq<Bytes32>, checks: seq<Check>, joined: bool, cancelled: bool)
    ensures JoinsOk(nodes, peer, joins) && checks == PeerChecks(peer, |joins|)
    ensures cancelled == CutShort(peer, |joins|)
    ensures joined <==> Check(AfterPeer, Joined) in checks
    ensures forall c | c in checks :: c.site == AfterPeer
  {
    joins, checks, joined, cancelled := [], [], false, false;
    var rest := nodes;
    while rest != {}
      invariant rest <= nodes
      invariant GossipSender.Distinct(joins) && forall k :: k in joins <==> k in nodes - rest
      invariant forall c | c in checks :: c.site == AfterPeer && c.status != Joined
      invariant checks == PeerChecks(peer, |joins|)
      invariant forall i: nat | i < |joins| :: !StopsJoining(peer(i))
      invariant !joined && !cancelled
      decreases |rest|
    {
      var pubKey :| pubKey in rest;
      var t := peer(|joins|);
      assert forall i | 0 <= i < |joins| :: joins[i] in joins;
      joins := joins + [pubKey];
      rest := rest - {pubKey};
      if t.requestSent {
        if t.wake == TokenCancelled {
          cancelled := true;
          break;
        }
        checks := checks + [Check(AfterPeer, t.status)];
        if t.status == Joined {
          joined := true;
          assert checks[|checks| - 1] == Check(AfterPeer, Joined);
          break;
        } else if t.status == CheckFailed {
          break;
        }
      }
    }
  }

  function AttemptsIfDue(lib: Library, node: Node, unixMinute: u64, last: u64, cached: Option<set<Record>>)
    : seq<Attempt>
  {
    if unixMinute == last then [] else [Attempt(EmptyRecord(lib, node, unixMinute), cached)]
  }

  /** The last wait of an iteration. */
  function EndOf(wake: Wake): (ending: Ending)
    ensures ending == Again <==> wake.SleepOver? || wake.JoinSignal?
    ensures ending != LeftEarly
  {
    if wake == TokenCancelled then CancelledAtEnd else Again
  }

  /** From the extracted nodes to the publish decision: which peers are asked, which status checks
      are made in which order, and whether the decision is reached. */
  ghost predicate ConnectOk(nodes: set<Bytes32>, t: Turn, joins: seq<Bytes32>, checks: seq<Check>, proceed: bool) {
    if t.beforeJoins != NotJoined then
      joins == [] && checks == [Check(BeforeJoins, t.beforeJoins)] && !proceed
    else
      var sofar := [Check(BeforeJoins, NotJoined)] + PeerChecks(t.peer, |joins|);
      && JoinsOk(nodes, t.peer, joins)
      && if CutShort(t.peer, |joins|) then checks == sofar && !proceed
         else if t.afterJoins == CheckFailed || (t.afterJoins == NotJoined && t.confirmWake == TokenCancelled) then
           checks == sofar + [Check(AfterJoins, t.afterJoins)] && !proceed
         else
           && checks == sofar + [Check(AfterJoins, t.afterJoins), Check(AtEnd, t.atEnd)]
           && proceed == (t.atEnd == NotJoined)
  }

  /** Whether the older pair of slots is read. */
  predicate Older(config: Config, last: u64) { last == 0 && config.checkOlderRecordsFirstOnStartup }

  function WindowOf(unixMinute: u64, older: bool): seq<u64> {
    if older then [Back(unixMinute, 2), Back(unixMinute, 1)] else [Back(unixMinute, 1), unixMinute]
  }

  /** What one iteration does, given `last`, the minute of the last publish (0 for none). */
  ghost predicate IterationOk(lib: Library, node: Node, config: Config, last: u64, t: Turn, it: Iteration) {
    && it.unixMinute == t.unixMinute
    && |it.checks| > 0 && it.checks[0] == Check(AtTop, t.atTop)
    && if t.atTop != NotJoined then
         it == Iteration([Check(AtTop, t.atTop)], t.unixMinute, [], {}, {}, [], [], LeftEarly)
       else
         && it.window == WindowOf(t.unixMinute, Older(config, last))
         && it.records ==
            RecordsOrNone(lib, node, it.window[0], t.earlier) + RecordsOrNone(lib, node, it.window[1], t.later)
         && it.nodes == BootstrapNodes(lib, PubKey(lib, node), it.records)
         && (if it.records == {} then it.checks[1..] == [] && it.joins == [] && EndsUnjoined(it)
             else ConnectOk(it.nodes, t, it.joins, it.checks[1..], EndsUnjoined(it)))
         && AttemptsOk(lib, node, config, last, t, it)
         && (EndsUnjoined(it) ==> it.ending == EndOf(t.lastWake))
  }

  /** An iteration that ends unjoined publishes unless its minute has been published already; what it
      read of the current minute goes along, unless it read the older pair. */
  ghost predicate AttemptsOk(lib: Library, node: Node, config: Config, last: u64, t: Turn, it: Iteration)
    requires |it.window| == 2
  {
    it.attempts ==
    if !EndsUnjoined(it) then []
    else AttemptsIfDue(lib, node, it.unixMinute, last,
                       if Older(config, last) then None else Some(RecordsOrNone(lib, node, it.window[1], t.later)))
  }

  /** From the extracted nodes to the publish decision, which is reached unless the node turns out to
      be joined, a status check fails or the token fires. */
  method Connect(nodes: set<Bytes32>, t: Turn)
    returns (joins: seq<Bytes32>, checks: seq<Check>, joined: bool, proceed: bool)
    ensures ConnectOk(nodes, t, joins, checks, proceed)
    ensures joined <==> FoundJoined(checks)
  {
    joins, joined, proceed := [], false, false;
    checks := [Check(BeforeJoins, t.beforeJoins)];
    if t.beforeJoins == Joined {
      joined := true;
      return;
    } else if t.beforeJoins == CheckFailed {
      return;
    }

    var peerChecks, cancelled;
    joins, peerChecks, joined, cancelled := JoinOneByOne(nodes, t.peer);
    checks := checks + peerChecks;
    if cancelled {
      return;
    }

    checks := checks + [Check(AfterJoins, t.afterJoins)];
    if t.afterJoins == NotJoined {
      if t.confirmWake == TokenCancelled {
        return;
      }
    } else if t.afterJoins == CheckFailed {
      return;
    }

    checks := checks + [Check(AtEnd, t.atEnd)];
    if t.atEnd == Joined {
      joined := true;
      return;
    } else if t.atEnd == CheckFailed {
      return;
    }
    proceed := true;
  }

  /** Publishes unless this minute has been published already. */
  method PublishIfDue(lib: Library, node: Node, unixMinute: u64, last: u64, cached: Option<set<Record>>)
    returns (attempts: seq<Attempt>, lastPublished: u64)
    ensures lastPublished == unixMinute
    ensures attempts == AttemptsIfDue(lib, node, unixMinute, last, cached)
  {
    attempts, lastPublished := [], last;
    if unixMinute != lastPublished {
      lastPublished := unixMinute;
      attempts := [Attempt(EmptyRecord(lib, node, unixMinute), cached)];
    }
  }

  lemma AfterTopCheck(checks: seq<Check>)
    ensures FoundJoined([Check(AtTop, NotJoined)] + checks) <==> FoundJoined(checks)
  {
    forall c | c != Check(AtTop, NotJoined) ensures c in [Check(AtTop, NotJoined)] + checks <==> c in checks {
    }
  }

  /** Chooses the slots and reads them. */
  method ReadWindow(lib: Library, node: Node, config: Config, last: u64, t: Turn)
    returns (window: seq<u64>, records: set<Record>, cached: Option<set<Record>>)
    ensures window == WindowOf(t.unixMinute, Older(config, last))
    ensures records == RecordsOrNone(lib, node, window[0], t.earlier) + RecordsOrNone(lib, node, window[1], t.later)
    ensures cached ==
      if Older(config, last) then None else Some(RecordsOrNone(lib, node, window[1], t.later))
  {
    var useCachedNext := true;
    var offset := 0;
    if last == 0 && config.checkOlderRecordsFirstOnStartup {
      useCachedNext := false;
      offset := 1;
    }
    window := [Back(t.unixMinute, offset + 1), Back(t.unixMinute, offset)];
    records := ReadSlot(lib, node, window[0], t.earlier);
    var currentRecords := ReadSlot(lib, node, window[1], t.later);
    records := records + currentRecords;
    cached := if useCachedNext then Some(currentRecords) else None;
  }

  method Iterate(lib: Library, node: Node, config: Config, last: u64, t: Turn)
    returns (it: Iteration, lastPublished: u64, joined: bool)
    ensures IterationOk(lib, node, config, last, t, it)
    ensures lastPublished == if EndsUnjoined(it) then it.unixMinute else last
    ensures joined <==> FoundJoined(it.checks)
  {
    lastPublished, joined := last, false;
    var top := [Check(AtTop, t.atTop)];
    if t.atTop != NotJoined {
      joined := t.atTop == Joined;
      it := Iteration(top, t.unixMinute, [], {}, {}, [], [], LeftEarly);
      return;
    }

    var window, records, cached := ReadWindow(lib, node, config, last, t);
    var attempts;

    if records == {} {
      attempts, lastPublished := PublishIfDue(lib, node, t.unixMinute, lastPublished, cached);
      it := Iteration(top, t.unixMinute, window, records, {}, [], attempts, EndOf(t.lastWake));
      return;
    }

    var nodes := CollectBootstrapNodes(lib, PubKey(lib, node), records);
    var joins, checks, proceed;
    joins, checks, joined, proceed := Connect(nodes, t);
    AfterTopCheck(checks);
    assert (top + checks)[1..] == checks;
    if !proceed {
      it := Iteration(top + checks, t.unixMinute, window, records, nodes, joins, [], LeftEarly);
      return;
    }
    attempts, lastPublished := PublishIfDue(lib, node, t.unixMinute, lastPublished, cached);
    it := Iteration(top + checks, t.unixMinute, window, records, nodes, joins, attempts, EndOf(t.lastWake));
  }

  // ---------- what an iteration guarantees ----------

  lemma {:induction false} PeerChecksFacts(peer: nat -> PeerTurn, n: nat)
    requires forall i: nat | i < n - 1 :: !StopsJoining(peer(i))
    ensures forall c | c in PeerChecks(peer, n) :: c.site == AfterPeer
    ensures n > 0 && StopsJoining(peer(n - 1)) && !CutShort(peer, n) ==> !NeverJoinedNorFailed(PeerChecks(peer, n))
  {
    if n > 0 {
      PeerChecksFacts(peer, n - 1);
      var all := PeerChecks(peer, n);
      if StopsJoining(peer(n - 1)) && !CutShort(peer, n) {
        assert all[|all| - 1].status != NotJoined;
      }
    }
  }

  /** A positive last answer ends the iteration; a positive answer after the joins is not acted upon
      but directly followed by the check at the end. A decision reached without any other answer than
      "not joined" has asked every node. */
  lemma ConnectFacts(nodes: set<Bytes32>, t: Turn, joins: seq<Bytes32>, checks: seq<Check>, proceed: bool)
    requires ConnectOk(nodes, t, joins, checks, proceed)
    ensures PositiveAnswersEnd(checks, !proceed)
    ensures proceed && NeverJoinedNorFailed(checks) ==> forall k | k in nodes :: k in joins
    ensures GossipSender.Distinct(joins) && forall k | k in joins :: k in nodes
  {
    if t.beforeJoins == NotJoined {
      var peers := PeerChecks(t.peer, |joins|);
      PeerChecksFacts(t.peer, |joins|);
      assert checks[..1 + |peers|] == [Check(BeforeJoins, NotJoined)] + peers;
      forall c | c in peers ensures c in checks {
        assert c in checks[..1 + |peers|];
      }
    }
  }

  /** Exactly when the loop goes on: the iteration found no record, or connecting to the nodes found
      neither "joined" nor a failing check where that counts, and the token never fired. A wake-up by a
      join signal is no reason to leave. */
  lemma LoopGoesOn(lib: Library, node: Node, config: Config, last: u64, t: Turn, it: Iteration)
    requires IterationOk(lib, node, config, last, t, it)
    ensures EndsUnjoined(it) <==> t.atTop == NotJoined && (it.records == {} || Undecided(t, |it.joins|))
    ensures it.ending == Again <==> EndsUnjoined(it) && t.lastWake != TokenCancelled
  {
  }

  predicate Undecided(t: Turn, asked: nat) {
    && t.beforeJoins == NotJoined
    && !(asked > 0 && t.peer(asked - 1).requestSent && t.peer(asked - 1).wake == TokenCancelled)
    && t.afterJoins != CheckFailed && !(t.afterJoins == NotJoined && t.confirmWake == TokenCancelled)
    && t.atEnd == NotJoined
  }

  /** Some answer other than "not joined", or the token, interferes with the iteration. */
  predicate Interrupted(t: Turn, it: Iteration) {
    || t.lastWake == TokenCancelled || t.confirmWake == TokenCancelled
    || (exists p: nat :: p < |it.joins| && t.peer(p).wake == TokenCancelled)
    || (exists c :: c in it.checks && c.status != NotJoined)
  }

  /** Nothing else makes an iteration leave the loop. */
  lemma LeavingHasAReason(lib: Library, node: Node, config: Config, last: u64, t: Turn, it: Iteration)
    requires IterationOk(lib, node, config, last, t, it) && it.ending != Again
    ensures Interrupted(t, it)
  {
    LoopGoesOn(lib, node, config, last, t, it);
    var rest := it.checks[1..];
    assert it.checks == [it.checks[0]] + rest;
    assert forall c | c in rest :: c in it.checks;
    if t.atTop == NotJoined && !EndsUnjoined(it) && !CutShort(t.peer, |it.joins|) && t.confirmWake != TokenCancelled {
      UnconnectedHasAReason(it.nodes, t, it.joins, rest);
    }
  }

  lemma UnconnectedHasAReason(nodes: set<Bytes32>, t: Turn, joins: seq<Bytes32>, checks: seq<Check>)
    requires ConnectOk(nodes, t, joins, checks, false)
    requires !CutShort(t.peer, |joins|) && t.confirmWake != TokenCancelled
    ensures exists c :: c in checks && c.status != NotJoined
  {
    assert checks[|checks| - 1] in checks;
  }

  lemma IterationFacts(lib: Library, node: Node, config: Config, last: u64, t: Turn, it: Iteration)
    requires IterationOk(lib, node, config, last, t, it)
    ensures PositiveAnswersEnd(it.checks, !EndsUnjoined(it))
    ensures EndsUnjoined(it) && NeverJoinedNorFailed(it.checks) ==> forall k | k in it.nodes :: k in it.joins
    ensures GossipSender.Distinct(it.joins) && forall k | k in it.joins :: k in it.nodes
  {
    var rest := it.checks[1..];
    assert it.checks == [it.checks[0]] + rest;
    if rest != [] {
      ConnectFacts(it.nodes, t, it.joins, rest, EndsUnjoined(it));
      assert forall c | c in rest :: c in it.checks;
    }
  }
}
