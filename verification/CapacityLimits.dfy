/** How far the capacity of one slot can be exceeded: for every limit, every number of nodes between
    read and put and every number of failed reads there is a run that reaches the bound. */
module CapacityLimits {
  import opened Bytes
  import opened Library
  import opened Record
  import opened RecordPublisher
  import opened SlotCapacity

  // ---------- building runs ----------

  /** Some run with at most `c` nodes between read and put ends in `s`. */
  ghost predicate Reachable(slot: Slot, c: nat, s: State) {
    exists states: seq<State>, steps: seq<Step> ::
      IsRun(slot, states, steps, c) && states[|states| - 1] == s
  }

  lemma StartIsReachable(slot: Slot, c: nat)
    ensures Reachable(slot, c, INIT)
  {
    assert slot.InFlight(INIT) == {};
    assert IsRun(slot, [INIT], [], c);
  }

  lemma StepReaches(slot: Slot, c: nat, s: State, step: Step, s': State)
    requires Reachable(slot, c, s) && Next(slot, s, step, s') && |slot.InFlight(s')| <= c
    ensures Reachable(slot, c, s')
  {
    var states: seq<State>, steps: seq<Step> :| IsRun(slot, states, steps, c) && states[|states| - 1] == s;
    var states', steps' := states + [s'], steps + [step];
    forall i | 0 <= i < |steps'| ensures Linked(slot, states', steps', i) {
      if i < |steps| {
        assert Linked(slot, states, steps, i);
      }
    }
    assert IsRun(slot, states', steps', c);
  }

  lemma InFlightAfterSet(slot: Slot, s: State, id: nat, owner: Node, phase: Phase)
    requires phase != Queued && (id in s.tasks ==> s.tasks[id].owner == owner)
    ensures slot.InFlight(Set(s, id, owner, phase)) == slot.InFlight(s) + {slot.key(owner)}
  {
    var s' := Set(s, id, owner, phase);
    assert s'.tasks[id] == Task(owner, phase);
    forall k | k in slot.InFlight(s) ensures k in slot.InFlight(s') {
      var i :| i in s.tasks && s.tasks[i].phase != Queued && slot.key(s.tasks[i].owner) == k;
      assert i in s'.tasks;
    }
  }

  /** Task `id`, which holds too few records, decides and puts. */
  lemma DecideAndPut(slot: Slot, c: nat, s: State, id: nat, g: GossipRecordContent, entropy: Entropy)
    returns (s': State)
    requires Reachable(slot, c, s) && id in s.tasks && s.tasks[id].phase.Holding?
    requires |s.tasks[id].phase.records| < slot.max && |slot.InFlight(s)| <= c
    ensures Reachable(slot, c, s')
    ensures s' == s.(slot := s.slot + [Post(s.tasks[id].owner, g, entropy)], tasks := s.tasks - {id})
    ensures slot.Published(s') == slot.Published(s) + {slot.key(s.tasks[id].owner)}
  {
    var owner := s.tasks[id].owner;
    var ready := Set(s, id, owner, Ready(g, entropy));
    s' := s.(slot := s.slot + [Post(owner, g, entropy)], tasks := s.tasks - {id});
    InFlightAfterSet(slot, s, id, owner, Ready(g, entropy));
    assert slot.InFlight(ready) == slot.InFlight(s);
    assert ready.tasks - {id} == s'.tasks;
    SubsetSize(slot.InFlight(s'), slot.InFlight(s));
    StepReaches(slot, c, s, Decide(id, g, entropy), ready);
    StepReaches(slot, c, ready, PutItem(id, true), s');
    PublishedAfterPut(slot, s, s', Post(owner, g, entropy));
  }

  // ---------- distinct participants ----------

  predicate AllTakePart(slot: Slot, nodes: seq<Node>) {
    forall i | 0 <= i < |nodes| :: slot.member(nodes[i])
  }

  ghost predicate Crowd(slot: Slot, nodes: seq<Node>) {
    && AllTakePart(slot, nodes)
    && (forall i, j | 0 <= i < j < |nodes| :: slot.key(nodes[i]) != slot.key(nodes[j]))
  }

  function Keys(slot: Slot, nodes: seq<Node>): set<Bytes32> {
    if nodes == [] then {} else Keys(slot, nodes[..|nodes| - 1]) + {slot.key(nodes[|nodes| - 1])}
  }

  lemma KeysOfOneMore(slot: Slot, nodes: seq<Node>, n: nat)
    requires n < |nodes|
    ensures Keys(slot, nodes[..n + 1]) == Keys(slot, nodes[..n]) + {slot.key(nodes[n])}
  {
    assert nodes[..n + 1][..n] == nodes[..n];
  }

  lemma {:induction false} KeysOfConcat(slot: Slot, a: seq<Node>, b: seq<Node>)
    ensures Keys(slot, a + b) == Keys(slot, a) + Keys(slot, b)
  {
    if b == [] {
      assert a + b == a;
    } else {
      KeysOfConcat(slot, a, b[..|b| - 1]);
      assert (a + b)[..|a + b| - 1] == a + b[..|b| - 1];
    }
  }

  lemma {:induction false} KeysHave(slot: Slot, nodes: seq<Node>, k: Bytes32)
    ensures k in Keys(slot, nodes) <==> exists i :: 0 <= i < |nodes| && slot.key(nodes[i]) == k
  {
    if nodes != [] {
      KeysHave(slot, nodes[..|nodes| - 1], k);
    }
  }

  lemma {:induction false} KeysSize(slot: Slot, nodes: seq<Node>)
    ensures |Keys(slot, nodes)| <= |nodes|
    ensures Crowd(slot, nodes) ==> |Keys(slot, nodes)| == |nodes|
  {
    if nodes != [] {
      KeysSize(slot, nodes[..|nodes| - 1]);
      KeysHave(slot, nodes[..|nodes| - 1], slot.key(nodes[|nodes| - 1]));
    }
  }

  // ---------- runs that reach the bound ----------

  /** One task for each of `nodes` from number `first` on, which has read the empty slot. */
  function Waiting(nodes: seq<Node>, first: nat): map<nat, Task> {
    map id: nat | first <= id < |nodes| :: Task(nodes[id], Holding({}))
  }

  /** A state in which these tasks wait, and these nodes have published, or done so after a failed read. */
  ghost predicate Reaches(
    slot: Slot, c: nat, s: State, waiting: map<nat, Task>, published: set<Bytes32>, blind: set<Bytes32>)
  {
    && Reachable(slot, c, s) && Members(slot, s) && |slot.InFlight(s)| <= c
    && s.tasks == waiting && slot.Published(s) == published && s.blind == blind
  }

  lemma WaitingInFlight(slot: Slot, s: State, nodes: seq<Node>)
    requires s.tasks == Waiting(nodes, 0)
    ensures slot.InFlight(s) == Keys(slot, nodes)
    ensures |slot.InFlight(s)| <= |nodes|
  {
    forall k ensures k in slot.InFlight(s) <==> k in Keys(slot, nodes) {
      KeysHave(slot, nodes, k);
      if i: nat :| 0 <= i < |nodes| && slot.key(nodes[i]) == k {
        assert i in s.tasks;
      }
    }
    KeysSize(slot, nodes);
  }

  /** All of `nodes` read the empty slot. */
  lemma AllRead(slot: Slot, c: nat, nodes: seq<Node>) returns (s: State)
    requires slot.Exact() && AllTakePart(slot, nodes) && |nodes| <= c
    ensures Reaches(slot, c, s, Waiting(nodes, 0), {}, {})
  {
    s := INIT;
    StartIsReachable(slot, c);
    for i := 0 to |nodes|
      invariant Reachable(slot, c, s) && s == State([], Waiting(nodes[..i], 0), {})
    {
      var s' := Set(s, i, nodes[i], Holding({}));
      assert slot.Items([]) == [] && slot.Authors([]) == {};
      assert |slot.read(nodes[i], slot.Items([]))| == 0;
      assert s'.tasks == Waiting(nodes[..i + 1], 0);
      WaitingInFlight(slot, s', nodes[..i + 1]);
      StepReaches(slot, c, s, Prefetch(i, nodes[i], []), s');
      s := s';
    }
    assert nodes[..|nodes|] == nodes;
    WaitingInFlight(slot, s, nodes);
  }

  lemma ItemsCover(slot: Slot, posts: seq<Post>)
    ensures slot.Covers(slot.Items(posts), posts)
  {
    forall p | p in posts ensures slot.item(p) in slot.Items(posts) {
      var i :| 0 <= i < |posts| && posts[i] == p;
      assert slot.Items(posts)[i] == slot.item(p);
    }
  }

  /** While some nodes wait, one more reads what has been published, or fails to. */
  lemma OneReads(
    slot: Slot, c: nat, s: State, nodes: seq<Node>, published: set<Bytes32>, blind: set<Bytes32>,
    node: Node, failed: bool)
    returns (records: set<Record>, s': State)
    requires Reaches(slot, c, s, Waiting(nodes, 0), published, blind)
    requires slot.Exact() && slot.member(node) && |nodes| < c
    ensures |records| <= if failed then 0 else |published|
    ensures s' == Set(s, |nodes|, node, Holding(records)).(blind := if failed then blind + {slot.key(node)} else blind)
    ensures Reachable(slot, c, s') && |slot.InFlight(s')| <= c && slot.Published(s') == published
  {
    var id, answer := |nodes|, slot.Items(s.slot);
    records := if failed then {} else slot.read(node, answer);
    var held := Set(s, id, node, Holding(records));
    s' := held.(blind := if failed then blind + {slot.key(node)} else blind);
    ItemsCover(slot, s.slot);
    InFlightAfterSet(slot, s, id, node, Holding(records));
    WaitingInFlight(slot, s, nodes);
    assert slot.InFlight(s') == slot.InFlight(held);
    StepReaches(slot, c, s, if failed then BlindPrefetch(id, node) else Prefetch(id, node, answer), s');
  }

  /** It then publishes, if there is room. */
  lemma OnePublishes(
    slot: Slot, c: nat, s: State, nodes: seq<Node>, published: set<Bytes32>, blind: set<Bytes32>,
    node: Node, failed: bool, g: GossipRecordContent, entropy: Entropy)
    returns (s': State)
    requires Reaches(slot, c, s, Waiting(nodes, 0), published, blind)
    requires slot.Exact() && slot.member(node) && |nodes| < c
    requires if failed then slot.max > 0 else |published| < slot.max
    ensures Reaches(slot, c, s', Waiting(nodes, 0), published + {slot.key(node)},
                    if failed then blind + {slot.key(node)} else blind)
  {
    var records, held := OneReads(slot, c, s, nodes, published, blind, node, failed);
    s' := DecideAndPut(slot, c, held, |nodes|, g, entropy);
    assert s'.tasks == Waiting(nodes, 0);
    WaitingInFlight(slot, s', nodes);
  }

  /** The first of the waiting nodes publishes. */
  lemma WaitingPublishes(
    slot: Slot, c: nat, s: State, nodes: seq<Node>, first: nat, published: set<Bytes32>, blind: set<Bytes32>,
    g: GossipRecordContent, entropy: Entropy)
    returns (s': State)
    requires Reaches(slot, c, s, Waiting(nodes, first), published, blind)
    requires first < |nodes| && slot.max > 0
    ensures Reaches(slot, c, s', Waiting(nodes, first + 1), published + {slot.key(nodes[first])}, blind)
  {
    s' := DecideAndPut(slot, c, s, first, g, entropy);
    assert s'.tasks == Waiting(nodes, first + 1);
    SubsetSize(slot.InFlight(s'), slot.InFlight(s));
  }

  /** While `waiting` wait, `early` fill the slot, one after the other. */
  lemma SlotFills(
    slot: Slot, c: nat, waiting: seq<Node>, early: seq<Node>, g: GossipRecordContent, entropy: Entropy)
    returns (s: State)
    requires slot.Exact() && AllTakePart(slot, waiting) && AllTakePart(slot, early)
    requires |waiting| < c && |early| <= slot.max
    ensures Reaches(slot, c, s, Waiting(waiting, 0), Keys(slot, early), {})
  {
    s := AllRead(slot, c, waiting);
    for i := 0 to |early|
      invariant Reaches(slot, c, s, Waiting(waiting, 0), Keys(slot, early[..i]), {})
    {
      KeysSize(slot, early[..i]);
      KeysOfOneMore(slot, early, i);
      s := OnePublishes(slot, c, s, waiting, Keys(slot, early[..i]), {}, early[i], false, g, entropy);
    }
    assert early[..|early|] == early;
  }

  /** They go on waiting while `late` publish, each after a failed read. */
  lemma SlotOverflows(
    slot: Slot, c: nat, s: State, waiting: seq<Node>, published: set<Bytes32>, late: seq<Node>,
    g: GossipRecordContent, entropy: Entropy)
    returns (s': State)
    requires Reaches(slot, c, s, Waiting(waiting, 0), published, {}) && slot.max > 0
    requires slot.Exact() && AllTakePart(slot, late) && |waiting| < c
    ensures Reaches(slot, c, s', Waiting(waiting, 0), published + Keys(slot, late), Keys(slot, late))
  {
    s' := s;
    assert Keys(slot, late[..0]) == {};
    assert published + {} == published;
    for i := 0 to |late|
      invariant Reaches(slot, c, s', Waiting(waiting, 0), published + Keys(slot, late[..i]), Keys(slot, late[..i]))
    {
      KeysOfOneMore(slot, late, i);
      s' := OnePublishes(slot, c, s', waiting, published + Keys(slot, late[..i]), Keys(slot, late[..i]),
                         late[i], true, g, entropy);
      assert published + Keys(slot, late[..i]) + {slot.key(late[i])} == published + Keys(slot, late[..i + 1]);
    }
    assert late[..|late|] == late;
  }

  /** In the end those that wait publish, too. */
  lemma WaitingPublish(
    slot: Slot, c: nat, s: State, waiting: seq<Node>, published: set<Bytes32>, blind: set<Bytes32>,
    g: GossipRecordContent, entropy: Entropy)
    returns (s': State)
    requires Reaches(slot, c, s, Waiting(waiting, 0), published, blind) && slot.max > 0
    ensures Reaches(slot, c, s', map[], published + Keys(slot, waiting), blind)
  {
    s' := s;
    assert Keys(slot, waiting[..0]) == {};
    assert published + {} == published;
    for i := 0 to |waiting|
      invariant Reaches(slot, c, s', Waiting(waiting, i), published + Keys(slot, waiting[..i]), blind)
    {
      KeysOfOneMore(slot, waiting, i);
      s' := WaitingPublishes(slot, c, s', waiting, i, published + Keys(slot, waiting[..i]), blind, g, entropy);
      assert published + Keys(slot, waiting[..i]) + {slot.key(waiting[i])}
          == published + Keys(slot, waiting[..i + 1]);
    }
    assert waiting[..|waiting|] == waiting && Waiting(waiting, |waiting|) == map[];
  }

  /** The three phases together. */
  lemma AllPublish(
    slot: Slot, c: nat, waiting: seq<Node>, early: seq<Node>, late: seq<Node>, g: GossipRecordContent,
    entropy: Entropy)
    returns (s: State)
    requires slot.Exact() && slot.max >= 1 && |waiting| < c && |early| <= slot.max
    requires AllTakePart(slot, waiting) && AllTakePart(slot, early) && AllTakePart(slot, late)
    ensures Reachable(slot, c, s) && s.blind == Keys(slot, late)
    ensures slot.Published(s) == Keys(slot, waiting + early + late)
  {
    s := SlotFills(slot, c, waiting, early, g, entropy);
    s := SlotOverflows(slot, c, s, waiting, Keys(slot, early), late, g, entropy);
    s := WaitingPublish(slot, c, s, waiting, Keys(slot, early) + Keys(slot, late), Keys(slot, late), g, entropy);
    KeysOfConcat(slot, waiting, early);
    KeysOfConcat(slot, waiting + early, late);
  }

  lemma CrowdSuffix(slot: Slot, nodes: seq<Node>, n: nat)
    requires Crowd(slot, nodes) && n <= |nodes|
    ensures Crowd(slot, nodes[n..])
  {
    var rest := nodes[n..];
    forall i, j | 0 <= i < j < |rest| ensures slot.key(rest[i]) != slot.key(rest[j]) {
      assert rest[i] == nodes[n + i] && rest[j] == nodes[n + j];
    }
  }

  /** For every limit of at least 1, every `c` of at least 1 and every number of failed reads, enough
      participants have a run in which they all publish, only that many after a failed read. */
  lemma BoundIsReached(slot: Slot, c: nat, failed: nat, nodes: seq<Node>, g: GossipRecordContent, entropy: Entropy)
    returns (s: State)
    requires slot.Exact() && slot.max >= 1 && c >= 1
    requires Crowd(slot, nodes) && |nodes| == slot.max - 1 + c + failed
    ensures Reachable(slot, c, s)
    ensures |s.blind| == failed && |slot.Published(s)| == slot.max - 1 + c + failed
  {
    var waiting, early, late := nodes[..c - 1], nodes[c - 1..c - 1 + slot.max], nodes[c - 1 + slot.max..];
    s := AllPublish(slot, c, waiting, early, late, g, entropy);
    assert nodes == waiting + early + late;
    KeysSize(slot, nodes);
    CrowdSuffix(slot, nodes, c - 1 + slot.max);
    KeysSize(slot, late);
  }

  // ---------- the exact limit ----------

  /** With at most `c` nodes between read and put and at most `failed` nodes that took a failed read for
      an empty slot, never more than `limit` nodes have published. */
  ghost predicate NeverAbove(slot: Slot, c: nat, failed: nat, limit: int) {
    forall s | Reachable(slot, c, s) && |s.blind| <= failed :: |slot.Published(s)| <= limit
  }

  /** The exact limit: max - 1 + c, and one more for every failed read. */
  lemma LimitIsExact(
    slot: Slot, c: nat, failed: nat, limit: int, nodes: seq<Node>, g: GossipRecordContent, entropy: Entropy)
    requires slot.Valid() && slot.Exact() && slot.max >= 1 && c >= 1
    requires Crowd(slot, nodes) && |nodes| == slot.max - 1 + c + failed
    ensures NeverAbove(slot, c, failed, limit) <==> slot.max - 1 + c + failed <= limit
  {
    forall s | Reachable(slot, c, s) ensures |slot.Published(s)| <= slot.max - 1 + c + |s.blind| {
      var states: seq<State>, steps: seq<Step> :| IsRun(slot, states, steps, c) && states[|states| - 1] == s;
      CapacityHolds(slot, states, steps, c, |states| - 1);
      SubsetSize(slot.Published(s), slot.Committed(s));
    }
    var full := BoundIsReached(slot, c, failed, nodes, g, entropy);
  }

  /** So with enough participants the capacity limit is kept exactly when no failed read is taken for an
      empty slot; one is enough to break it. */
  lemma CapacityNeedsReads(
    slot: Slot, c: nat, failed: nat, nodes: seq<Node>, g: GossipRecordContent, entropy: Entropy)
    requires slot.Valid() && slot.Exact() && slot.max >= 1 && c >= 1
    requires Crowd(slot, nodes) && |nodes| == slot.max + c
    ensures NeverAbove(slot, c, failed, slot.max - 1 + c) <==> failed == 0
  {
    LimitIsExact(slot, c, 0, slot.max - 1 + c, nodes[..|nodes| - 1], g, entropy);
    var full := BoundIsReached(slot, c, 1, nodes, g, entropy);
  }

  /** Both on the slots of the DHT, for nodes of one group with the same limit and distinct keys. */
  lemma RealLimitIsExact(
    lib: Library, unixMinute: u64, group: Node, c: nat, failed: nat, limit: int, nodes: seq<Node>,
    g: GossipRecordContent, entropy: Entropy)
    requires lib.Laws() && group.maxBootstrapRecords >= 1 && c >= 1
    requires |nodes| == group.maxBootstrapRecords + c + failed
    requires forall n | n in nodes ::
      && n.topic == group.topic && n.rotation == group.rotation && n.initialSecretHash == group.initialSecretHash
      && n.maxBootstrapRecords == group.maxBootstrapRecords
    requires forall i, j | 0 <= i < j < |nodes| :: PubKey(lib, nodes[i]) != PubKey(lib, nodes[j])
    ensures var slot := RealSlot(lib, unixMinute, group);
      && (NeverAbove(slot, c, failed, limit) <==> slot.max - 1 + c + failed <= limit)
      && (NeverAbove(slot, c, failed, slot.max - 1 + c) <==> failed == 0)
  {
    var slot := RealSlot(lib, unixMinute, group);
    RealSlotsAreValid(lib, unixMinute, group);
    assert Crowd(slot, nodes);
    LimitIsExact(slot, c, failed, limit, nodes[..|nodes| - 1], g, entropy);
    CapacityNeedsReads(slot, c, failed, nodes[..slot.max + c], g, entropy);
  }
}
