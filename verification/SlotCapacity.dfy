/** The check-then-put protocol on one slot, over every interleaving of any number of nodes
    (src/crypto/record.rs, src/gossip/topic/bootstrap.rs). */
module SlotCapacity {
  import opened Wrappers
  import opened Bytes
  import opened Library
  import opened Record
  import opened RecordPublisher

  /** Where a publish task stands: it has still to read the slot, holds what it read, or has passed
      the capacity check and is about to put. */
  datatype Phase = Queued | Holding(records: set<Record>) | Ready(content: GossipRecordContent, entropy: Entropy)

  datatype Task = Task(owner: Node, phase: Phase)

  /** A completed put. */
  datatype Post = Post(author: Node, content: GossipRecordContent, entropy: Entropy)

  /** `blind` collects the nodes whose bootstrap read failed and was taken for an empty set. */
  datatype State = State(slot: seq<Post>, tasks: map<nat, Task>, blind: set<Bytes32>)

  /** What the protocol needs to know of a slot: its limit, who takes part and under which key, the
      item a participant puts, and what it reads from a DHT answer. */
  datatype Slot = Slot(
    max: nat,
    member: Node -> bool,
    key: Node -> Bytes32,
    item: Post -> Item,
    read: (Node, seq<Item>) -> set<Record>)
  {
    /** A participant reads at least one record per other participant whose put is in the answer. */
    ghost predicate Valid() {
      forall reader: Node, posts: seq<Post>, answer: seq<Item> ::
        member(reader) && (forall p | p in posts :: member(p.author)) && Covers(answer, posts) ==>
        |Authors(posts) - {key(reader)}| <= |read(reader, answer)|
    }

    /** From the completed puts alone a participant reads at most one record per publisher. */
    ghost predicate Exact() {
      forall reader: Node, posts: seq<Post> ::
        member(reader) && (forall p | p in posts :: member(p.author)) ==>
        |read(reader, Items(posts))| <= |Authors(posts)|
    }

    function Items(posts: seq<Post>): seq<Item> {
      seq(|posts|, i requires 0 <= i < |posts| => item(posts[i]))
    }

    /** The DHT answer contains every completed put; anything else may surround them. */
    predicate Covers(answer: seq<Item>, posts: seq<Post>) {
      forall p | p in posts :: item(p) in answer
    }

    function Authors(posts: seq<Post>): set<Bytes32> {
      set p | p in posts :: key(p.author)
    }

    function Published(s: State): set<Bytes32> { Authors(s.slot) }

    /** Nodes between their read of the slot and the end of their put. */
    function InFlight(s: State): set<Bytes32> {
      set id | id in s.tasks && s.tasks[id].phase != Queued :: key(s.tasks[id].owner)
    }

    /** Nodes that have published or are about to. */
    function Committed(s: State): set<Bytes32> {
      Published(s) + set id | id in s.tasks && s.tasks[id].phase.Ready? :: key(s.tasks[id].owner)
    }

    /** Nodes whose task has passed the capacity check, or will. */
    function Eligible(s: State): set<Bytes32> {
      set id | id in s.tasks && WillPut(s.tasks[id].phase) :: key(s.tasks[id].owner)
    }

    predicate WillPut(phase: Phase) {
      match phase
      case Queued => false
      case Holding(records) => |records| < max
      case Ready(_, _) => true
    }
  }

  datatype Step =
    // A startup or periodic publish, which will read the slot itself.
    | Enqueue(id: nat, owner: Node)
    | Read(id: nat, answer: seq<Item>)
    // The bootstrap loop reads the slot and hands the result to a later publish.
    | Prefetch(id: nat, owner: Node, answer: seq<Item>)
    // The same when the read fails.
    | BlindPrefetch(id: nat, owner: Node)
    | Decide(id: nat, content: GossipRecordContent, entropy: Entropy)
    // A put reaches the DHT; `last` unless it is retried.
    | PutItem(id: nat, last: bool)
    // Cancelled, failed, or dropped because the cached set was not used.
    | Abandon(id: nat)

  const INIT := State([], map[], {})

  function Set(s: State, id: nat, owner: Node, phase: Phase): State {
    s.(tasks := s.tasks[id := Task(owner, phase)])
  }

  ghost predicate Next(slot: Slot, s: State, step: Step, s': State) {
    match step
    case Enqueue(id, owner) =>
      && id !in s.tasks && slot.member(owner)
      && s' == s.(tasks := s.tasks[id := Task(owner, Queued)])
    case Read(id, answer) =>
      && id in s.tasks && s.tasks[id].phase == Queued && slot.Covers(answer, s.slot)
      && var owner := s.tasks[id].owner;
         s' == s.(tasks := s.tasks[id := Task(owner, Holding(slot.read(owner, answer)))])
    case Prefetch(id, owner, answer) =>
      && id !in s.tasks && slot.member(owner) && slot.Covers(answer, s.slot)
      && s' == s.(tasks := s.tasks[id := Task(owner, Holding(slot.read(owner, answer)))])
    case BlindPrefetch(id, owner) =>
      && id !in s.tasks && slot.member(owner)
      && s' == s.(tasks := s.tasks[id := Task(owner, Holding({}))], blind := s.blind + {slot.key(owner)})
    case Decide(id, content, entropy) =>
      && id in s.tasks && s.tasks[id].phase.Holding?
      && s' == s.(tasks :=
           if |s.tasks[id].phase.records| < slot.max
           then s.tasks[id := s.tasks[id].(phase := Ready(content, entropy))]
           else s.tasks - {id})
    case PutItem(id, last) =>
      && id in s.tasks && s.tasks[id].phase.Ready?
      && s' == s.(slot := s.slot + [Post(s.tasks[id].owner, s.tasks[id].phase.content, s.tasks[id].phase.entropy)],
                  tasks := if last then s.tasks - {id} else s.tasks)
    case Abandon(id) =>
      id in s.tasks && s' == s.(tasks := s.tasks - {id})
  }

  ghost predicate Linked(slot: Slot, states: seq<State>, steps: seq<Step>, i: nat)
    requires |states| == |steps| + 1 && i < |steps|
  {
    Next(slot, states[i], steps[i], states[i + 1])
  }

  /** A run: states linked by steps, from the empty slot, with never more than `c` nodes between
      their read and the end of their put. */
  ghost predicate IsRun(slot: Slot, states: seq<State>, steps: seq<Step>, c: nat) {
    && |states| == |steps| + 1 && states[0] == INIT
    && (forall i | 0 <= i < |steps| :: Linked(slot, states, steps, i))
    && (forall i | 0 <= i < |states| :: |slot.InFlight(states[i])| <= c)
  }

  ghost predicate Members(slot: Slot, s: State) {
    && (forall id | id in s.tasks :: slot.member(s.tasks[id].owner))
    && (forall p | p in s.slot :: slot.member(p.author))
  }

  ghost predicate Bounded(slot: Slot, s: State, c: nat) {
    if slot.max == 0 then s.slot == [] && slot.Eligible(s) == {}
    else |slot.Published(s) + slot.Eligible(s) - s.blind| <= slot.max - 1 + c
  }

  /** A task that was not going to put is set to `t`. */
  lemma EligibleAfterSet(slot: Slot, s: State, s': State, id: nat, t: Task)
    requires s'.tasks == s.tasks[id := t]
    requires id in s.tasks ==>
      s.tasks[id].owner == t.owner && (slot.WillPut(s.tasks[id].phase) ==> slot.WillPut(t.phase))
    ensures slot.Eligible(s') == slot.Eligible(s) + if slot.WillPut(t.phase) then {slot.key(t.owner)} else {}
  {
    forall k | k in slot.Eligible(s) ensures k in slot.Eligible(s') {
      var i :| i in s.tasks && slot.WillPut(s.tasks[i].phase) && slot.key(s.tasks[i].owner) == k;
      assert i in s'.tasks;
    }
    if slot.WillPut(t.phase) {
      assert s'.tasks[id] == t;
    }
  }

  lemma EligibleAfterRemove(slot: Slot, s: State, s': State, id: nat)
    requires s'.tasks == s.tasks - {id}
    ensures slot.Eligible(s') <= slot.Eligible(s)
  {
  }

  lemma PublishedAfterPut(slot: Slot, s: State, s': State, p: Post)
    requires s'.slot == s.slot + [p]
    ensures slot.Published(s') == slot.Published(s) + {slot.key(p.author)}
  {
    assert s'.slot[|s.slot|] == p;
    forall q | q in s.slot ensures q in s'.slot {
    }
  }

  lemma EligibleAreInFlight(slot: Slot, s: State)
    ensures slot.Eligible(s) <= slot.InFlight(s)
  {
  }

  /** Shrinking the set of publishers and candidates keeps the bound. */
  lemma ShrinkKeepsBound(slot: Slot, s: State, s': State, c: nat)
    requires Bounded(slot, s, c)
    requires slot.Published(s') + slot.Eligible(s') - s'.blind <= slot.Published(s) + slot.Eligible(s) - s.blind
    requires slot.max == 0 ==> s'.slot == s.slot && slot.Eligible(s') <= slot.Eligible(s)
    ensures Bounded(slot, s', c)
  {
    SubsetSize(slot.Published(s') + slot.Eligible(s') - s'.blind, slot.Published(s) + slot.Eligible(s) - s.blind);
  }

  lemma UnionBound<T>(published: set<T>, eligible: set<T>, inFlight: set<T>, blind: set<T>)
    requires eligible <= inFlight
    ensures |published + eligible - blind| <= |published| + |inFlight|
  {
    SubsetSize(eligible, inFlight);
    SubsetSize(published + eligible - blind, published + eligible);
  }

  /** Giving a task the records `records` keeps the bound if they number at least the other publishers. */
  lemma HoldingKeepsBound(slot: Slot, s: State, s': State, id: nat, owner: Node, records: set<Record>, c: nat)
    requires Bounded(slot, s, c) && |slot.InFlight(s')| <= c
    requires s' == s.(tasks := s.tasks[id := Task(owner, Holding(records))])
    requires id !in s.tasks || s.tasks[id] == Task(owner, Queued)
    requires |slot.Published(s) - {slot.key(owner)}| <= |records|
    ensures Bounded(slot, s', c)
  {
    var k := slot.key(owner);
    var published := slot.Published(s);
    assert slot.Published(s') == published;
    EligibleAfterSet(slot, s, s', id, Task(owner, Holding(records)));
    if |records| >= slot.max || k in published {
      ShrinkKeepsBound(slot, s, s', c);
    } else {
      assert published - {k} == published;
      EligibleAreInFlight(slot, s');
      UnionBound(published, slot.Eligible(s'), slot.InFlight(s'), s'.blind);
    }
  }

  lemma ReadKeepsBound(slot: Slot, s: State, s': State, id: nat, owner: Node, answer: seq<Item>, c: nat)
    requires slot.Valid() && Members(slot, s) && Bounded(slot, s, c) && |slot.InFlight(s')| <= c
    requires slot.member(owner) && slot.Covers(answer, s.slot)
    requires id !in s.tasks || s.tasks[id] == Task(owner, Queued)
    requires s' == s.(tasks := s.tasks[id := Task(owner, Holding(slot.read(owner, answer)))])
    ensures Bounded(slot, s', c)
  {
    assert |slot.Authors(s.slot) - {slot.key(owner)}| <= |slot.read(owner, answer)|;
    HoldingKeepsBound(slot, s, s', id, owner, slot.read(owner, answer), c);
  }

  lemma PutKeepsBound(slot: Slot, s: State, s': State, id: nat, last: bool, c: nat)
    requires Bounded(slot, s, c) && Next(slot, s, PutItem(id, last), s')
    ensures Bounded(slot, s', c)
  {
    assert slot.WillPut(s.tasks[id].phase);
    assert slot.key(s.tasks[id].owner) in slot.Eligible(s);
    PublishedAfterPut(slot, s, s', Post(s.tasks[id].owner, s.tasks[id].phase.content, s.tasks[id].phase.entropy));
    EligibleAfterRemove(slot, s, s.(tasks := s.tasks - {id}), id);
    ShrinkKeepsBound(slot, s, s', c);
  }

  lemma StepKeepsMembers(slot: Slot, s: State, step: Step, s': State)
    requires Members(slot, s) && Next(slot, s, step, s')
    ensures Members(slot, s')
  {
  }

  lemma StepKeepsBound(slot: Slot, s: State, step: Step, s': State, c: nat)
    requires slot.Valid() && Members(slot, s) && Bounded(slot, s, c)
    requires Next(slot, s, step, s') && |slot.InFlight(s')| <= c
    ensures Bounded(slot, s', c)
  {
    match step {
      case Enqueue(id, owner) =>
        EligibleAfterSet(slot, s, s', id, Task(owner, Queued));
        ShrinkKeepsBound(slot, s, s', c);
      case Read(id, answer) =>
        ReadKeepsBound(slot, s, s', id, s.tasks[id].owner, answer, c);
      case Prefetch(id, owner, answer) =>
        ReadKeepsBound(slot, s, s', id, owner, answer, c);
      case BlindPrefetch(id, owner) =>
        EligibleAfterSet(slot, s, s', id, Task(owner, Holding({})));
        ShrinkKeepsBound(slot, s, s', c);
      case Decide(id, content, entropy) =>
        if slot.WillPut(s.tasks[id].phase) {
          EligibleAfterSet(slot, s, s', id, s.tasks[id].(phase := Ready(content, entropy)));
        } else {
          EligibleAfterRemove(slot, s, s', id);
        }
        ShrinkKeepsBound(slot, s, s', c);
      case PutItem(id, last) =>
        PutKeepsBound(slot, s, s', id, last, c);
      case Abandon(id) =>
        EligibleAfterRemove(slot, s, s', id);
        ShrinkKeepsBound(slot, s, s', c);
    }
  }

  ghost predicate Kept(slot: Slot, s: State, c: nat) {
    Members(slot, s) && Bounded(slot, s, c)
  }

  lemma InitKept(slot: Slot, c: nat)
    ensures Kept(slot, INIT, c)
  {
    assert slot.Published(INIT) == {} == slot.Eligible(INIT);
    assert slot.Published(INIT) + slot.Eligible(INIT) - INIT.blind == {};
  }

  lemma StepOfRun(slot: Slot, states: seq<State>, steps: seq<Step>, c: nat, n: nat)
    requires slot.Valid() && IsRun(slot, states, steps, c) && n < |steps|
    requires Kept(slot, states[n], c)
    ensures Kept(slot, states[n + 1], c)
  {
    var s, s' := states[n], states[n + 1];
    assert Linked(slot, states, steps, n);
    assert |slot.InFlight(s')| <= c;
    StepKeepsMembers(slot, s, steps[n], s');
    StepKeepsBound(slot, s, steps[n], s', c);
  }

  lemma RunKeepsBound(slot: Slot, states: seq<State>, steps: seq<Step>, c: nat, n: nat)
    requires slot.Valid() && IsRun(slot, states, steps, c) && n < |states|
    ensures Kept(slot, states[n], c)
  {
    InitKept(slot, c);
    for i := 0 to n
      invariant Kept(slot, states[i], c)
    {
      StepOfRun(slot, states, steps, c, i);
    }
  }

  /** Who counts: the authors of completed puts, with them those about to put, and between read and put
      whoever holds what it read or is about to put. */
  lemma WhoCounts(slot: Slot, s: State, k: Bytes32)
    ensures k in slot.Published(s) <==> exists p :: p in s.slot && slot.key(p.author) == k
    ensures k in slot.Committed(s) <==>
      || (exists p :: p in s.slot && slot.key(p.author) == k)
      || (exists id :: id in s.tasks && slot.key(s.tasks[id].owner) == k && s.tasks[id].phase.Ready?)
    ensures k in slot.InFlight(s) <==> exists id ::
      && id in s.tasks && slot.key(s.tasks[id].owner) == k
      && (s.tasks[id].phase.Holding? || s.tasks[id].phase.Ready?)
  {
  }

  /** In every run in which never more than `c` nodes are between read and put, the nodes that have
      published or are about to, other than those that took a failed read for an empty slot, number
      at most max - 1 + c. If no read fed to a cache failed this bounds all of them, and with c = 1
      the bound is max. With max = 0 nothing is ever put, whatever reads failed. */
  lemma CapacityHolds(slot: Slot, states: seq<State>, steps: seq<Step>, c: nat, n: nat)
    requires slot.Valid() && IsRun(slot, states, steps, c) && n < |states|
    ensures slot.max >= 1 ==> |slot.Committed(states[n]) - states[n].blind| <= slot.max - 1 + c
    ensures slot.max >= 1 ==> |slot.Committed(states[n])| <= slot.max - 1 + c + |states[n].blind|
    ensures slot.max == 0 ==> states[n].slot == [] && slot.Committed(states[n]) == {}
  {
    var s := states[n];
    RunKeepsBound(slot, states, steps, c, n);
    var committed := slot.Committed(s);
    forall k | k in committed ensures k in slot.Published(s) + slot.Eligible(s) {
      if k !in slot.Published(s) {
        var id :| id in s.tasks && s.tasks[id].phase.Ready? && slot.key(s.tasks[id].owner) == k;
        assert slot.WillPut(s.tasks[id].phase);
      }
    }
    SubsetSize(committed - s.blind, slot.Published(s) + slot.Eligible(s) - s.blind);
    SubsetSize(committed, (committed - s.blind) + s.blind);
  }

  // ---------- the slots of the DHT ----------

  /** The slot of a minute, for the nodes of a group that use the same limit. */
  function RealSlot(lib: Library, unixMinute: u64, group: Node): Slot {
    Slot(
      group.maxBootstrapRecords,
      (node: Node) => SameGroup(node, group) && node.maxBootstrapRecords == group.maxBootstrapRecords,
      (node: Node) => PubKey(lib, node),
      (p: Post) =>
        (match HonestItem(lib, p.author, unixMinute, p.content, p.entropy)
         case Ok(item) => item
         case Err(_) => Item([], 0)),
      (node: Node, answer: seq<Item>) => Records(lib, node, unixMinute, answer))
  }

  /** `get_records` counts the other publishers, whatever surrounds their items. */
  lemma ReadCountsOthers(lib: Library, unixMinute: u64, group: Node, reader: Node, posts: seq<Post>, answer: seq<Item>)
    requires lib.Laws()
    requires var slot := RealSlot(lib, unixMinute, group);
      && slot.member(reader)
      && (forall p | p in posts :: slot.member(p.author))
      && (forall p | p in posts :: slot.item(p) in answer)
    ensures var slot := RealSlot(lib, unixMinute, group);
      |slot.Authors(posts) - {PubKey(lib, reader)}| <= |Records(lib, reader, unixMinute, answer)|
  {
    var slot := RealSlot(lib, unixMinute, group);
    var v := Entries(lib, reader, unixMinute, answer);
    forall k | k in slot.Authors(posts) - {PubKey(lib, reader)} ensures k in Publishers(v) {
      var p :| p in posts && slot.key(p.author) == k;
      assert slot.member(p.author) && slot.item(p) in answer;
      HonestItemAdmitted(lib, p.author, reader, unixMinute, p.content, p.entropy);
      var i :| 0 <= i < |answer| && answer[i] == slot.item(p);
      assert v[i].record.Some? && v[i].record.value.pubKey == k;
    }
    SubsetSize(slot.Authors(posts) - {PubKey(lib, reader)}, Publishers(v));
    OneRecordPerPublisher(v);
  }

  lemma AdmittedFromAuthor(lib: Library, unixMinute: u64, group: Node, reader: Node, p: Post)
    requires lib.Laws()
    requires RealSlot(lib, unixMinute, group).member(reader) && RealSlot(lib, unixMinute, group).member(p.author)
    ensures var admitted := Admit(lib, reader, unixMinute, RealSlot(lib, unixMinute, group).item(p));
      admitted.Some? ==> admitted.value.pubKey == PubKey(lib, p.author)
  {
    HonestItemIsRead(lib, p.author, reader, unixMinute, p.content, p.entropy);
  }

  /** An answer of nothing but the completed puts holds records of their authors only. */
  lemma ReadCountsOnlyAuthors(lib: Library, unixMinute: u64, group: Node, reader: Node, posts: seq<Post>)
    requires lib.Laws()
    requires var slot := RealSlot(lib, unixMinute, group);
      slot.member(reader) && (forall p | p in posts :: slot.member(p.author))
    ensures var slot := RealSlot(lib, unixMinute, group);
      |Records(lib, reader, unixMinute, slot.Items(posts))| <= |slot.Authors(posts)|
  {
    var slot := RealSlot(lib, unixMinute, group);
    var v := Entries(lib, reader, unixMinute, slot.Items(posts));
    forall k | k in Publishers(v) ensures k in slot.Authors(posts) {
      var i :| 0 <= i < |v| && v[i].record.Some? && v[i].record.value.pubKey == k;
      assert posts[i] in posts;
      AdmittedFromAuthor(lib, unixMinute, group, reader, posts[i]);
    }
    OneRecordPerPublisher(v);
    SubsetSize(Publishers(v), slot.Authors(posts));
  }

  /** So every slot of the DHT obeys the protocol's assumption, and its reads count no more than the
      publishers; the capacity results, and the runs that reach the bound, are about such slots. */
  lemma RealSlotsAreValid(lib: Library, unixMinute: u64, group: Node)
    requires lib.Laws()
    ensures RealSlot(lib, unixMinute, group).Valid()
    ensures RealSlot(lib, unixMinute, group).Exact()
  {
    var slot := RealSlot(lib, unixMinute, group);
    forall reader: Node, posts: seq<Post>, answer: seq<Item>
      | slot.member(reader) && (forall p | p in posts :: slot.member(p.author)) && slot.Covers(answer, posts)
      ensures |slot.Authors(posts) - {slot.key(reader)}| <= |slot.read(reader, answer)|
    {
      ReadCountsOthers(lib, unixMinute, group, reader, posts, answer);
    }
    forall reader: Node, posts: seq<Post> | slot.member(reader) && forall p | p in posts :: slot.member(p.author)
      ensures |slot.read(reader, slot.Items(posts))| <= |slot.Authors(posts)|
    {
      ReadCountsOnlyAuthors(lib, unixMinute, group, reader, posts);
    }
  }
}
