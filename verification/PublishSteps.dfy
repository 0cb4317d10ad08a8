/** The publishing code takes the steps of the capacity protocol: what it puts, and when, is what the
    protocol says of its task, whatever other nodes do in between. */
module PublishSteps {
  import opened Wrappers
  import opened Bytes
  import opened Library
  import opened Record
  import opened RecordPublisher
  import opened SlotCapacity
  import opened BootstrapIteration
  import opened Bootstrap

  /** In every state in which task `id` holds `records` it decides, and in every state in which it is
      ready it puts: `put` if there is one, and else it is dropped at the decision. */
  ghost predicate DecidesAndPuts(
    slot: Slot, node: Node, id: nat, records: set<Record>, g: GossipRecordContent, entropy: Entropy,
    put: Option<Put>)
  {
    && (forall s: State | id in s.tasks && s.tasks[id] == Task(node, Holding(records)) ::
          Next(slot, s, Decide(id, g, entropy),
               if put.Some? then Set(s, id, node, Ready(g, entropy)) else s.(tasks := s.tasks - {id})))
    && (put.Some? ==>
          && put.value.item == slot.item(Post(node, g, entropy))
          && forall s: State | id in s.tasks && s.tasks[id] == Task(node, Ready(g, entropy)) ::
               Next(slot, s, PutItem(id, true),
                    s.(slot := s.slot + [Post(node, g, entropy)], tasks := s.tasks - {id})))
  }

  /** A participant can start a task at any time, one that is ready can put more than once, as a retried put
      does, and any can be given up. */
  lemma TasksComeAndGo(slot: Slot, s: State, id: nat, node: Node, g: GossipRecordContent, entropy: Entropy)
    ensures slot.member(node) && id !in s.tasks ==> Next(slot, s, Enqueue(id, node), Set(s, id, node, Queued))
    ensures id in s.tasks && s.tasks[id] == Task(node, Ready(g, entropy)) ==>
      Next(slot, s, PutItem(id, false), s.(slot := s.slot + [Post(node, g, entropy)]))
    ensures id in s.tasks ==> Next(slot, s, Abandon(id), s.(tasks := s.tasks - {id}))
  {
  }

  function GossipRecord(lib: Library, node: Node, unixMinute: u64, g: GossipRecordContent): Record {
    Sign(lib, node.topic, unixMinute, lib.encodeContent(g), node.signingKey)
  }

  lemma PublishDecidesAndPuts(
    lib: Library, unixMinute: u64, group: Node, node: Node, id: nat, g: GossipRecordContent,
    cached: Option<set<Record>>, fetch: Fetch, entropy: Entropy, course: Course, res: Result<()>, put: Option<Put>)
    requires lib.Laws() && RealSlot(lib, unixMinute, group).member(node)
    requires PublishOk(lib, node, GossipRecord(lib, node, unixMinute, g), cached, fetch, entropy, course, res, put)
    requires course != CutBeforePut && (cached.Some? || fetch.Answered?)
    ensures DecidesAndPuts(RealSlot(lib, unixMinute, group), node, id, Known(lib, node, unixMinute, cached, fetch),
                           g, entropy, put)
    ensures put.Some? ==> put.value.topic == group.topic && put.value.unixMinute == unixMinute
  {
    var record := GossipRecord(lib, node, unixMinute, g);
    assert |record.content| == GOSSIP_CONTENT_LENGTH;
    var slot := RealSlot(lib, unixMinute, group);
    assert slot.max == node.maxBootstrapRecords;
    if put.Some? {
      assert HonestItem(lib, node, unixMinute, g, entropy) == Ok(put.value.item);
    }
  }

  /** A publish that reads the slot itself: a queued task reads, decides and puts. One that is cut short
      before, or whose read fails, puts nothing; its task is abandoned. */
  lemma UncachedPublishTakesSteps(
    lib: Library, unixMinute: u64, group: Node, node: Node, id: nat, g: GossipRecordContent,
    fetch: Fetch, entropy: Entropy, course: Course, res: Result<()>, put: Option<Put>, s: State)
    requires lib.Laws() && RealSlot(lib, unixMinute, group).member(node)
    requires PublishOk(lib, node, GossipRecord(lib, node, unixMinute, g), None, fetch, entropy, course, res, put)
    requires id in s.tasks && s.tasks[id] == Task(node, Queued)
    requires fetch.Answered? ==> forall p | p in s.slot :: RealSlot(lib, unixMinute, group).item(p) in fetch.items
    ensures var slot := RealSlot(lib, unixMinute, group);
      if course == CutBeforePut || !fetch.Answered? then
        put.None? && Next(slot, s, Abandon(id), s.(tasks := s.tasks - {id}))
      else
        var records := Records(lib, node, unixMinute, fetch.items);
        && Next(slot, s, Read(id, fetch.items), Set(s, id, node, Holding(records)))
        && DecidesAndPuts(slot, node, id, records, g, entropy, put)
  {
    if course != CutBeforePut && fetch.Answered? {
      PublishDecidesAndPuts(lib, unixMinute, group, node, id, g, None, fetch, entropy, course, res, put);
    }
  }

  /** An attempt of the bootstrap loop with cached records: the loop's read of the slot, or its failed
      read, hands the task the records it decides on. */
  lemma CachedAttemptTakesSteps(
    lib: Library, group: Node, node: Node, config: Config, last: u64, t: Turn, it: Iteration, attempt: Attempt,
    id: nat, fetch: Fetch, entropy: Entropy, course: Course, res: Result<()>, put: Option<Put>, s: State)
    requires lib.Laws() && RealSlot(lib, it.unixMinute, group).member(node)
    requires IterationOk(lib, node, config, last, t, it) && attempt in it.attempts && attempt.cached.Some?
    requires PublishOk(lib, node, attempt.record, attempt.cached, fetch, entropy, course, res, put)
    requires id !in s.tasks
    requires t.later.Answered? ==>
      forall p | p in s.slot :: RealSlot(lib, it.unixMinute, group).item(p) in t.later.items
    ensures var slot := RealSlot(lib, it.unixMinute, group);
      var held := Set(s, id, node, Holding(attempt.cached.value));
      && (if t.later.Answered? then Next(slot, s, Prefetch(id, node, t.later.items), held)
          else Next(slot, s, BlindPrefetch(id, node), held.(blind := s.blind + {slot.key(node)})))
      && (if course == CutBeforePut then put.None?
          else DecidesAndPuts(slot, node, id, attempt.cached.value, EMPTY_CONTENT, entropy, put))
  {
    assert it.window[1] == it.unixMinute;
    assert attempt.cached.value == RecordsOrNone(lib, node, it.unixMinute, t.later);
    assert attempt.record == GossipRecord(lib, node, it.unixMinute, EMPTY_CONTENT);
    if course != CutBeforePut {
      PublishDecidesAndPuts(lib, it.unixMinute, group, node, id, EMPTY_CONTENT, attempt.cached, fetch, entropy,
                            course, res, put);
    }
  }
}
