/** When a topic is shut down: reference counts, keep-alive handles and the cancel token
    (src/gossip/topic/topic.rs). */
module TopicLifetime {
  import opened Wrappers

  /** A gossip sender or receiver, or a request for one that is still in flight. Those handed to the
      user share a `Topic` on the heap; those of the bootstrap loop and the workers do not. */
  datatype Handle = Handle(user: bool, keepAlive: Option<nat>)

  datatype State = State(
    topics: set<nat>,            // `Topic` values in the user's hands
    cells: map<nat, nat>,        // shared `Topic`s on the heap, with their strong counts
    handles: map<nat, Handle>,
    upgrades: set<nat>,          // weak references upgraded for the moment
    strong: nat,                 // strong count of the topic actor's handle
    actorAlive: bool,
    cancelled: bool,
    faults: set<Fault>)

  /** What cancels the token while the topic is in use. */
  datatype Fault = BootstrapFailed | WorkerStartFailed | StreamEnded

  datatype Op =
    | CloneTopic(topic: nat, clone: nat)
    | DropTopic(topic: nat)
    | GetHandle(topic: nat, cell: nat, handle: nat)
    | CloneHandle(handle: nat, clone: nat)
    | DropHandle(handle: nat)
    | InternalHandle(handle: nat)
    | Upgrade(upgrade: nat)
    | EndUpgrade(upgrade: nat)
    | Fail(fault: Fault)

  /** Right after `Topic::new`: one `Topic`. */
  const INIT := State({0}, map[], map[], {}, 1, true, false, {})

  /** One strong reference to the actor's handle goes; the last one drops the actor, which cancels. */
  function Release(s: State): State {
    if s.strong <= 1 then s.(strong := 0, actorAlive := false, cancelled := true)
    else s.(strong := s.strong - 1)
  }

  /** The strong count of a shared `Topic` goes down; the last share drops the `Topic`. */
  function ReleaseCell(s: State, cell: nat): State {
    if cell !in s.cells then s
    else if s.cells[cell] <= 1 then Release(s.(cells := s.cells - {cell}))
    else s.(cells := s.cells[cell := s.cells[cell] - 1])
  }

  /** Operations need what they work on, and fresh names for what they create. */
  predicate Enabled(s: State, op: Op) {
    match op
    case CloneTopic(topic, clone) => topic in s.topics && clone !in s.topics
    case DropTopic(topic) => topic in s.topics
    case GetHandle(topic, cell, handle) => topic in s.topics && cell !in s.cells && handle !in s.handles
    case CloneHandle(handle, clone) => handle in s.handles && clone !in s.handles
    case DropHandle(handle) => handle in s.handles
    case InternalHandle(handle) => handle !in s.handles
    case Upgrade(upgrade) => upgrade !in s.upgrades
    case EndUpgrade(upgrade) => upgrade in s.upgrades
    case Fail(_) => true
  }

  function Sharers(handles: map<nat, Handle>, cell: nat): set<nat> {
    set h | h in handles && handles[h].keepAlive == Some(cell)
  }

  ghost predicate HandleOk(handle: Handle, cells: map<nat, nat>) {
    if handle.user then handle.keepAlive.Some? && handle.keepAlive.value in cells else handle.keepAlive.None?
  }

  ghost predicate CellOk(handles: map<nat, Handle>, cell: nat, count: nat) {
    count > 0 && count == |Sharers(handles, cell)|
  }

  /** Every shared `Topic` is counted by the handles that share it. */
  ghost predicate SharesOk(handles: map<nat, Handle>, cells: map<nat, nat>) {
    && (forall h | h in handles :: HandleOk(handles[h], cells))
    && (forall c | c in cells :: CellOk(handles, c, cells[c]))
  }

  /** The actor lives as long as somebody holds it. */
  ghost predicate StrongOk(s: State) {
    && s.strong == |s.topics| + |s.cells| + |s.upgrades|
    && (s.actorAlive <==> s.strong > 0)
  }

  /** The token is cancelled exactly if nobody holds the actor or something went wrong. */
  ghost predicate TokenOk(s: State) {
    s.cancelled <==> s.strong == 0 || s.faults != {}
  }

  ghost predicate Inv(s: State) {
    SharesOk(s.handles, s.cells) && StrongOk(s) && TokenOk(s)
  }

  function Apply(s: State, op: Op): State
    requires Enabled(s, op)
  {
    match op
    case CloneTopic(_, clone) => s.(topics := s.topics + {clone}, strong := s.strong + 1)
    case DropTopic(topic) => Release(s.(topics := s.topics - {topic}))
    case GetHandle(_, cell, handle) =>
      s.(strong := s.strong + 1, cells := s.cells[cell := 1],
         handles := s.handles[handle := Handle(true, Some(cell))])
    case CloneHandle(handle, clone) =>
      var s1 := s.(handles := s.handles[clone := s.handles[handle]]);
      (match s.handles[handle].keepAlive
       case None => s1
       case Some(cell) => if cell in s.cells then s1.(cells := s.cells[cell := s.cells[cell] + 1]) else s1)
    case DropHandle(handle) =>
      var s1 := s.(handles := s.handles - {handle});
      (match s.handles[handle].keepAlive
       case None => s1
       case Some(cell) => ReleaseCell(s1, cell))
    case InternalHandle(handle) => s.(handles := s.handles[handle := Handle(false, None)])
    case Upgrade(upgrade) => if s.strong == 0 then s else s.(upgrades := s.upgrades + {upgrade}, strong := s.strong + 1)
    case EndUpgrade(upgrade) => Release(s.(upgrades := s.upgrades - {upgrade}))
    case Fail(fault) => s.(cancelled := true, faults := s.faults + {fault})
  }

  ghost predicate Linked(states: seq<State>, ops: seq<Op>, i: nat)
    requires |states| == |ops| + 1 && i < |ops|
  {
    Enabled(states[i], ops[i]) && states[i + 1] == Apply(states[i], ops[i])
  }

  ghost predicate IsRun(states: seq<State>, ops: seq<Op>) {
    && |states| == |ops| + 1 && states[0] == INIT
    && forall i | 0 <= i < |ops| :: Linked(states, ops, i)
  }

  // ---------- the counters are right ----------

  lemma ShareNewCell(handles: map<nat, Handle>, cells: map<nat, nat>, h: nat, cell: nat)
    requires SharesOk(handles, cells) && h !in handles && cell !in cells
    ensures SharesOk(handles[h := Handle(true, Some(cell))], cells[cell := 1])
  {
    var handles', cells' := handles[h := Handle(true, Some(cell))], cells[cell := 1];
    forall c | c in cells' ensures CellOk(handles', c, cells'[c]) {
      if c == cell {
        forall k | k in handles ensures handles[k].keepAlive != Some(cell) {
          assert HandleOk(handles[k], cells);
        }
        assert Sharers(handles', c) == {h};
      } else {
        assert CellOk(handles, c, cells[c]);
        assert Sharers(handles', c) == Sharers(handles, c);
      }
    }
    forall k | k in handles' ensures HandleOk(handles'[k], cells') {
      assert k in handles ==> HandleOk(handles[k], cells);
    }
  }

  lemma SharersOfMore(handles: map<nat, Handle>, h: nat, handle: Handle, cell: nat)
    requires h !in handles
    ensures Sharers(handles[h := handle], cell)
         == Sharers(handles, cell) + if handle.keepAlive == Some(cell) then {h} else {}
    ensures h !in Sharers(handles, cell)
  {
  }

  lemma ShareOnceMore(handles: map<nat, Handle>, cells: map<nat, nat>, clone: nat, cell: nat)
    requires SharesOk(handles, cells) && clone !in handles && cell in cells
    ensures SharesOk(handles[clone := Handle(true, Some(cell))], cells[cell := cells[cell] + 1])
  {
    var handles', cells' := handles[clone := Handle(true, Some(cell))], cells[cell := cells[cell] + 1];
    forall c | c in cells' ensures CellOk(handles', c, cells'[c]) {
      assert CellOk(handles, c, cells[c]);
      SharersOfMore(handles, clone, Handle(true, Some(cell)), c);
    }
    forall k | k in handles' ensures HandleOk(handles'[k], cells') {
      assert k in handles ==> HandleOk(handles[k], cells);
    }
  }

  lemma ShareOnceLess(handles: map<nat, Handle>, cells: map<nat, nat>, h: nat, cell: nat)
    requires SharesOk(handles, cells) && h in handles && handles[h] == Handle(true, Some(cell)) && cell in cells
    ensures cells[cell] == 1 ==> SharesOk(handles - {h}, cells - {cell})
    ensures cells[cell] > 1 ==> SharesOk(handles - {h}, cells[cell := cells[cell] - 1])
  {
    var handles' := handles - {h};
    var cells' := if cells[cell] == 1 then cells - {cell} else cells[cell := cells[cell] - 1];
    assert CellOk(handles, cell, cells[cell]);
    assert h in Sharers(handles, cell);
    var left := Sharers(handles', cell);
    assert left == Sharers(handles, cell) - {h};
    forall c | c in cells' ensures CellOk(handles', c, cells'[c]) {
      assert CellOk(handles, c, cells[c]);
      if c != cell {
        assert Sharers(handles', c) == Sharers(handles, c);
      }
    }
    forall k | k in handles' ensures HandleOk(handles'[k], cells') {
      assert HandleOk(handles[k], cells);
      assert handles[k].keepAlive == Some(cell) ==> k in left;
      assert cells[cell] == 1 ==> |left| == 0;
    }
  }

  lemma InternalHandleGoes(handles: map<nat, Handle>, cells: map<nat, nat>, h: nat)
    requires SharesOk(handles, cells) && h in handles && handles[h].keepAlive == None
    ensures SharesOk(handles - {h}, cells)
  {
    forall c | c in cells ensures CellOk(handles - {h}, c, cells[c]) {
      assert CellOk(handles, c, cells[c]);
      assert Sharers(handles - {h}, c) == Sharers(handles, c);
    }
    forall k | k in handles - {h} ensures HandleOk((handles - {h})[k], cells) {
      assert HandleOk(handles[k], cells);
    }
  }

  lemma SharesStay(handles: map<nat, Handle>, cells: map<nat, nat>, h: nat)
    requires SharesOk(handles, cells) && h !in handles
    ensures SharesOk(handles[h := Handle(false, None)], cells)
  {
    var handles' := handles[h := Handle(false, None)];
    forall c | c in cells ensures CellOk(handles', c, cells[c]) {
      assert CellOk(handles, c, cells[c]);
      assert Sharers(handles', c) == Sharers(handles, c);
    }
    forall k | k in handles' ensures HandleOk(handles'[k], cells) {
      assert k in handles ==> HandleOk(handles[k], cells);
    }
  }

  lemma SizesAfter(cells: map<nat, nat>, cell: nat, n: nat)
    ensures |cells[cell := n]| == if cell in cells then |cells| else |cells| + 1
    ensures cell in cells ==> |cells - {cell}| == |cells| - 1
  {
    assert cells[cell := n].Keys == cells.Keys + {cell};
    assert (cells - {cell}).Keys == cells.Keys - {cell};
  }

  /** A handle either shares a counted `Topic`, so that the actor is held, or is internal. */
  lemma HandleIsCounted(s: State, h: nat)
    requires Inv(s) && h in s.handles
    ensures s.handles[h] == Handle(false, None)
      || (s.handles[h].user && s.handles[h].keepAlive.Some? && s.handles[h].keepAlive.value in s.cells
          && s.cells[s.handles[h].keepAlive.value] > 0 && s.strong > 0)
  {
    assert HandleOk(s.handles[h], s.cells);
    if s.handles[h].user {
      assert CellOk(s.handles, s.handles[h].keepAlive.value, s.cells[s.handles[h].keepAlive.value]);
      assert |s.cells| > 0;
    }
  }

  lemma StepKeepsShares(s: State, op: Op)
    requires Inv(s) && Enabled(s, op)
    ensures SharesOk(Apply(s, op).handles, Apply(s, op).cells)
  {
    match op {
      case GetHandle(_, cell, handle) => ShareNewCell(s.handles, s.cells, handle, cell);
      case CloneHandle(handle, clone) =>
        HandleIsCounted(s, handle);
        if s.handles[handle].user {
          ShareOnceMore(s.handles, s.cells, clone, s.handles[handle].keepAlive.value);
        } else {
          SharesStay(s.handles, s.cells, clone);
        }
      case DropHandle(handle) =>
        HandleIsCounted(s, handle);
        if s.handles[handle].user {
          ShareOnceLess(s.handles, s.cells, handle, s.handles[handle].keepAlive.value);
        } else {
          InternalHandleGoes(s.handles, s.cells, handle);
        }
      case InternalHandle(handle) => SharesStay(s.handles, s.cells, handle);
      case _ =>
    }
  }

  /** The facts about the counters, for parts of states. */
  ghost predicate Counted(s: State, topics: nat, cells: nat, upgrades: nat) {
    s.strong == topics + cells + upgrades && (s.actorAlive <==> s.strong > 0) && TokenOk(s)
  }

  lemma ReleaseKeepsCount(s: State, topics: nat, cells: nat, upgrades: nat)
    requires Counted(s, topics, cells, upgrades) && s.strong > 0
    ensures var r := Release(s);
      && r.strong == s.strong - 1 && (r.actorAlive <==> r.strong > 0) && TokenOk(r)
      && r.topics == s.topics && r.cells == s.cells && r.upgrades == s.upgrades && r.handles == s.handles
  {
  }

  lemma StepKeepsStrong(s: State, op: Op)
    requires Inv(s) && Enabled(s, op)
    ensures StrongOk(Apply(s, op)) && TokenOk(Apply(s, op))
  {
    match op {
      case DropTopic(topic) =>
        assert |s.topics| > 0;
        ReleaseKeepsCount(s.(topics := s.topics - {topic}), |s.topics|, |s.cells|, |s.upgrades|);
      case EndUpgrade(upgrade) =>
        assert |s.upgrades| > 0;
        ReleaseKeepsCount(s.(upgrades := s.upgrades - {upgrade}), |s.topics|, |s.cells|, |s.upgrades|);
      case DropHandle(handle) => DropHandleKeepsStrong(s, handle);
      case GetHandle(_, cell, handle) => SizesAfter(s.cells, cell, 1);
      case CloneHandle(handle, clone) => CloneHandleKeepsStrong(s, handle, clone);
      case _ =>
    }
  }

  lemma CloneHandleKeepsStrong(s: State, handle: nat, clone: nat)
    requires Inv(s) && Enabled(s, CloneHandle(handle, clone))
    ensures StrongOk(Apply(s, CloneHandle(handle, clone))) && TokenOk(Apply(s, CloneHandle(handle, clone)))
  {
    HandleIsCounted(s, handle);
    if s.handles[handle].user {
      var cell := s.handles[handle].keepAlive.value;
      SizesAfter(s.cells, cell, s.cells[cell] + 1);
    }
  }

  lemma DropHandleKeepsStrong(s: State, handle: nat)
    requires Inv(s) && Enabled(s, DropHandle(handle))
    ensures StrongOk(Apply(s, DropHandle(handle))) && TokenOk(Apply(s, DropHandle(handle)))
  {
    HandleIsCounted(s, handle);
    if s.handles[handle].user {
      var cell := s.handles[handle].keepAlive.value;
      SizesAfter(s.cells, cell, s.cells[cell] - 1);
      var s1 := s.(handles := s.handles - {handle}, cells := s.cells - {cell});
      ReleaseKeepsCount(s1, |s.topics|, |s.cells|, |s.upgrades|);
    }
  }

  lemma RunKeepsInv(states: seq<State>, ops: seq<Op>, n: nat)
    requires IsRun(states, ops) && n < |states|
    ensures Inv(states[n])
  {
    for i := 0 to n
      invariant Inv(states[i])
    {
      assert Linked(states, ops, i);
      StepKeepsShares(states[i], ops[i]);
      StepKeepsStrong(states[i], ops[i]);
    }
  }

  // ---------- when the token is cancelled ----------

  /** No `Topic`, and no sender or receiver, is left in the user's hands. */
  predicate UserGone(s: State) {
    s.topics == {} && forall h | h in s.handles :: !s.handles[h].user
  }

  /** In every reachable state the token is cancelled exactly if the user has nothing left and no weak
      reference is upgraded, or bootstrap failed, or starting the workers failed, or the gossip stream
      ended. The actor's count is what the user and the upgrades hold; handles of the bootstrap loop
      and of the workers do not enter it. */
  lemma CancelledExactlyWhenUnused(states: seq<State>, ops: seq<Op>, n: nat)
    requires IsRun(states, ops) && n < |states|
    ensures var s := states[n];
      && (s.cancelled <==> (UserGone(s) && s.upgrades == {}) || s.faults != {})
      && (s.actorAlive <==> !(UserGone(s) && s.upgrades == {}))
      && s.strong == |s.topics| + |s.cells| + |s.upgrades|
      && s.cells.Keys ==
         set h | h in s.handles && s.handles[h].user && s.handles[h].keepAlive.Some? :: s.handles[h].keepAlive.value
  {
    var s := states[n];
    RunKeepsInv(states, ops, n);
    forall c | c in s.cells
      ensures exists h :: h in s.handles && s.handles[h].user && s.handles[h].keepAlive == Some(c)
    {
      assert CellOk(s.handles, c, s.cells[c]);
      assert Sharers(s.handles, c) != {};
      var h :| h in Sharers(s.handles, c);
      assert HandleOk(s.handles[h], s.cells);
    }
    if s.cells != map[] {
      var c :| c in s.cells;
      assert !UserGone(s);
    }
    forall h | h in s.handles ensures HandleOk(s.handles[h], s.cells) {
    }
    if s.topics != {} { assert |s.topics| > 0; }
    if s.upgrades != {} { assert |s.upgrades| > 0; }
    if exists h :: h in s.handles && s.handles[h].user {
      var h :| h in s.handles && s.handles[h].user;
      assert HandleOk(s.handles[h], s.cells);
      assert |s.cells| > 0;
    }
  }

  // ---------- what the user holds, from the operations alone ----------

  /** The `Topic`s in the user's hands after `n` operations: the initial one and clones, less those dropped. */
  function HeldTopics(ops: seq<Op>, n: nat): set<nat>
    requires n <= |ops|
  {
    if n == 0 then {0}
    else
      match ops[n - 1]
      case CloneTopic(_, clone) => HeldTopics(ops, n - 1) + {clone}
      case DropTopic(topic) => HeldTopics(ops, n - 1) - {topic}
      case _ => HeldTopics(ops, n - 1)
  }

  /** The senders and receivers in the user's hands: those got from a `Topic` and clones of such, less
      those dropped. */
  function HeldHandles(ops: seq<Op>, n: nat): set<nat>
    requires n <= |ops|
  {
    if n == 0 then {}
    else
      match ops[n - 1]
      case GetHandle(_, _, handle) => HeldHandles(ops, n - 1) + {handle}
      case CloneHandle(handle, clone) =>
        HeldHandles(ops, n - 1) + if handle in HeldHandles(ops, n - 1) then {clone} else {}
      case DropHandle(handle) => HeldHandles(ops, n - 1) - {handle}
      case _ => HeldHandles(ops, n - 1)
  }

  /** The upgrades that are open: those made while something was held, less those ended. */
  function OpenUpgrades(ops: seq<Op>, n: nat): set<nat>
    requires n <= |ops|
    decreases n, 0
  {
    if n == 0 then {}
    else
      match ops[n - 1]
      case Upgrade(upgrade) =>
        if NothingHeld(ops, n - 1) then OpenUpgrades(ops, n - 1) else OpenUpgrades(ops, n - 1) + {upgrade}
      case EndUpgrade(upgrade) => OpenUpgrades(ops, n - 1) - {upgrade}
      case _ => OpenUpgrades(ops, n - 1)
  }

  predicate NothingHeld(ops: seq<Op>, n: nat)
    requires n <= |ops|
    decreases n, 1
  {
    HeldTopics(ops, n) == {} && HeldHandles(ops, n) == {} && OpenUpgrades(ops, n) == {}
  }

  predicate Failed(ops: seq<Op>, n: nat)
    requires n <= |ops|
  {
    exists i :: 0 <= i < n && ops[i].Fail?
  }

  function Users(handles: map<nat, Handle>): set<nat> {
    set h | h in handles && handles[h].user
  }

  function UserHandles(s: State): set<nat> { Users(s.handles) }

  lemma UsersAfter(handles: map<nat, Handle>, h: nat, handle: Handle)
    ensures h !in handles ==> Users(handles[h := handle]) == Users(handles) + if handle.user then {h} else {}
    ensures Users(handles - {h}) == Users(handles) - {h}
  {
    if h !in handles {
      var handles' := handles[h := handle];
      forall k ensures k in Users(handles') <==> k in Users(handles) || (k == h && handle.user) {
      }
    }
  }

  lemma UserGoneMeans(s: State)
    ensures UserGone(s) <==> s.topics == {} && UserHandles(s) == {}
  {
    if h :| h in s.handles && s.handles[h].user {
      assert h in UserHandles(s);
    }
  }

  /** The state agrees with the operations. */
  ghost predicate Agrees(s: State, ops: seq<Op>, n: nat)
    requires n <= |ops|
  {
    && s.topics == HeldTopics(ops, n) && UserHandles(s) == HeldHandles(ops, n)
    && s.upgrades == OpenUpgrades(ops, n) && (s.faults != {} <==> Failed(ops, n))
  }

  lemma HandlesAgree(s: State, op: Op)
    requires Enabled(s, op)
    ensures var s' := Apply(s, op);
      UserHandles(s') ==
      match op
      case GetHandle(_, _, handle) => UserHandles(s) + {handle}
      case CloneHandle(handle, clone) => UserHandles(s) + if handle in UserHandles(s) then {clone} else {}
      case DropHandle(handle) => UserHandles(s) - {handle}
      case _ => UserHandles(s)
  {
    match op {
      case GetHandle(_, cell, handle) => UsersAfter(s.handles, handle, Handle(true, Some(cell)));
      case InternalHandle(handle) => UsersAfter(s.handles, handle, Handle(false, None));
      case CloneHandle(handle, clone) =>
        UsersAfter(s.handles, clone, s.handles[handle]);
        CloneSetsHandles(s, handle, clone);
      case DropHandle(handle) =>
        UsersAfter(s.handles, handle, s.handles[handle]);
        DropSetsHandles(s, handle);
      case _ =>
    }
  }

  lemma CloneSetsHandles(s: State, handle: nat, clone: nat)
    requires Enabled(s, CloneHandle(handle, clone))
    ensures Apply(s, CloneHandle(handle, clone)).handles == s.handles[clone := s.handles[handle]]
  {
  }

  lemma DropSetsHandles(s: State, handle: nat)
    requires Enabled(s, DropHandle(handle))
    ensures Apply(s, DropHandle(handle)).handles == s.handles - {handle}
  {
  }

  /** Only the operations on them change topics, upgrades and faults. */
  lemma Effects(s: State, op: Op)
    requires Enabled(s, op)
    ensures Apply(s, op).topics ==
      if op.CloneTopic? then s.topics + {op.clone} else if op.DropTopic? then s.topics - {op.topic} else s.topics
    ensures Apply(s, op).upgrades ==
      if op.Upgrade? && s.strong > 0 then s.upgrades + {op.upgrade}
      else if op.EndUpgrade? then s.upgrades - {op.upgrade}
      else s.upgrades
    ensures Apply(s, op).faults == s.faults + if op.Fail? then {op.fault} else {}
  {
    if op.DropHandle? {
      var keepAlive := s.handles[op.handle].keepAlive;
      assert Apply(s, op) ==
        if keepAlive.None? then s.(handles := s.handles - {op.handle})
        else ReleaseCell(s.(handles := s.handles - {op.handle}), keepAlive.value);
    }
  }

  lemma StepAgrees(states: seq<State>, ops: seq<Op>, n: nat)
    requires IsRun(states, ops) && n < |ops| && Agrees(states[n], ops, n)
    ensures Agrees(states[n + 1], ops, n + 1)
  {
    var s := states[n];
    assert Linked(states, ops, n);
    RunKeepsInv(states, ops, n);
    CancelledExactlyWhenUnused(states, ops, n);
    UserGoneMeans(s);
    Effects(s, ops[n]);
    HandlesAgree(s, ops[n]);
    FailedNext(ops, n);
  }

  lemma FailedNext(ops: seq<Op>, n: nat)
    requires n < |ops|
    ensures Failed(ops, n + 1) <==> Failed(ops, n) || ops[n].Fail?
  {
  }

  lemma RunAgrees(states: seq<State>, ops: seq<Op>, n: nat)
    requires IsRun(states, ops) && n < |states|
    ensures Agrees(states[n], ops, n)
  {
    assert UserHandles(INIT) == {};
    for i := 0 to n
      invariant Agrees(states[i], ops, i)
    {
      StepAgrees(states, ops, i);
    }
  }

  /** Keep-alive safety: after any operations the token is cancelled exactly if the user holds no `Topic`,
      sender or receiver and no upgrade is open, or one of the operations was a fault. What is held is
      computed from the operations alone. */
  lemma TokenFollowsHoldings(states: seq<State>, ops: seq<Op>, n: nat)
    requires IsRun(states, ops) && n < |states|
    ensures states[n].cancelled <==> NothingHeld(ops, n) || Failed(ops, n)
    ensures states[n].actorAlive <==> !NothingHeld(ops, n)
  {
    RunAgrees(states, ops, n);
    CancelledExactlyWhenUnused(states, ops, n);
    UserGoneMeans(states[n]);
  }

  /** What the user holds can be used and dropped. */
  lemma HeldThingsWork(states: seq<State>, ops: seq<Op>, n: nat, fresh1: nat, fresh2: nat)
    requires IsRun(states, ops) && n < |states|
    requires fresh1 !in states[n].topics && fresh1 !in states[n].handles && fresh2 !in states[n].cells
    ensures forall topic | topic in HeldTopics(ops, n) ::
      && Enabled(states[n], CloneTopic(topic, fresh1)) && Enabled(states[n], DropTopic(topic))
      && Enabled(states[n], GetHandle(topic, fresh2, fresh1))
    ensures forall handle | handle in HeldHandles(ops, n) ::
      Enabled(states[n], CloneHandle(handle, fresh1)) && Enabled(states[n], DropHandle(handle))
    ensures Enabled(states[n], InternalHandle(fresh1))
    ensures forall upgrade | upgrade in OpenUpgrades(ops, n) :: Enabled(states[n], EndUpgrade(upgrade))
  {
    RunAgrees(states, ops, n);
    forall handle | handle in HeldHandles(ops, n) ensures handle in states[n].handles {
      assert handle in UserHandles(states[n]);
    }
  }

  /** A handle of the bootstrap loop or of a worker changes neither the count nor the token. */
  lemma InternalHandlesDoNotCount(s: State, op: Op)
    requires Inv(s) && Enabled(s, op)
    requires op.InternalHandle? || ((op.CloneHandle? || op.DropHandle?) && !s.handles[op.handle].user)
    ensures var s' := Apply(s, op);
      s'.strong == s.strong && s'.cells == s.cells && s'.cancelled == s.cancelled && s'.actorAlive == s.actorAlive
  {
  }

  /** `ops` can be taken one after the other, from `s` to `s'`. */
  ghost predicate Leads(s: State, ops: seq<Op>, s': State)
    decreases |ops|
  {
    if ops == [] then s' == s else Enabled(s, ops[0]) && Leads(Apply(s, ops[0]), ops[1..], s')
  }

  /** Every operation of `ops`, taken from `s` on, is on an internal handle. */
  ghost predicate InternalOnly(s: State, ops: seq<Op>)
    decreases |ops|
  {
    ops == [] ||
    (&& Enabled(s, ops[0])
     && (ops[0].InternalHandle? || ((ops[0].CloneHandle? || ops[0].DropHandle?) && !s.handles[ops[0].handle].user))
     && InternalOnly(Apply(s, ops[0]), ops[1..]))
  }

  /** However many handles the bootstrap loop and the workers take, clone and drop, it changes neither
      the count nor the token. */
  lemma {:induction false} InternalRunDoesNotCount(s: State, ops: seq<Op>, s': State)
    requires Inv(s) && Leads(s, ops, s') && InternalOnly(s, ops)
    ensures s'.strong == s.strong && s'.cells == s.cells && s'.cancelled == s.cancelled && s'.actorAlive == s.actorAlive
    decreases |ops|
  {
    if ops != [] {
      StepKeepsShares(s, ops[0]);
      StepKeepsStrong(s, ops[0]);
      InternalHandlesDoNotCount(s, ops[0]);
      InternalRunDoesNotCount(Apply(s, ops[0]), ops[1..], s');
    }
  }

  lemma StepOfRun(states: seq<State>, ops: seq<Op>, n: nat)
    requires IsRun(states, ops) && n < |ops|
    ensures states[n].cancelled ==> states[n + 1].cancelled
    ensures !states[n].actorAlive ==> !states[n + 1].actorAlive
  {
    RunKeepsInv(states, ops, n);
    assert Linked(states, ops, n);
    NothingRevives(states[n], ops[n]);
  }

  /** Once cancelled, always cancelled; once the actor is gone nothing brings it back. */
  lemma ShutdownIsFinal(states: seq<State>, ops: seq<Op>, m: nat, n: nat)
    requires IsRun(states, ops) && m <= n < |states|
    ensures states[m].cancelled ==> states[n].cancelled
    ensures !states[m].actorAlive ==> !states[n].actorAlive
  {
    for i := m to n
      invariant states[m].cancelled ==> states[i].cancelled
      invariant !states[m].actorAlive ==> !states[i].actorAlive
    {
      StepOfRun(states, ops, i);
    }
  }

  lemma NothingRevives(s: State, op: Op)
    requires Inv(s) && Enabled(s, op)
    ensures s.cancelled ==> Apply(s, op).cancelled
    ensures !s.actorAlive ==> !Apply(s, op).actorAlive
  {
    if !s.actorAlive {
      assert s.topics == {} && s.upgrades == {} && s.cells == map[];
    }
  }

  // ---------- starting the workers ----------

  datatype Worker = Worker(enabled: bool, failTopicOnStartupFailure: bool)

  /** What the start of one worker meets: whether the weak reference can be upgraded, and whether the
      worker can be built. */
  datatype Start = Start(upgraded: bool, built: bool)

  predicate StartFails(w: Worker, s: Start) {
    w.enabled && (!s.upgraded || (!s.built && w.failTopicOnStartupFailure))
  }

  predicate Runs(w: Worker, s: Start) { w.enabled && s.upgraded && s.built }

  /** What starting a worker does to the shared state: the weak reference is upgraded for the time of
      the start. The handles a worker keeps are internal. */
  function StartOps(w: Worker, s: Start, upgrade: nat): seq<Op> {
    if !w.enabled then [] else if s.upgraded then [Upgrade(upgrade), EndUpgrade(upgrade)] else [Upgrade(upgrade)]
  }

  /** In any state a start finds the actor exactly if someone holds it, and leaves everything as it was. */
  lemma StartLeavesState(s: State, w: Worker, start: Start, upgrade: nat)
    requires Inv(s) && upgrade !in s.upgrades && (start.upgraded <==> s.actorAlive)
    ensures Leads(s, StartOps(w, start, upgrade), s)
  {
    if w.enabled {
      var up := Apply(s, Upgrade(upgrade));
      assert [Upgrade(upgrade)][1..] == [];
      if start.upgraded {
        assert [Upgrade(upgrade), EndUpgrade(upgrade)][1..] == [EndUpgrade(upgrade)];
        assert [EndUpgrade(upgrade)][1..] == [];
        assert up.upgrades - {upgrade} == s.upgrades;
        assert Apply(up, EndUpgrade(upgrade)) == s;
      }
    }
  }

  /** The first fatal failure among the workers' starts, with the token as it is before them. */
  predicate SpawnFails(cancelled: bool, workers: (Worker, Worker, Worker), starts: (Start, Start, Start)) {
    cancelled || StartFails(workers.0, starts.0) || StartFails(workers.1, starts.1) || StartFails(workers.2, starts.2)
  }

  /** Some enabled worker finds the actor gone, or cannot be built although configured as required. */
  predicate AnyFatal(workers: (Worker, Worker, Worker), starts: (Start, Start, Start)) {
    || (workers.0.enabled && (!starts.0.upgraded || (!starts.0.built && workers.0.failTopicOnStartupFailure)))
    || (workers.1.enabled && (!starts.1.upgraded || (!starts.1.built && workers.1.failTopicOnStartupFailure)))
    || (workers.2.enabled && (!starts.2.upgraded || (!starts.2.built && workers.2.failTopicOnStartupFailure)))
  }

  /** The fault with which the task that waits for the bootstrap result ends, if any. */
  function FaultAfterBootstrap(
    bootstrapOk: bool, asyncBootstrap: bool, cancelled: bool,
    workers: (Worker, Worker, Worker), starts: (Start, Start, Start)): Option<Fault>
  {
    if !bootstrapOk then Some(BootstrapFailed)
    else if asyncBootstrap && SpawnFails(cancelled, workers, starts) then Some(WorkerStartFailed)
    else None
  }

  lemma {:induction false} LeadsOn(s: State, a: seq<Op>, s1: State, b: seq<Op>, s2: State)
    requires Leads(s, a, s1) && Leads(s1, b, s2)
    ensures Leads(s, a + b, s2)
    decreases |a|
  {
    if a == [] {
      assert a + b == b;
    } else {
      LeadsOn(Apply(s, a[0]), a[1..], s1, b, s2);
      assert (a + b)[1..] == a[1..] + b;
    }
  }

  /** The operations of `SpawnWorkers` and of `AfterBootstrap` below on the shared state. */
  function SpawnOps(
    cancelled: bool, workers: (Worker, Worker, Worker), starts: (Start, Start, Start), upgrade: nat): seq<Op>
  {
    if cancelled then []
    else
      StartOps(workers.0, starts.0, upgrade)
      + if StartFails(workers.0, starts.0) then []
        else
          StartOps(workers.1, starts.1, upgrade)
          + if StartFails(workers.1, starts.1) then [] else StartOps(workers.2, starts.2, upgrade)
  }

  function AfterBootstrapOps(
    bootstrapOk: bool, asyncBootstrap: bool, cancelled: bool,
    workers: (Worker, Worker, Worker), starts: (Start, Start, Start), upgrade: nat): seq<Op>
  {
    (if bootstrapOk && asyncBootstrap then SpawnOps(cancelled, workers, starts, upgrade) else [])
    + match FaultAfterBootstrap(bootstrapOk, asyncBootstrap, cancelled, workers, starts)
      case None => []
      case Some(fault) => [Fail(fault)]
  }

  lemma SpawningLeavesState(
    s: State, workers: (Worker, Worker, Worker), starts: (Start, Start, Start), upgrade: nat)
    requires Inv(s) && upgrade !in s.upgrades
    requires starts.0.upgraded == starts.1.upgraded == starts.2.upgraded == s.actorAlive
    ensures Leads(s, SpawnOps(s.cancelled, workers, starts, upgrade), s)
  {
    var first, second := StartOps(workers.0, starts.0, upgrade), StartOps(workers.1, starts.1, upgrade);
    var third := StartOps(workers.2, starts.2, upgrade);
    StartLeavesState(s, workers.0, starts.0, upgrade);
    StartLeavesState(s, workers.1, starts.1, upgrade);
    StartLeavesState(s, workers.2, starts.2, upgrade);
    LeadsOn(s, second, s, third, s);
    LeadsOn(s, first, s, second, s);
    LeadsOn(s, first, s, second + third, s);
    assert first + [] == first && second + [] == second;
  }

  /** What the waiting task does is a run of the state machine: from a state with the same token it
      leads to a fault exactly if the task ends with one, and else leaves everything as it was. */
  lemma AfterBootstrapIsARun(
    s: State, bootstrapOk: bool, asyncBootstrap: bool,
    workers: (Worker, Worker, Worker), starts: (Start, Start, Start), upgrade: nat)
    returns (s': State)
    requires Inv(s) && upgrade !in s.upgrades
    requires starts.0.upgraded == starts.1.upgraded == starts.2.upgraded == s.actorAlive
    ensures Leads(s, AfterBootstrapOps(bootstrapOk, asyncBootstrap, s.cancelled, workers, starts, upgrade), s')
    ensures var fault := FaultAfterBootstrap(bootstrapOk, asyncBootstrap, s.cancelled, workers, starts);
      && s' == (if fault.Some? then Apply(s, Fail(fault.value)) else s)
      && s'.cancelled == (s.cancelled || fault.Some?)
    ensures !bootstrapOk ==> s'.faults == s.faults + {BootstrapFailed}
    ensures bootstrapOk && asyncBootstrap && (s.cancelled || AnyFatal(workers, starts)) ==>
      s'.faults == s.faults + {WorkerStartFailed}
    ensures bootstrapOk && !(asyncBootstrap && (s.cancelled || AnyFatal(workers, starts))) ==> s' == s
  {
    var fault := FaultAfterBootstrap(bootstrapOk, asyncBootstrap, s.cancelled, workers, starts);
    SpawningLeavesState(s, workers, starts, upgrade);
    var spawn := if bootstrapOk && asyncBootstrap then SpawnOps(s.cancelled, workers, starts, upgrade) else [];
    s' := s;
    assert spawn + [] == spawn;
    if fault.Some? {
      s' := Apply(s, Fail(fault.value));
      assert [Fail(fault.value)][1..] == [];
      LeadsOn(s, spawn, s, [Fail(fault.value)], s');
    }
  }

  class TopicActor {
    var publisher: bool
    var bubbleMerge: bool
    var messageOverlapMerge: bool
    var cancelled: bool            // the token

    /** `start_publishing` and its like: a worker that cannot be built is an error only if configured so. */
    method StartWorker(w: Worker, s: Start, upgrade: nat) returns (ok: bool, running: bool, ops: seq<Op>)
      ensures ok == !(w.enabled && (!s.upgraded || (!s.built && w.failTopicOnStartupFailure)))
      ensures running == (w.enabled && s.upgraded && s.built)
      ensures ops == StartOps(w, s, upgrade)
    {
      ok, running, ops := true, false, [];
      if w.enabled {
        ops := ops + [Upgrade(upgrade)];
        if !s.upgraded {
          ok := false;
        } else {
          if s.built {
            running := true;
          } else {
            ok := !w.failTopicOnStartupFailure;
          }
          ops := ops + [EndUpgrade(upgrade)];
        }
      }
    }

    /** Starts the enabled workers in order; the first fatal failure stops the rest. `ops` lists what
        this does to the shared state. */
    method SpawnWorkers(workers: (Worker, Worker, Worker), starts: (Start, Start, Start), upgrade: nat)
      returns (ok: bool, ops: seq<Op>)
      modifies this
      ensures ok == !(cancelled || AnyFatal(workers, starts)) && cancelled == old(cancelled)
      ensures ops == SpawnOps(cancelled, workers, starts, upgrade)
      ensures publisher == (old(publisher) || (!cancelled && Runs(workers.0, starts.0)))
      ensures bubbleMerge ==
        (old(bubbleMerge) || (!cancelled && !StartFails(workers.0, starts.0) && Runs(workers.1, starts.1)))
      ensures messageOverlapMerge ==
        (old(messageOverlapMerge)
         || (!cancelled && !StartFails(workers.0, starts.0) && !StartFails(workers.1, starts.1)
             && Runs(workers.2, starts.2)))
    {
      if cancelled {
        return false, [];
      }
      var running, more;
      ok, running, ops := StartWorker(workers.0, starts.0, upgrade);
      publisher := publisher || running;
      if !ok { return; }
      ok, running, more := StartWorker(workers.1, starts.1, upgrade);
      bubbleMerge := bubbleMerge || running;
      ops := ops + more;
      if !ok { return; }
      ok, running, more := StartWorker(workers.2, starts.2, upgrade);
      messageOverlapMerge := messageOverlapMerge || running;
      ops := ops + more;
    }

    /** The task that waits for the bootstrap result and, for a topic created without waiting, then
        starts the workers. It cancels the token exactly if bootstrap failed or a start is fatal. */
    method AfterBootstrap(
      bootstrapOk: bool, asyncBootstrap: bool, workers: (Worker, Worker, Worker), starts: (Start, Start, Start),
      upgrade: nat)
      returns (ops: seq<Op>)
      modifies this
      ensures cancelled ==
        (old(cancelled) || !bootstrapOk || (asyncBootstrap && AnyFatal(workers, starts)))
      ensures ops == AfterBootstrapOps(bootstrapOk, asyncBootstrap, old(cancelled), workers, starts, upgrade)
      ensures !bootstrapOk || !asyncBootstrap ==>
        unchanged(this`publisher, this`bubbleMerge, this`messageOverlapMerge)
    {
      ops := [];
      if !bootstrapOk {
        cancelled := true;
        return ops + [Fail(BootstrapFailed)];
      }
      if asyncBootstrap {
        var ok;
        ok, ops := SpawnWorkers(workers, starts, upgrade);
        if !ok {
          cancelled := true;
          ops := ops + [Fail(WorkerStartFailed)];
        }
      }
    }
  }
}
