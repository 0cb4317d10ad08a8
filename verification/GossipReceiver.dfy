/** The receiving actor: the bounded window of message hashes and its shutdown signals
    (src/gossip/receiver.rs). */
module GossipReceiver {
  import opened Wrappers
  import opened Bytes
  import opened Library

  datatype Event = Received(hash: Bytes32) | NeighborUp(key: Bytes32) | NeighborDown(key: Bytes32) | Lagged

  /** What one turn of the actor's `select!` yields. */
  datatype Turn =
    | Call                       // a request by a handle: state is only read
    | HandlesGone
    | StreamClosed
    | StreamFailed
    | Gossip(event: Event)
    | TokenCancelled

  /** The newest entries of a history, at most `MAX_MESSAGE_HASHES` of them, oldest first. */
  function Window(history: seq<Bytes32>): (w: seq<Bytes32>)
    ensures |w| == if |history| < MAX_MESSAGE_HASHES then |history| else MAX_MESSAGE_HASHES
    ensures forall i | 0 <= i < |w| :: w[i] == history[|history| - |w| + i]
  {
    if |history| <= MAX_MESSAGE_HASHES then history else history[|history| - MAX_MESSAGE_HASHES..]
  }

  /** The messages among the first `n` turns. */
  function Hashes(turns: seq<Turn>, n: nat): seq<Bytes32>
    requires n <= |turns|
  {
    if n == 0 then []
    else
      var t := turns[n - 1];
      Hashes(turns, n - 1) + if t.Gossip? && t.event.Received? then [t.event.hash] else []
  }

  /** The events among the first `n` turns, as subscribers get them. */
  function Events(turns: seq<Turn>, n: nat): seq<Option<Event>>
    requires n <= |turns|
  {
    if n == 0 then [] else Events(turns, n - 1) + if turns[n - 1].Gossip? then [Some(turns[n - 1].event)] else []
  }

  /** The wake-ups for `joined()` among the first `n` turns: messages and new neighbours. */
  function JoinSignals(turns: seq<Turn>, n: nat): seq<Option<()>>
    requires n <= |turns|
  {
    if n == 0 then []
    else
      var t := turns[n - 1];
      JoinSignals(turns, n - 1) + if t.Gossip? && (t.event.Received? || t.event.NeighborUp?) then [Some(())] else []
  }

  class GossipReceiverActor {
    ghost var history: seq<Bytes32>
    var lastMessageHashes: seq<Bytes32>
    var cancelled: bool
    // What was sent on the two broadcast channels.
    var nextChannel: seq<Option<Event>>
    var joinChannel: seq<Option<()>>

    ghost predicate Valid()
      reads this
    {
      lastMessageHashes == Window(history)
    }

    constructor ()
      ensures Valid() && history == [] && !cancelled && nextChannel == [] && joinChannel == []
    {
      history, lastMessageHashes, cancelled, nextChannel, joinChannel := [], [], false, [], [];
    }

    method Receive(hash: Bytes32)
      requires Valid()
      modifies this`history, this`lastMessageHashes
      ensures Valid() && history == old(history) + [hash]
    {
      if |lastMessageHashes| == MAX_MESSAGE_HASHES {
        lastMessageHashes := lastMessageHashes[1..];
      }
      lastMessageHashes := lastMessageHashes + [hash];
      history := history + [hash];
    }

    method Deliver(event: Event)
      requires Valid()
      modifies this
      ensures Valid() && cancelled == old(cancelled)
      ensures history == old(history) + (if event.Received? then [event.hash] else [])
      ensures nextChannel == old(nextChannel) + [Some(event)]
      ensures joinChannel == old(joinChannel) + (if event.Received? || event.NeighborUp? then [Some(())] else [])
    {
      match event {
        case Received(hash) =>
          Receive(hash);
          joinChannel := joinChannel + [Some(())];
        case NeighborUp(_) =>
          joinChannel := joinChannel + [Some(())];
        case NeighborDown(_) =>
        case Lagged =>
      }
      nextChannel := nextChannel + [Some(event)];
    }

    /** Serves turns until one stops the actor or none is left; `n` turns were served. Afterwards the
        window is that of the whole history, subscribers got every event in order and, if the actor
        closed, one final `None` on each channel; a finished or failed stream cancels the token. */
    method Run(turns: seq<Turn>) returns (n: nat)
      requires Valid()
      modifies this
      ensures n <= |turns|
      ensures forall i | 0 <= i < n - 1 :: turns[i].Call? || turns[i].Gossip?
      ensures n < |turns| ==> n > 0 && !turns[n - 1].Call? && !turns[n - 1].Gossip?
      ensures Valid() && history == old(history) + Hashes(turns, n)
      ensures var closing := n > 0
          && (turns[n - 1].StreamClosed? || turns[n - 1].StreamFailed? || turns[n - 1].TokenCancelled?);
        && nextChannel == old(nextChannel) + Events(turns, n) + (if closing then [None] else [])
        && joinChannel == old(joinChannel) + JoinSignals(turns, n) + (if closing then [None] else [])
      ensures cancelled == (old(cancelled) || (n > 0 && (turns[n - 1].StreamClosed? || turns[n - 1].StreamFailed?)))
    {
      n := 0;
      while n < |turns|
        invariant n <= |turns|
        invariant forall i | 0 <= i < n :: turns[i].Call? || turns[i].Gossip?
        invariant Valid() && history == old(history) + Hashes(turns, n)
        invariant nextChannel == old(nextChannel) + Events(turns, n)
        invariant joinChannel == old(joinChannel) + JoinSignals(turns, n)
        invariant cancelled == old(cancelled)
      {
        var turn := turns[n];
        n := n + 1;
        match turn
        case Call =>
        case HandlesGone =>
          break;
        case StreamClosed =>
          joinChannel := joinChannel + [None];
          nextChannel := nextChannel + [None];
          cancelled := true;
          break;
        case StreamFailed =>
          nextChannel := nextChannel + [None];
          joinChannel := joinChannel + [None];
          cancelled := true;
          break;
        case Gossip(event) =>
          Deliver(event);
        case TokenCancelled =>
          joinChannel := joinChannel + [None];
          nextChannel := nextChannel + [None];
          break;
      }
    }

    method LastMessageHashes() returns (hashes: seq<Bytes32>)
      requires Valid()
      ensures hashes == Window(history)
    {
      hashes := lastMessageHashes;
    }
  }
}
