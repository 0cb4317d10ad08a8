/** Joining a random selection of peers (src/gossip/sender.rs). */
module GossipSender {
  import opened Wrappers

  ghost predicate Distinct<T>(s: seq<T>) {
    forall i, j | 0 <= i < j < |s| :: s[i] != s[j]
  }

  function Min(a: nat, b: nat): nat { if a < b then a else b }

  /** Shuffles in place. The random generator is arbitrary: any list of swaps, and so any order. */
  method Shuffle<T>(a: array<T>, swaps: seq<(nat, nat)>)
    modifies a
    ensures multiset(a[..]) == old(multiset(a[..]))
  {
    for n := 0 to |swaps|
      invariant multiset(a[..]) == old(multiset(a[..]))
    {
      var (i, j) := swaps[n];
      if i < a.Length && j < a.Length {
        a[i], a[j] := a[j], a[i];
      }
    }
  }

  lemma PrefixOfShuffle<T>(shuffled: seq<T>, peers: seq<T>, n: nat)
    requires multiset(shuffled) == multiset(peers) && n <= |shuffled|
    ensures |shuffled| == |peers|
    ensures forall k | k in shuffled[..n] :: k in peers
    ensures Distinct(peers) ==> Distinct(shuffled[..n])
  {
    assert |multiset(shuffled)| == |multiset(peers)|;
    forall k | k in shuffled[..n] ensures k in peers {
      assert k in multiset(shuffled);
    }
    if Distinct(peers) {
      forall i, j | 0 <= i < j < n ensures shuffled[i] != shuffled[j] {
        if shuffled[i] == shuffled[j] {
          CountAtLeastTwo(shuffled, i, j);
          CountAtMostOne(peers, shuffled[i]);
        }
      }
    }
  }

  lemma CountAtLeastTwo<T>(s: seq<T>, i: nat, j: nat)
    requires i < j < |s| && s[i] == s[j]
    ensures multiset(s)[s[i]] >= 2
  {
    assert s == s[..i] + [s[i]] + s[i + 1..j] + [s[j]] + s[j + 1..];
  }

  lemma {:induction false} CountAtMostOne<T>(s: seq<T>, x: T)
    requires Distinct(s)
    ensures multiset(s)[x] <= 1
  {
    if s != [] {
      var tail := s[1..];
      assert forall i | 0 <= i < |tail| :: tail[i] == s[i + 1];
      CountAtMostOne(tail, x);
      assert s == [s[0]] + tail;
      if x == s[0] {
        assert x !in tail;
      }
    }
  }

  /** The peers a join request carries. */
  method JoinPeers<T>(peers: seq<T>, maxPeers: Option<nat>, swaps: seq<(nat, nat)>) returns (sent: seq<T>)
    ensures maxPeers.None? ==> sent == peers
    ensures maxPeers.Some? ==> |sent| == if maxPeers.value < |peers| then maxPeers.value else |peers|
    ensures forall k | k in sent :: k in peers
    ensures Distinct(peers) ==> Distinct(sent)
  {
    if maxPeers.None? {
      return peers;
    }
    var a := new T[|peers|](i requires 0 <= i < |peers| => peers[i]);
    assert a[..] == peers;
    Shuffle(a, swaps);
    PrefixOfShuffle(a[..], peers, Min(maxPeers.value, a.Length));
    sent := a[..][..Min(maxPeers.value, a.Length)];
  }

  /** A set as a vector in some order. */
  method ToSeq<T(==)>(s: set<T>) returns (v: seq<T>)
    ensures |v| == |s| && Distinct(v)
    ensures forall k :: k in v <==> k in s
  {
    v := [];
    var rest := s;
    while rest != {}
      invariant rest <= s && |v| + |rest| == |s| && Distinct(v)
      invariant forall k :: k in v <==> k in s - rest
      decreases |rest|
    {
      var k :| k in rest;
      assert forall i | 0 <= i < |v| :: v[i] in v;
      v := v + [k];
      rest := rest - {k};
    }
  }
}
