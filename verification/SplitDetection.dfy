/** When a published window of message hashes shows that its author hears other messages than the
    local node (src/gossip/merge/message_overlap.rs). */
module SplitDetection {
  import opened Bytes
  import opened Library
  import opened GossipReceiver
  import opened Publisher

  /** The overlap test on the local window and a remote content. */
  predicate Flags(localHashes: seq<Bytes32>, remote: GossipRecordContent) {
    var remoteHashes := NonZero(remote.lastMessageHashes);
    localHashes != [] && remoteHashes != [] && forall h | h in remoteHashes :: h !in localHashes
  }

  /** For any two histories, what `author` published is flagged by `reader` exactly when the reader
      has heard something, the author's window holds a non-zero hash, and the windows share none. */
  lemma FlagsExactlyDisjointWindows(neighbors: seq<Bytes32>, author: seq<Bytes32>, reader: seq<Bytes32>)
    ensures Flags(Window(reader), ContentOf(neighbors, Window(author)))
      <==> && reader != []
           && (exists h :: h in Window(author) && h != ZERO_SLOT)
           && (forall h | h in Window(author) && h != ZERO_SLOT :: h !in Window(reader))
  {
    PublishedWindow(neighbors, author);
    forall h ensures h in NonZero(Window(author)) <==> h in Window(author) && h != ZERO_SLOT {
      NonZeroMembers(Window(author), h);
    }
    if NonZero(Window(author)) != [] {
      assert NonZero(Window(author))[0] in NonZero(Window(author));
    }
  }

  /** The window of the first `n` messages of a stream holds message `x` of it exactly when it is
      among the last five of them. */
  lemma WindowOfPrefix(stream: seq<Bytes32>, n: nat, x: nat)
    requires n <= |stream| && x < |stream|
    requires forall a, b | 0 <= a < b < |stream| :: stream[a] != stream[b]
    ensures stream[x] in Window(stream[..n]) <==> x < n <= x + MAX_MESSAGE_HASHES
  {
    var w := Window(stream[..n]);
    if x < n <= x + MAX_MESSAGE_HASHES {
      assert w[x - (n - |w|)] == stream[x];
    }
    if stream[x] in w {
      var i :| 0 <= i < |w| && w[i] == stream[x];
      assert w[i] == stream[n - |w| + i];
    }
  }

  /** On one stream of distinct non-zero hashes, of which the author had heard `i` and the reader has
      heard `j`, the record is flagged exactly when both have heard something and they are at least
      five messages apart. */
  lemma SharedStreamFlagged(neighbors: seq<Bytes32>, stream: seq<Bytes32>, i: nat, j: nat)
    requires i <= |stream| && j <= |stream|
    requires forall a, b | 0 <= a < b < |stream| :: stream[a] != stream[b]
    requires ZERO_SLOT !in stream
    ensures Flags(Window(stream[..j]), ContentOf(neighbors, Window(stream[..i])))
      <==> i >= 1 && j >= 1 && (i - j >= 5 || j - i >= 5)
  {
    var author, reader := stream[..i], stream[..j];
    FlagsExactlyDisjointWindows(neighbors, author, reader);
    forall x: nat | x < |stream|
      ensures stream[x] in Window(author) <==> x < i <= x + MAX_MESSAGE_HASHES
      ensures stream[x] in Window(reader) <==> x < j <= x + MAX_MESSAGE_HASHES
    {
      WindowOfPrefix(stream, i, x);
      WindowOfPrefix(stream, j, x);
    }
    if i >= 1 && j >= 1 {
      assert stream[i - 1] in Window(author) && stream[j - 1] in Window(reader);
      if -MAX_MESSAGE_HASHES < i - j < MAX_MESSAGE_HASHES {
        var shared := if i < j then i - 1 else j - 1;
        assert stream[shared] in Window(author) && stream[shared] in Window(reader);
      } else {
        forall h | h in Window(author) ensures h !in Window(reader) {
          var x: nat :| x < i && stream[x] == h;
        }
      }
    }
  }
}
