/**
  A blocking channel without a buffer: a number can be written only when the reader waits for it
  and has read all before.  The sieve over IPC is built on these, and IPC provides them.
*/
module Channel {
  // All numbers ever written, and how many of them have been read.
  datatype Chan = Chan(hist: seq<int>, read: nat)

  predicate HasUnread(a: Chan) { a.read < |a.hist| }

  // When a write can take place.
  predicate Meets(a: Chan, waiting: bool) { !HasUnread(a) && waiting }

  // What one step of the system may do to a channel.
  predicate Step(a: Chan, waiting: bool, b: Chan) {
    || b == a
    || (Meets(a, waiting) && |b.hist| == |a.hist| + 1 && b.hist[..|a.hist|] == a.hist && b.read == a.read)
    || (HasUnread(a) && b == a.(read := a.read + 1))
  }
}
