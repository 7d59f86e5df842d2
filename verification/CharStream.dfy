/** A character stream as its timed readers see it (Stream.cpp). */
module CharStream {
  import opened CTypes

  class Stream {
    /** The characters that arrive before a read times out. */
    var pending: Text

    constructor (pending: Text)
      ensures this.pending == pending
    {
      this.pending := pending;
    }

    /** The next character, or -1 once nothing more arrives. */
    method TimedRead() returns (c: int)
      modifies this
      ensures old(pending) == [] ==> c == -1 && pending == []
      ensures old(pending) != [] ==> c == old(pending)[0] && pending == old(pending)[1..]
    {
      if pending == [] {
        c := -1;
      } else {
        c := pending[0];
        pending := pending[1..];
      }
    }

    method TimedPeek() returns (c: int)
      ensures c == if pending == [] then -1 else pending[0]
    {
      c := if pending == [] then -1 else pending[0];
    }
  }
}
