/**
 * STREAM<stream_word>: a single-producer, single-consumer FIFO of words.
 * A blocking read of an empty stream never returns; the model makes that
 * a precondition of Read, so a proof that calls Read shows the words it
 * waits for are already queued. A non-blocking read reports absence.
 */
module Streams {
  import opened Wrappers
  import opened Wire

  class Stream {
    /** The words written and not yet read, oldest first. */
    var q: seq<Word>

    constructor (contents: seq<Word>)
      ensures q == contents
    {
      q := contents;
    }

    /** write: append at the back. */
    method Write(w: Word)
      modifies this
      ensures q == old(q) + [w]
    {
      q := q + [w];
    }

    /** read: take the front word. */
    method Read() returns (w: Word)
      requires q != []
      modifies this
      ensures [w] + q == old(q)
    {
      w := q[0];
      q := q[1..];
    }

    /** read_nb: take the front word if there is one. */
    method ReadNb() returns (r: Option<Word>)
      modifies this
      ensures old(q) == [] ==> r == None && q == []
      ensures old(q) != [] ==> r == Some(old(q)[0]) && q == old(q)[1..]
    {
      if q == [] {
        r := None;
      } else {
        r := Some(q[0]);
        q := q[1..];
      }
    }
  }
}
