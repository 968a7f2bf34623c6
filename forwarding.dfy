/**
 * The forwarding primitives of collectives/offload/common.hpp (repeated
 * word for word in collectives/offload.cpp): relay one burst -- a header
 * word and the CountOf(header) words after it -- to one or two outputs.
 *
 * Also the framing of a channel: a stream is framed when it is a sequence
 * of whole bursts, which is what lets every reader find the next header.
 */
module Forwarding {
  import opened Wire
  import opened Streams

  /** The length of the burst a header word opens. */
  function BurstLen(w: Word): nat { 1 + CountOf(w) }

  /** The whole burst at the front of q is already queued. */
  predicate BurstReady(q: seq<Word>)
  {
    q != [] && BurstLen(q[0]) <= |q|
  }

  /** The burst at the front of q: its header and its payload. */
  function Burst(q: seq<Word>): (b: seq<Word>)
    requires BurstReady(q)
    ensures b != [] && b[0] == q[0] && |b| == BurstLen(q[0])
    ensures q == b + AfterBurst(q)
  {
    q[..BurstLen(q[0])]
  }

  /** What is left of q after its front burst. */
  function AfterBurst(q: seq<Word>): seq<Word>
    requires BurstReady(q)
  {
    q[BurstLen(q[0])..]
  }

  /** q is a sequence of whole bursts. */
  predicate Framed(q: seq<Word>)
    decreases |q|
  {
    q == [] || (BurstReady(q) && Framed(AfterBurst(q)))
  }

  /** The bursts of a framed stream, in order. */
  function Bursts(q: seq<Word>): (bs: seq<seq<Word>>)
    requires Framed(q)
    decreases |q|
  {
    if q == [] then [] else [Burst(q)] + Bursts(AfterBurst(q))
  }

  /** Concatenation of the bursts, the inverse of Bursts. */
  function Flatten(bs: seq<seq<Word>>): seq<Word>
  {
    if bs == [] then [] else bs[0] + Flatten(bs[1..])
  }

  /** Splitting a framed stream into bursts loses and reorders nothing. */
  lemma {:induction false} FlattenBursts(q: seq<Word>)
    requires Framed(q)
    ensures Flatten(Bursts(q)) == q
    decreases |q|
  {
    if q != [] {
      FlattenBursts(AfterBurst(q));
      assert Bursts(q)[1..] == Bursts(AfterBurst(q));
    }
  }

  /** One complete burst is framed, and it is its own only burst. */
  lemma SingleBurst(b: seq<Word>)
    requires b != [] && |b| == BurstLen(b[0])
    ensures Framed(b) && Bursts(b) == [b]
  {
    assert Burst(b) == b && AfterBurst(b) == [];
    assert Bursts(AfterBurst(b)) == [];
  }

  /**
   * Appending whole bursts after whole bursts keeps a channel framed, and a
   * reader then sees the earlier bursts intact, followed by the later ones
   * intact: bursts written back to back never interleave.
   */
  lemma {:induction false} FramedAppend(x: seq<Word>, y: seq<Word>)
    requires Framed(x) && Framed(y)
    ensures Framed(x + y)
    ensures Bursts(x + y) == Bursts(x) + Bursts(y)
    decreases |x|
  {
    if x == [] {
      assert x + y == y;
    } else {
      BurstOfAppend(x, y);
      FramedAppend(AfterBurst(x), y);
      calc {
        Bursts(x + y);
        [Burst(x)] + Bursts(AfterBurst(x) + y);
        [Burst(x)] + (Bursts(AfterBurst(x)) + Bursts(y));
        ([Burst(x)] + Bursts(AfterBurst(x))) + Bursts(y);
      }
    }
  }

  /** Words appended behind a whole burst do not change that burst. */
  lemma BurstOfAppend(x: seq<Word>, y: seq<Word>)
    requires BurstReady(x)
    ensures BurstReady(x + y) && Burst(x + y) == Burst(x) && AfterBurst(x + y) == AfterBurst(x) + y
  {
    assert (x + y)[0] == x[0];
    assert (x + y)[..BurstLen(x[0])] == Burst(x);
  }

  /** Taking the front burst off a framed stream leaves it framed. */
  lemma AfterBurstFramed(q: seq<Word>)
    requires Framed(q) && q != []
    ensures BurstReady(q) && Framed(AfterBurst(q))
  {
  }

  /**
   * stream_array: write the header to out, then move CountOf(header) words
   * from in to out in order. Nothing checks the count: in must already hold
   * that many words, or the read blocks for ever.
   */
  method StreamArray(header: Word, input: Stream, output: Stream)
    requires input != output
    requires CountOf(header) <= |input.q|
    modifies input, output
    ensures output.q == old(output.q) + [header] + old(input.q)[..CountOf(header)]
    ensures input.q == old(input.q)[CountOf(header)..]
  {
    output.Write(header);
    var i := 0;
    while i < CountOf(header)
      invariant 0 <= i <= CountOf(header)
      invariant input.q == old(input.q)[i..]
      invariant output.q == old(output.q) + [header] + old(input.q)[..i]
    {
      var w := input.Read();
      output.Write(w);
      i := i + 1;
    }
  }

  /**
   * fork_array: write the header to both outputs, then copy each of the
   * CountOf(header) words read from in to both, so both receive the same burst.
   */
  method ForkArray(header: Word, input: Stream, out0: Stream, out1: Stream)
    requires input != out0 && input != out1 && out0 != out1
    requires CountOf(header) <= |input.q|
    modifies input, out0, out1
    ensures out0.q == old(out0.q) + [header] + old(input.q)[..CountOf(header)]
    ensures out1.q == old(out1.q) + [header] + old(input.q)[..CountOf(header)]
    ensures input.q == old(input.q)[CountOf(header)..]
  {
    out0.Write(header);
    out1.Write(header);
    var i := 0;
    while i < CountOf(header)
      invariant 0 <= i <= CountOf(header)
      invariant input.q == old(input.q)[i..]
      invariant out0.q == old(out0.q) + [header] + old(input.q)[..i]
      invariant out1.q == old(out1.q) + [header] + old(input.q)[..i]
    {
      var w := input.Read();
      out0.Write(w);
      out1.Write(w);
      i := i + 1;
    }
  }

  /**
   * fork_array_dest: like fork_array, but out0 gets the header with dest
   * set to dest0 and out1 gets it with dest set to dest1. The header is
   * the caller's, updated in place: on return its dest is dest1, which is
   * returned here as header'.
   */
  method ForkArrayDest(header: Word, input: Stream, out0: Stream, dest0: U32, out1: Stream, dest1: U32)
    returns (header': Word)
    requires input != out0 && input != out1 && out0 != out1
    requires CountOf(header) <= |input.q|
    modifies input, out0, out1
    ensures header' == WithDest(header, dest1)
    ensures out0.q == old(out0.q) + [WithDest(header, dest0)] + old(input.q)[..CountOf(header)]
    ensures out1.q == old(out1.q) + [WithDest(header, dest1)] + old(input.q)[..CountOf(header)]
    ensures input.q == old(input.q)[CountOf(header)..]
  {
    header' := WithDest(header, dest0);
    out0.Write(header');
    header' := WithDest(header', dest1);
    assert header' == WithDest(header, dest1);
    out1.Write(header');
    var i := 0;
    while i < CountOf(header')
      invariant 0 <= i <= CountOf(header)
      invariant input.q == old(input.q)[i..]
      invariant out0.q == old(out0.q) + [WithDest(header, dest0)] + old(input.q)[..i]
      invariant out1.q == old(out1.q) + [WithDest(header, dest1)] + old(input.q)[..i]
    {
      var w := input.Read();
      out0.Write(w);
      out1.Write(w);
      i := i + 1;
    }
  }

  /**
   * The two headers fork_array_dest writes differ at most in dest, open
   * bursts of the same length, and each names its own branch's target.
   */
  lemma ForkDestHeaders(header: Word, dest0: U32, dest1: U32)
    ensures HeaderOf(WithDest(header, dest0)).dest == dest0
    ensures HeaderOf(WithDest(header, dest1)).dest == dest1
    ensures HeaderOf(WithDest(header, dest0)).(dest := 0) == HeaderOf(WithDest(header, dest1)).(dest := 0)
    ensures BurstLen(WithDest(header, dest0)) == BurstLen(header) == BurstLen(WithDest(header, dest1))
  {
    var h0, h1 := WithDest(header, dest0), WithDest(header, dest1);
    assert h0[7..] == h1[7..];
  }
}
