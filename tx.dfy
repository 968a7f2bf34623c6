/**
 * One iteration of the polling loop of the `tx` relay of
 * collectives/offload/tx.cpp: it merges the bursts arriving on ring_in
 * and on offload_in onto ring_out, without looking at their headers.
 */
module Tx {
  import opened Wire
  import opened Streams
  import opened Forwarding

  /** A channel whose front header, if any, is followed by its whole burst. */
  predicate Ready(q: seq<Word>)
  {
    q != [] ==> BurstReady(q)
  }

  /** The burst one poll takes from a channel: the front burst, or nothing when the channel is empty. */
  function Polled(q: seq<Word>): (p: seq<Word>)
    requires Ready(q)
    ensures q != [] ==> p != [] && p[0] == q[0] && |p| == BurstLen(q[0])
    ensures |p| <= |q| && p == q[..|p|]
  {
    if q == [] then [] else Burst(q)
  }

  /** What one poll leaves on a channel. */
  function Remaining(q: seq<Word>): (r: seq<Word>)
    requires Ready(q)
    ensures |r| <= |q| && r == q[|q| - |r|..]
    ensures q != [] ==> |r| < |q|
  {
    if q == [] then [] else AfterBurst(q)
  }

  /** Nothing is lost or added by a poll: the burst taken and what remains make up the channel. */
  lemma PollSplits(q: seq<Word>)
    requires Ready(q)
    ensures Polled(q) + Remaining(q) == q
  {
    if q != [] {
      assert q == Burst(q) + AfterBurst(q);
    }
  }

  /**
   * One pass of the while(true) loop: ring_out receives the front burst
   * of ring_in, then the front burst of offload_in, each unchanged.
   */
  method TxStep(ringIn: Stream, ringOut: Stream, offloadIn: Stream)
    requires ringIn != ringOut && ringIn != offloadIn && ringOut != offloadIn
    requires Ready(ringIn.q) && Ready(offloadIn.q)
    modifies ringIn, ringOut, offloadIn
    ensures ringIn.q == Remaining(old(ringIn.q)) && offloadIn.q == Remaining(old(offloadIn.q))
    ensures ringOut.q == old(ringOut.q) + Polled(old(ringIn.q)) + Polled(old(offloadIn.q))
  {
    Relay(ringIn, ringOut);
    Relay(offloadIn, ringOut);
  }

  /** Poll one channel and stream its front burst, if any, to ring_out. */
  method Relay(input: Stream, ringOut: Stream)
    requires input != ringOut && Ready(input.q)
    modifies input, ringOut
    ensures input.q == Remaining(old(input.q))
    ensures ringOut.q == old(ringOut.q) + Polled(old(input.q))
  {
    var polled := input.ReadNb();
    if polled.Some? {
      StreamArray(polled.value, input, ringOut);
    }
  }

  /**
   * On framed channels one pass keeps every channel framed and appends
   * to ring_out exactly the two front bursts, the ring_in one first, each
   * whole: the two bursts never interleave.
   */
  lemma {:induction false} TxKeepsFraming(ringIn: seq<Word>, ringOut: seq<Word>, offloadIn: seq<Word>)
    requires Framed(ringIn) && Framed(ringOut) && Framed(offloadIn)
    ensures Ready(ringIn) && Ready(offloadIn)
    ensures Framed(Remaining(ringIn)) && Framed(Remaining(offloadIn))
    ensures Framed(ringOut + Polled(ringIn) + Polled(offloadIn))
    ensures Bursts(ringOut + Polled(ringIn) + Polled(offloadIn))
            == Bursts(ringOut) + Bursts(Polled(ringIn)) + Bursts(Polled(offloadIn))
    ensures ringIn != [] ==> Bursts(Polled(ringIn)) == [Bursts(ringIn)[0]]
    ensures offloadIn != [] ==> Bursts(Polled(offloadIn)) == [Bursts(offloadIn)[0]]
  {
    PolledFramed(ringIn);
    PolledFramed(offloadIn);
    FramedAppend(ringOut, Polled(ringIn));
    FramedAppend(ringOut + Polled(ringIn), Polled(offloadIn));
  }

  lemma PolledFramed(q: seq<Word>)
    requires Framed(q)
    ensures Ready(q) && Framed(Polled(q)) && Framed(Remaining(q))
    ensures q != [] ==> Bursts(Polled(q)) == [Bursts(q)[0]]
    ensures q == [] ==> Bursts(Polled(q)) == []
  {
    if q != [] {
      AfterBurstFramed(q);
      SingleBurst(Burst(q));
    }
  }
}
