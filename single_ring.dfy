/**
 * One iteration of the polling loop of the older single-ring router
 * `offload` of collectives/offload.cpp. Every burst travels one way
 * around ring 0; a rank decides from the header's root whether a burst
 * arriving from the ring is its own (returning) one. Ring 1 is wired
 * but idle.
 */
module SingleRing {
  import opened Wire
  import opened Streams
  import opened Forwarding

  /** The router's rank is a C `int`; comparing it with the unsigned root converts it to 32 bits. */
  predicate IsInt32(rank: int) { -TWO31 <= rank < TWO31 }

  function RankBits(rank: int): (r: U32)
    requires IsInt32(rank)
    ensures 0 <= rank ==> r == rank
  {
    rank % TWO32
  }

  /** Whether the header names this rank as its root. */
  predicate AtRoot(rank: int, h: Word)
    requires IsInt32(rank)
  {
    HeaderOf(h).root == RankBits(rank)
  }

  /** ring_0_in holds the whole burst whenever the router will stream or fork it. */
  predicate RingReady(rank: int, q: seq<Word>)
    requires IsInt32(rank)
  {
    var streamed := q != [] && (HeaderOf(q[0]).collective == Collective.P2P.Code()
                                || (HeaderOf(q[0]).collective == Collective.Bcast.Code() && !AtRoot(rank, q[0])));
    streamed ==> BurstReady(q)
  }

  /** Where one poll of ring_0_in sends words: what stays on ring_0_in, what goes on round the ring, what is delivered locally. */
  datatype RingPoll = RingPoll(rest: seq<Word>, onward: seq<Word>, local: seq<Word>)

  /**
   * A Barrier header goes on unless this rank is its root; a P2P burst is
   * delivered locally at its root and goes on elsewhere; a Bcast burst is
   * both delivered and sent on except at its root, where only the header
   * is consumed; any other header is consumed alone.
   */
  function PollRing(rank: int, q: seq<Word>): (p: RingPoll)
    requires IsInt32(rank) && RingReady(rank, q)
    ensures |p.rest| <= |q| && p.rest == q[|q| - |p.rest|..]
    ensures q != [] ==> |p.rest| < |q|
    ensures p.onward == [] || p.onward == q[..|q| - |p.rest|]
    ensures p.local == [] || p.local == q[..|q| - |p.rest|]
  {
    if q == [] then RingPoll([], [], [])
    else
      var h := q[0];
      var c := HeaderOf(h).collective;
      if c == Collective.Barrier.Code() then RingPoll(q[1..], if AtRoot(rank, h) then [] else [h], [])
      else if c == Collective.P2P.Code() then
        if AtRoot(rank, h) then RingPoll(AfterBurst(q), [], Burst(q)) else RingPoll(AfterBurst(q), Burst(q), [])
      else if c == Collective.Bcast.Code() && !AtRoot(rank, h) then RingPoll(AfterBurst(q), Burst(q), Burst(q))
      else RingPoll(q[1..], [], [])
  }

  /** offload_in holds the whole burst whenever the router will stream it. */
  predicate LocalReady(q: seq<Word>)
  {
    var streamed := q != [] && (HeaderOf(q[0]).collective == Collective.P2P.Code()
                                || HeaderOf(q[0]).collective == Collective.Bcast.Code());
    streamed ==> BurstReady(q)
  }

  /** What one poll of offload_in leaves there and sends onto the ring. */
  datatype LocalPoll = LocalPoll(rest: seq<Word>, onward: seq<Word>)

  /** A local Barrier header goes onto the ring alone, a P2P or Bcast burst whole; any other header is consumed. */
  function PollLocal(q: seq<Word>): (p: LocalPoll)
    requires LocalReady(q)
    ensures |p.rest| <= |q| && p.rest == q[|q| - |p.rest|..]
    ensures q != [] ==> |p.rest| < |q|
    ensures p.onward == [] || p.onward == q[..|q| - |p.rest|]
  {
    if q == [] then LocalPoll([], [])
    else
      var c := HeaderOf(q[0]).collective;
      if c == Collective.Barrier.Code() then LocalPoll(q[1..], [q[0]])
      else if c == Collective.P2P.Code() || c == Collective.Bcast.Code() then LocalPoll(AfterBurst(q), Burst(q))
      else LocalPoll(q[1..], [])
  }

  /**
   * A framed P2P or non-root Bcast burst arriving from the ring is passed
   * on and delivered as one whole, unchanged burst, and ring_0_in stays
   * framed: a P2P burst goes to exactly one of the two outputs, to the
   * local one exactly at its root.
   */
  lemma RingBurstWhole(rank: int, q: seq<Word>)
    requires IsInt32(rank) && Framed(q) && q != []
    requires HeaderOf(q[0]).collective == Collective.P2P.Code()
             || (HeaderOf(q[0]).collective == Collective.Bcast.Code() && !AtRoot(rank, q[0]))
    ensures var p := PollRing(rank, q);
      && p.rest == AfterBurst(q) && Framed(p.rest)
      && (HeaderOf(q[0]).collective == Collective.Bcast.Code() ==> p.onward == p.local == Bursts(q)[0])
      && (HeaderOf(q[0]).collective == Collective.P2P.Code() ==>
            if AtRoot(rank, q[0]) then p.local == Bursts(q)[0] && p.onward == []
            else p.onward == Bursts(q)[0] && p.local == [])
  {
    AfterBurstFramed(q);
  }

  /**
   * A Barrier arriving from the ring is passed on exactly when this rank
   * is not its root, and nothing is delivered locally.
   */
  lemma RingBarrier(rank: int, q: seq<Word>)
    requires IsInt32(rank) && q != [] && HeaderOf(q[0]).collective == Collective.Barrier.Code()
    ensures var p := PollRing(rank, q);
      && p.rest == q[1..] && p.local == []
      && (p.onward == [q[0]] <==> !AtRoot(rank, q[0]))
      && (p.onward == [] <==> AtRoot(rank, q[0]))
  {
  }

  /**
   * A Bcast returning to its root loses its header only: the next words
   * polled from ring_0_in are the burst's own payload, which the router
   * will then read as headers.
   */
  lemma {:induction false} RootBcastLeavesPayload(rank: int, q: seq<Word>)
    requires IsInt32(rank) && Framed(q) && q != []
    requires HeaderOf(q[0]).collective == Collective.Bcast.Code() && AtRoot(rank, q[0])
    ensures var p := PollRing(rank, q);
      && p.onward == [] && p.local == []
      && p.rest == Bursts(q)[0][1..] + AfterBurst(q)
      && (CountOf(q[0]) > 0 ==> p.rest != AfterBurst(q))
  {
    var b := Burst(q);
    assert q == b + AfterBurst(q);
    assert q[1..] == b[1..] + AfterBurst(q);
    if CountOf(q[0]) > 0 {
      assert |q[1..]| > |AfterBurst(q)|;
    }
  }

  /** Local traffic sent onto the ring keeps offload_in and the ring framed. */
  lemma LocalFramed(q: seq<Word>)
    requires Framed(q) && q != []
    requires HeaderOf(q[0]).collective == Collective.P2P.Code()
             || HeaderOf(q[0]).collective == Collective.Bcast.Code()
             || (HeaderOf(q[0]).collective == Collective.Barrier.Code() && CountOf(q[0]) == 0)
    ensures var p := PollLocal(q);
      && p.rest == AfterBurst(q) && Framed(p.rest)
      && p.onward == Bursts(q)[0] && Framed(p.onward)
  {
    AfterBurstFramed(q);
    SingleBurst(Burst(q));
  }

  /**
   * One pass of the while(true) loop. The six channels are distinct;
   * every burst the router streams is already queued, and so is the word
   * ring 1 would relay.
   */
  method SingleRingStep(rank: int, ring0In: Stream, ring0Out: Stream, ring1In: Stream, ring1Out: Stream,
                        offloadIn: Stream, offloadOut: Stream)
    requires IsInt32(rank)
    requires ring0In != ring0Out && ring0In != ring1In && ring0In != ring1Out && ring0In != offloadIn && ring0In != offloadOut
    requires ring0Out != ring1In && ring0Out != ring1Out && ring0Out != offloadIn && ring0Out != offloadOut
    requires ring1In != ring1Out && ring1In != offloadIn && ring1In != offloadOut
    requires ring1Out != offloadIn && ring1Out != offloadOut
    requires offloadIn != offloadOut
    requires RingReady(rank, ring0In.q) && LocalReady(offloadIn.q)
    requires rank > 999999 ==> ring1In.q != []
    modifies ring0In, ring0Out, ring1In, ring1Out, offloadIn, offloadOut
    ensures var p, l := PollRing(rank, old(ring0In.q)), PollLocal(old(offloadIn.q));
      && ring0In.q == p.rest && offloadIn.q == l.rest
      && ring0Out.q == old(ring0Out.q) + p.onward + l.onward
      && offloadOut.q == old(offloadOut.q) + p.local
    ensures rank > 999999 ==> ring1In.q == old(ring1In.q)[1..] && ring1Out.q == old(ring1Out.q) + [old(ring1In.q)[0]]
    ensures rank <= 999999 ==> ring1In.q == old(ring1In.q) && ring1Out.q == old(ring1Out.q)
  {
    FromRing(rank, ring0In, ring0Out, offloadOut);
    FromLocal(offloadIn, ring0Out);
    if rank > 999999 {
      var w := ring1In.Read();
      ring1Out.Write(w);
    }
  }

  /** Poll ring_0_in and route what it holds, as PollRing says. */
  method FromRing(rank: int, ring0In: Stream, ring0Out: Stream, offloadOut: Stream)
    requires IsInt32(rank) && RingReady(rank, ring0In.q)
    requires ring0In != ring0Out && ring0In != offloadOut && ring0Out != offloadOut
    modifies ring0In, ring0Out, offloadOut
    ensures var p := PollRing(rank, old(ring0In.q));
      && ring0In.q == p.rest
      && ring0Out.q == old(ring0Out.q) + p.onward
      && offloadOut.q == old(offloadOut.q) + p.local
  {
    var polled := ring0In.ReadNb();
    if polled.Some? {
      var header := polled.value;
      var c := HeaderOf(header).collective;
      if c == Collective.Barrier.Code() {
        if !AtRoot(rank, header) {
          ring0Out.Write(header);
        }
      } else if c == Collective.P2P.Code() {
        if AtRoot(rank, header) {
          StreamArray(header, ring0In, offloadOut);
        } else {
          StreamArray(header, ring0In, ring0Out);
        }
      } else if c == Collective.Bcast.Code() {
        if !AtRoot(rank, header) {
          ForkArray(header, ring0In, ring0Out, offloadOut);
        }
      }
    }
  }

  /** Poll offload_in and send what it holds onto the ring, as PollLocal says. */
  method FromLocal(offloadIn: Stream, ring0Out: Stream)
    requires offloadIn != ring0Out && LocalReady(offloadIn.q)
    modifies offloadIn, ring0Out
    ensures offloadIn.q == PollLocal(old(offloadIn.q)).rest
    ensures ring0Out.q == old(ring0Out.q) + PollLocal(old(offloadIn.q)).onward
  {
    var polled := offloadIn.ReadNb();
    if polled.Some? {
      var header := polled.value;
      var c := HeaderOf(header).collective;
      if c == Collective.Barrier.Code() {
        ring0Out.Write(header);
      } else if c == Collective.P2P.Code() || c == Collective.Bcast.Code() {
        StreamArray(header, offloadIn, ring0Out);
      }
    }
  }
}
