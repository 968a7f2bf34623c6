/**
 * One iteration of the polling loop of the ring router `offload` of
 * collectives/offload/offload.cpp. The router polls, in this order, the
 * receive channels from its east and west neighbours and the local
 * offload_in channel; a header found on one of them decides where its
 * burst goes.
 */
module Router {
  import opened Wire
  import opened Streams
  import opened Forwarding
  import opened RingTopology

  /** The collectives the router handles: Barrier, P2P and Bcast. */
  predicate Handled(w: Word)
  {
    var c := HeaderOf(w).collective;
    c == Collective.Barrier.Code() || c == Collective.P2P.Code() || c == Collective.Bcast.Code()
  }

  /** A receive channel whose front header is handled holds that whole burst, as stream_array's reads need. */
  predicate RxReady(rx: seq<Word>)
  {
    rx != [] && Handled(rx[0]) ==> BurstReady(rx)
  }

  /** What polling a receive channel sends to offload_out: the front burst if handled, else nothing. */
  function Delivered(rx: seq<Word>): seq<Word>
    requires RxReady(rx)
  {
    if rx != [] && Handled(rx[0]) then Burst(rx) else []
  }

  /** What polling leaves on a receive channel: an unhandled header is consumed alone. */
  function RxRest(rx: seq<Word>): seq<Word>
    requires RxReady(rx)
  {
    if rx == [] then [] else if Handled(rx[0]) then AfterBurst(rx) else rx[1..]
  }

  /**
   * Polling a framed receive channel whose front header is handled loses
   * and reorders nothing: the whole front burst goes to offload_out and
   * the channel keeps the rest, still framed.
   */
  lemma DeliverFramed(rx: seq<Word>)
    requires Framed(rx) && rx != [] && Handled(rx[0])
    ensures Delivered(rx) == Bursts(rx)[0]
    ensures Delivered(rx) + RxRest(rx) == rx
    ensures Framed(Delivered(rx)) && Framed(RxRest(rx))
  {
    SingleBurst(Burst(rx));
  }

  /** offload_in holds the whole burst its front header announces, where the router will stream it. */
  predicate TxReady(q: seq<Word>)
  {
    var streamed := q != [] && (HeaderOf(q[0]).collective == Collective.P2P.Code() || HeaderOf(q[0]).collective == Collective.Bcast.Code());
    streamed ==> BurstReady(q)
  }

  /** Where one poll of offload_in sends words: what stays on offload_in, what goes east, what goes west. */
  datatype Dispatch = Dispatch(rest: seq<Word>, east: seq<Word>, west: seq<Word>)

  /**
   * The offload_in branch: a Barrier header alone goes east; a P2P burst
   * goes west if go_west(dest), else east; a Bcast burst is forked, east
   * with dest = furthest_rank() and west with dest =
   * rank_east(furthest_rank()); any other header is consumed alone.
   */
  function DispatchLocal(ring: Ring, q: seq<Word>): Dispatch
    requires ring.Valid() && TxReady(q)
  {
    if q == [] then Dispatch([], [], [])
    else
      var h := q[0];
      var c := HeaderOf(h).collective;
      if c == Collective.Barrier.Code() then Dispatch(q[1..], [h], [])
      else if c == Collective.P2P.Code() then
        if ring.GoWest(HeaderOf(h).dest) then Dispatch(AfterBurst(q), [], Burst(q))
        else Dispatch(AfterBurst(q), Burst(q), [])
      else if c == Collective.Bcast.Code() then
        var f := ring.FurthestRank(ring.rank);
        var payload := Burst(q)[1..];
        Dispatch(AfterBurst(q), [WithDest(h, f)] + payload, [WithDest(h, ring.RankEast(f))] + payload)
      else Dispatch(q[1..], [], [])
  }

  /**
   * One poll of offload_in consumes a non-empty prefix of a non-empty
   * channel and leaves the rest in place; whatever it sends east or west
   * is that prefix with at most the header word rewritten.
   */
  lemma DispatchConsumes(ring: Ring, q: seq<Word>)
    requires ring.Valid() && TxReady(q)
    ensures var d := DispatchLocal(ring, q);
      && |d.rest| <= |q| && d.rest == q[|q| - |d.rest|..]
      && (q != [] ==> |d.rest| < |q|)
      && (d.east == [] || (|d.east| == |q| - |d.rest| && d.east[1..] == q[1..|d.east|]))
      && (d.west == [] || (|d.west| == |q| - |d.rest| && d.west[1..] == q[1..|d.west|]))
  {
  }

  /**
   * A local P2P burst goes whole and unchanged to exactly one neighbour,
   * the one on the shorter way to dest (east on a tie), at most size/2
   * hops away; offload_in keeps the rest of its bursts.
   */
  lemma DispatchP2P(ring: Ring, q: seq<Word>)
    requires ring.Valid() && Framed(q) && q != []
    requires HeaderOf(q[0]).collective == Collective.P2P.Code()
    requires HeaderOf(q[0]).dest < ring.size && HeaderOf(q[0]).dest != ring.rank
    ensures var d, dest := DispatchLocal(ring, q), HeaderOf(q[0]).dest;
      && d.rest == AfterBurst(q) && Framed(d.rest)
      && (if ring.GoWest(dest) then d.west == Bursts(q)[0] && d.east == []
          else d.east == Bursts(q)[0] && d.west == [])
      && (if ring.GoWest(dest) then ring.DistanceWest(dest) else ring.DistanceEast(dest)) <= ring.size / 2
  {
    GoWestShortest(ring, HeaderOf(q[0]).dest);
  }

  /**
   * A local Bcast burst is forked into two bursts that differ from it
   * only in dest: the east copy is addressed to the last rank of the east
   * arc; for size >= 3 the west copy is addressed to the last rank of the
   * west arc, and for size 2 it is addressed to the root itself.
   */
  lemma DispatchBcast(ring: Ring, q: seq<Word>)
    requires ring.Valid() && ring.size >= 2 && Framed(q) && q != []
    requires HeaderOf(q[0]).collective == Collective.Bcast.Code()
    ensures var d, b := DispatchLocal(ring, q), Bursts(q)[0];
      && d.rest == AfterBurst(q) && Framed(d.rest)
      && Framed(d.east) && Framed(d.west)
      && |d.east| == |d.west| == |b|
      && d.east[1..] == d.west[1..] == b[1..]
      && HeaderOf(d.east[0]) == HeaderOf(b[0]).(dest := HeaderOf(d.east[0]).dest)
      && HeaderOf(d.west[0]) == HeaderOf(b[0]).(dest := HeaderOf(d.west[0]).dest)
      && HeaderOf(d.east[0]).dest == ring.EastArc()[ring.size / 2 - 1]
      && (ring.size >= 3 ==> HeaderOf(d.west[0]).dest == ring.WestArc()[ring.size - 2 - ring.size / 2])
      && (ring.size == 2 ==> HeaderOf(d.west[0]).dest == ring.rank)
  {
    var d, b := DispatchLocal(ring, q), Burst(q);
    var f := ring.FurthestRank(ring.rank);
    BcastTargets(ring);
    ForkDestHeaders(q[0], f, ring.RankEast(f));
    SingleBurst(d.east);
    SingleBurst(d.west);
  }

  /** A local Barrier sends only its header east; it is a whole burst when its count is 0. */
  lemma DispatchBarrier(ring: Ring, q: seq<Word>)
    requires ring.Valid() && Framed(q) && q != []
    requires HeaderOf(q[0]).collective == Collective.Barrier.Code()
    ensures var d := DispatchLocal(ring, q);
      && d.east == [q[0]] && d.west == [] && d.rest == q[1..]
      && (CountOf(q[0]) == 0 ==> Framed(d.east) && d.rest == AfterBurst(q) && Framed(d.rest))
  {
    if CountOf(q[0]) == 0 {
      SingleBurst([q[0]]);
    }
  }

  /**
   * One pass of the while(true) loop of offload. The six channels are
   * distinct, and each burst the router streams is already queued.
   */
  method OffloadStep(ring: Ring, eastRx: Stream, eastTx: Stream, westRx: Stream, westTx: Stream,
                     offloadIn: Stream, offloadOut: Stream)
    requires ring.Valid()
    requires eastRx != eastTx && eastRx != westRx && eastRx != westTx && eastRx != offloadIn && eastRx != offloadOut
    requires eastTx != westRx && eastTx != westTx && eastTx != offloadIn && eastTx != offloadOut
    requires westRx != westTx && westRx != offloadIn && westRx != offloadOut
    requires westTx != offloadIn && westTx != offloadOut
    requires offloadIn != offloadOut
    requires RxReady(eastRx.q) && RxReady(westRx.q) && TxReady(offloadIn.q)
    modifies eastRx, eastTx, westRx, westTx, offloadIn, offloadOut
    ensures eastRx.q == RxRest(old(eastRx.q)) && westRx.q == RxRest(old(westRx.q))
    ensures offloadOut.q == old(offloadOut.q) + Delivered(old(eastRx.q)) + Delivered(old(westRx.q))
    ensures var d := DispatchLocal(ring, old(offloadIn.q));
      && offloadIn.q == d.rest
      && eastTx.q == old(eastTx.q) + d.east
      && westTx.q == old(westTx.q) + d.west
  {
    Receive(eastRx, offloadOut);
    Receive(westRx, offloadOut);
    Transmit(ring, offloadIn, eastTx, westTx);
  }

  /** Poll offload_in and route what it holds, as DispatchLocal says. */
  method Transmit(ring: Ring, offloadIn: Stream, eastTx: Stream, westTx: Stream)
    requires ring.Valid() && TxReady(offloadIn.q)
    requires offloadIn != eastTx && offloadIn != westTx && eastTx != westTx
    modifies offloadIn, eastTx, westTx
    ensures var d := DispatchLocal(ring, old(offloadIn.q));
      && offloadIn.q == d.rest
      && eastTx.q == old(eastTx.q) + d.east
      && westTx.q == old(westTx.q) + d.west
  {
    var polled := offloadIn.ReadNb();
    if polled.Some? {
      var header := polled.value;
      var c := HeaderOf(header).collective;
      if c == Collective.Barrier.Code() {
        eastTx.Write(header);
      } else if c == Collective.P2P.Code() {
        if ring.GoWest(HeaderOf(header).dest) {
          StreamArray(header, offloadIn, westTx);
        } else {
          StreamArray(header, offloadIn, eastTx);
        }
      } else if c == Collective.Bcast.Code() {
        var furthest := ring.FurthestRank(ring.rank);
        header := ForkArrayDest(header, offloadIn, eastTx, furthest, westTx, ring.RankEast(furthest));
      }
    }
  }

  /** Poll one receive channel: a handled burst is streamed to offload_out, any other header dropped. */
  method Receive(rx: Stream, offloadOut: Stream)
    requires rx != offloadOut && RxReady(rx.q)
    modifies rx, offloadOut
    ensures rx.q == RxRest(old(rx.q))
    ensures offloadOut.q == old(offloadOut.q) + Delivered(old(rx.q))
  {
    var polled := rx.ReadNb();
    if polled.Some? && Handled(polled.value) {
      StreamArray(polled.value, rx, offloadOut);
    }
  }
}
