/**
 * The one-way ring proof of concept of collectives/poc/p2p_simplex.cpp:
 * rank 0 sends a P2P burst round the ring, every other rank relays it to
 * its successor, and rank 0 reads it back when it has gone all the way
 * round. Rank 0 sends with write_array as the source has it.
 */
module Simplex {
  import opened Wire
  import opened Streams
  import opened Forwarding
  import opened Packing
  import Client

  /**
   * What rank 0 reads back once its burst has gone round the ring: the
   * announced burst comes back whole and its payload unpacks to the first
   * count * Width(t) input values. For an even count the burst is all
   * that was sent; for an odd count one stray word is left behind it.
   */
  lemma SimplexRoundTrip(t: ElemType, vals: seq<int>, count: U32, ws: seq<Word>)
    requires Offset(count, Width(t)) <= |vals| && AllInRange(t, vals[..Offset(count, Width(t))])
    requires SentAsWritten(t, vals, count, ws)
    ensures var b := [ToWord(CreateHeader(t, Collective.P2P, count, 0))] + ws;
      && BurstReady(b)
      && Burst(b) == b[..1 + count]
      && |AfterBurst(b)| == count % 2
      && UnpackAll(t, Burst(b)[1..]) == vals[..Offset(count, Width(t))]
    ensures count % 2 == 0 ==>
      var b := [ToWord(CreateHeader(t, Collective.P2P, count, 0))] + ws;
      Framed(b) && Bursts(b) == [b]
  {
    var h := ToWord(CreateHeader(t, Collective.P2P, count, 0));
    var b := [h] + ws;
    if count % 2 == 1 {
      Client.AsWrittenStrayWord(t, vals, h, ws);
    } else {
      assert ws == PackAll(t, vals, count);
      Client.WrittenBurstFramed(t, vals, h);
      assert Burst(b) == b && AfterBurst(b) == [] by { assert b == Burst(b) + AfterBurst(b); }
    }
    assert Burst(b)[1..] == PackAll(t, vals, count);
    UnpackPackAll(t, vals, count);
  }

  /**
   * The whole proof of concept on a ring of |links| ranks: links[k] is the
   * channel from rank k to rank k + 1, and links[|links| - 1] leads back to
   * rank 0. Rank 0 sends, ranks 1 to |links| - 1 relay in turn, and rank 0
   * reads back; with unbounded channels this order of the ranks' steps is
   * one the concurrent kernels can take. Rank 0's output then holds its
   * input's first count * Width(t) values, every channel is empty again
   * except that an odd count leaves the stray word on rank 1's ring_in.
   */
  method SimplexRing(t: ElemType, count: U32, input: array<int>, output: array<int>, links: seq<Stream>)
    requires 1 <= |links| < TWO32
    requires forall i, j :: 0 <= i < j < |links| ==> links[i] != links[j]
    requires forall i :: 0 <= i < |links| ==> links[i].q == []
    requires Offset(count, Width(t)) <= input.Length && Offset(count, Width(t)) <= output.Length
    requires AllInRange(t, input[..Offset(count, Width(t))])
    modifies links, output
    ensures output[..Offset(count, Width(t))] == old(input[..Offset(count, Width(t))])
    ensures output[Offset(count, Width(t))..] == old(output[Offset(count, Width(t))..])
    ensures |links[0].q| == count % 2
    ensures forall i :: 1 <= i < |links| ==> links[i].q == []
  {
    ghost var b, burst := StartRound(t, count, input, links[0]);
    var k := 1;
    while k < |links|
      invariant 1 <= k <= |links|
      invariant k == 1 ==> links[0].q == b
      invariant k > 1 ==> links[0].q == AfterBurst(b) && links[k - 1].q == burst
      invariant forall j :: 1 <= j < |links| && j != k - 1 ==> links[j].q == []
      invariant output[..] == old(output[..])
    {
      RelayHop(t, count, input, output, links, k, b, burst);
      k := k + 1;
    }
    ghost var back := links[|links| - 1].q;
    assert back[..1 + count] == burst && back[1..1 + count] == burst[1..];
    ReceiveBurst(t, count, output, links[|links| - 1]);
    assert links[|links| - 1].q == back[1 + count..];
  }

  /** Rank 0 of SimplexRing sends its burst: b is what it writes, burst the part a relay passes on. */
  method StartRound(t: ElemType, count: U32, input: array<int>, first: Stream) returns (ghost b: seq<Word>, ghost burst: seq<Word>)
    requires first.q == []
    requires Offset(count, Width(t)) <= input.Length && AllInRange(t, input[..Offset(count, Width(t))])
    modifies first
    ensures first.q == b && BurstReady(b) && burst == Burst(b) && |AfterBurst(b)| == count % 2
    ensures BurstReady(burst) && Burst(burst) == burst && AfterBurst(burst) == [] && |burst| == 1 + count
    ensures UnpackAll(t, burst[1..]) == input[..Offset(count, Width(t))]
  {
    SendBurst(t, count, input, first);
    b := first.q;
    SimplexRoundTrip(t, input[..], count, b[1..]);
    assert b == [b[0]] + b[1..];
    burst := Burst(b);
    assert BurstReady(burst) && Burst(burst) == burst && AfterBurst(burst) == [] by {
      assert burst == Burst(burst) + AfterBurst(burst);
    }
  }

  /** Rank k of SimplexRing relays the burst from links[k - 1] to links[k]. */
  method RelayHop(t: ElemType, count: U32, input: array<int>, output: array<int>, links: seq<Stream>, k: nat,
                  ghost b: seq<Word>, ghost burst: seq<Word>)
    requires 1 <= k < |links| < TWO32
    requires forall i, j :: 0 <= i < j < |links| ==> links[i] != links[j]
    requires BurstReady(b) && burst == Burst(b) && BurstReady(burst) && Burst(burst) == burst && AfterBurst(burst) == []
    requires k == 1 ==> links[0].q == b
    requires k > 1 ==> links[0].q == AfterBurst(b) && links[k - 1].q == burst
    requires forall j :: 1 <= j < |links| && j != k - 1 ==> links[j].q == []
    modifies links[k - 1], links[k], output
    ensures links[0].q == AfterBurst(b) && links[k].q == burst
    ensures forall j :: 1 <= j < |links| && j != k ==> links[j].q == []
    ensures output[..] == old(output[..])
  {
    P2PSimplex(t, k as U32, count, input, output, links[k - 1], links[k]);
  }

  /**
   * p2p_simplex<T>. Rank 0 sends its burst and reads back one header and
   * count words into output; its reads block, so the returning burst is
   * taken as already queued. Any other rank reads a header and relays its
   * burst. ring_in and ring_out are distinct channels.
   */
  method P2PSimplex(t: ElemType, rank: U32, count: U32, input: array<int>, output: array<int>,
                    ringIn: Stream, ringOut: Stream)
    requires ringIn != ringOut
    requires rank == 0 ==> && Offset(count, Width(t)) <= input.Length
                           && Offset(count, Width(t)) <= output.Length
                           && 1 + count <= |ringIn.q|
    requires rank != 0 ==> BurstReady(ringIn.q)
    modifies ringIn, ringOut, output
    ensures rank == 0 ==>
      && |old(ringOut.q)| < |ringOut.q|
      && ringOut.q[..|old(ringOut.q)| + 1] == old(ringOut.q) + [ToWord(CreateHeader(t, Collective.P2P, count, 0))]
      && SentAsWritten(t, old(input[..]), count, ringOut.q[|old(ringOut.q)| + 1..])
      && ringIn.q == old(ringIn.q)[1 + count..]
      && output[..Offset(count, Width(t))] == UnpackAll(t, old(ringIn.q)[1..1 + count])
      && output[Offset(count, Width(t))..] == old(output[Offset(count, Width(t))..])
    ensures rank != 0 ==>
      && ringOut.q == old(ringOut.q) + Burst(old(ringIn.q))
      && ringIn.q == AfterBurst(old(ringIn.q))
      && output[..] == old(output[..])
  {
    if rank == 0 {
      SendBurst(t, count, input, ringOut);
      ReceiveBurst(t, count, output, ringIn);
    } else {
      var header := ringIn.Read();
      StreamArray(header, ringIn, ringOut);
    }
  }

  /** Rank 0's sending half: the P2P header, then write_array as written. */
  method SendBurst(t: ElemType, count: U32, input: array<int>, ringOut: Stream)
    requires Offset(count, Width(t)) <= input.Length
    modifies ringOut
    ensures |old(ringOut.q)| < |ringOut.q|
    ensures ringOut.q[..|old(ringOut.q)| + 1] == old(ringOut.q) + [ToWord(CreateHeader(t, Collective.P2P, count, 0))]
    ensures SentAsWritten(t, input[..], count, ringOut.q[|old(ringOut.q)| + 1..])
  {
    var header := ToWord(CreateHeader(t, Collective.P2P, count, 0));
    ringOut.Write(header);
    WriteArrayAsWritten(ringOut, t, input, count);
  }

  /** Rank 0's receiving half: read the header, then read_array. */
  method ReceiveBurst(t: ElemType, count: U32, output: array<int>, ringIn: Stream)
    requires Offset(count, Width(t)) <= output.Length && 1 + count <= |ringIn.q|
    modifies ringIn, output
    ensures ringIn.q == old(ringIn.q)[1 + count..]
    ensures output[..Offset(count, Width(t))] == UnpackAll(t, old(ringIn.q)[1..1 + count])
    ensures output[Offset(count, Width(t))..] == old(output[Offset(count, Width(t))..])
  {
    var header := ringIn.Read();
    assert ringIn.q == old(ringIn.q)[1..];
    assert ringIn.q[..count] == old(ringIn.q)[1..1 + count];
    ReadArray(ringIn, t, output, count);
  }

  /** p2p_simplex_u32: the uint32_t instance, sixteen elements to a word. */
  method P2PSimplexU32(rank: U32, count: U32, input: array<int>, output: array<int>, ringIn: Stream, ringOut: Stream)
    requires ringIn != ringOut
    requires rank == 0 ==> && Offset(count, 16) <= input.Length
                           && Offset(count, 16) <= output.Length
                           && 1 + count <= |ringIn.q|
    requires rank != 0 ==> BurstReady(ringIn.q)
    modifies ringIn, ringOut, output
    ensures rank == 0 ==>
      && |old(ringOut.q)| < |ringOut.q|
      && ringOut.q[..|old(ringOut.q)| + 1] == old(ringOut.q) + [ToWord(CreateHeader(ElemType.UInt32, Collective.P2P, count, 0))]
      && SentAsWritten(ElemType.UInt32, old(input[..]), count, ringOut.q[|old(ringOut.q)| + 1..])
      && ringIn.q == old(ringIn.q)[1 + count..]
      && output[..Offset(count, 16)] == UnpackAll(ElemType.UInt32, old(ringIn.q)[1..1 + count])
      && output[Offset(count, 16)..] == old(output[Offset(count, 16)..])
    ensures rank != 0 ==>
      && ringOut.q == old(ringOut.q) + Burst(old(ringIn.q))
      && ringIn.q == AfterBurst(old(ringIn.q))
      && output[..] == old(output[..])
  {
    P2PSimplex(ElemType.UInt32, rank, count, input, output, ringIn, ringOut);
  }
}
