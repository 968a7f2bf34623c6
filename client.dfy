/**
 * The client library of collectives/collectives.hpp: class ARC, through
 * which compute code on one rank issues a collective by writing a header
 * and a payload to its offload_in channel, or receives one by reading
 * from its offload_out channel.
 */
module Client {
  import opened Wrappers
  import opened Wire
  import opened Streams
  import opened Forwarding
  import opened Packing

  /** The burst a sending rank puts on offload_in: a header announcing count words, then the count words. */
  function SentBurst(t: ElemType, collective: Collective, vals: seq<int>, count: U32, root: U32, dest: U32): (b: seq<Word>)
    requires count * Width(t) <= |vals|
    ensures |b| == 1 + count && b[0] == ToWord(CreateHeader(t, collective, count, root, dest))
  {
    OffsetIsProduct(count, Width(t));
    [ToWord(CreateHeader(t, collective, count, root, dest))] + PackAll(t, vals, count)
  }

  /**
   * What a rank sends is one whole burst, and a receiver that reads the
   * header and the count words after it and unpacks them gets back the
   * sender's first count * Width(t) values, with the element type named by
   * the header.
   */
  lemma BurstRoundTrip(t: ElemType, collective: Collective, vals: seq<int>, count: U32, root: U32, dest: U32)
    requires count * Width(t) <= |vals| && AllInRange(t, vals[..count * Width(t)])
    ensures Offset(count, Width(t)) == count * Width(t)
    ensures var b := SentBurst(t, collective, vals, count, root, dest);
      && Framed(b) && Bursts(b) == [b]
      && ElemTypeOfCode(HeaderOf(b[0]).dataType) == Some(t)
      && UnpackAll(t, b[1..]) == vals[..count * Width(t)]
  {
    OffsetIsProduct(count, Width(t));
    var b := SentBurst(t, collective, vals, count, root, dest);
    SingleBurst(b);
    assert b[1..] == PackAll(t, vals, count);
    UnpackPackAll(t, vals, count);
  }

  /**
   * The stray word of the as-written write_array: for an odd count it
   * sends count + 1 words behind a header announcing count, so a reader
   * that takes the announced burst off the channel finds, where the next
   * header belongs, the word packed from the Width(t) elements past the
   * caller's count * Width(t).
   */
  lemma AsWrittenStrayWord(t: ElemType, vals: seq<int>, header: Word, ws: seq<Word>)
    requires CountOf(header) % 2 == 1
    requires Offset(CountOf(header), Width(t)) <= |vals|
    requires SentAsWritten(t, vals, CountOf(header), ws)
    ensures var count := CountOf(header);
      var b := [header] + ws;
      && BurstReady(b)
      && Burst(b) == [header] + PackAll(t, vals, count)
      && AfterBurst(b) == [ws[count]]
    ensures var count := CountOf(header);
      Offset(count + 1, Width(t)) <= |vals| ==>
        ws[count] == Pack(t, vals[Offset(count, Width(t))..Offset(count + 1, Width(t))])
  {
    var count := CountOf(header);
    var burst := [header] + PackAll(t, vals, count);
    assert [header] + ws == burst + [ws[count]] by {
      assert ws == ws[..count] + [ws[count]];
    }
    assert Burst(burst) == burst && AfterBurst(burst) == [];
    BurstOfAppend(burst, [ws[count]]);
    if Offset(count + 1, Width(t)) <= |vals| {
      StrayWordInBounds(t, vals, count, ws);
    }
  }

  /**
   * The corrected write_array behind a header announcing count words puts
   * exactly one whole burst on the channel.
   */
  lemma WrittenBurstFramed(t: ElemType, vals: seq<int>, header: Word)
    requires Offset(CountOf(header), Width(t)) <= |vals|
    ensures var b := [header] + PackAll(t, vals, CountOf(header));
      Framed(b) && Bursts(b) == [b]
  {
    SingleBurst([header] + PackAll(t, vals, CountOf(header)));
  }

  /** class ARC: one rank's handle on its local offload channel pair. */
  class Arc {
    const rank: U32
    const size: U32
    const offloadIn: Stream
    const offloadOut: Stream

    constructor (rank: U32, size: U32, offloadIn: Stream, offloadOut: Stream)
      ensures this.rank == rank && this.size == size
      ensures this.offloadIn == offloadIn && this.offloadOut == offloadOut
    {
      this.rank := rank;
      this.size := size;
      this.offloadIn := offloadIn;
      this.offloadOut := offloadOut;
    }

    /**
     * p2p<T>: the root sends a P2P header (count, root, dest) and its
     * first count * Width(t) values; otherwise the destination reads a
     * header, which it ignores, and count words into values; any other
     * rank does nothing. The root test comes first, so a rank that is
     * both root and dest only sends.
     */
    method P2P(t: ElemType, values: array<int>, count: U32, root: U32, dest: U32)
      requires offloadIn != offloadOut
      requires rank == root || rank == dest ==> count * Width(t) <= values.Length
      requires rank != root && rank == dest ==> 1 + count <= |offloadOut.q|
      modifies offloadIn, offloadOut, values
      ensures rank == root ==>
        && offloadIn.q == old(offloadIn.q) + SentBurst(t, Collective.P2P, old(values[..]), count, root, dest)
        && offloadOut.q == old(offloadOut.q) && values[..] == old(values[..])
      ensures rank != root && rank == dest ==>
        && offloadOut.q == old(offloadOut.q)[1 + count..]
        && values[..count * Width(t)] == UnpackAll(t, old(offloadOut.q)[1..1 + count])
        && values[count * Width(t)..] == old(values[count * Width(t)..])
        && offloadIn.q == old(offloadIn.q)
      ensures rank != root && rank != dest ==>
        offloadIn.q == old(offloadIn.q) && offloadOut.q == old(offloadOut.q) && values[..] == old(values[..])
    {
      if rank == root {
        OffloadWrite(t, Collective.P2P, values, count, root, dest);
      } else if rank == dest {
        OffloadRead(t, values, count);
      }
    }

    /**
     * bcast<T>: the root sends a Bcast header (count, root, dest 0) and its
     * first count * Width(t) values; every other rank reads a header, which
     * it ignores, and count words into values.
     */
    method Bcast(t: ElemType, values: array<int>, count: U32, root: U32)
      requires offloadIn != offloadOut
      requires count * Width(t) <= values.Length
      requires rank != root ==> 1 + count <= |offloadOut.q|
      modifies offloadIn, offloadOut, values
      ensures rank == root ==>
        && offloadIn.q == old(offloadIn.q) + SentBurst(t, Collective.Bcast, old(values[..]), count, root, 0)
        && offloadOut.q == old(offloadOut.q) && values[..] == old(values[..])
      ensures rank != root ==>
        && offloadOut.q == old(offloadOut.q)[1 + count..]
        && values[..count * Width(t)] == UnpackAll(t, old(offloadOut.q)[1..1 + count])
        && values[count * Width(t)..] == old(values[count * Width(t)..])
        && offloadIn.q == old(offloadIn.q)
    {
      if rank == root {
        OffloadWrite(t, Collective.Bcast, values, count, root, 0);
      } else {
        OffloadRead(t, values, count);
      }
    }

    /** The sending half of p2p and bcast: header, then write_array. */
    method OffloadWrite(t: ElemType, collective: Collective, values: array<int>, count: U32, root: U32, dest: U32)
      requires count * Width(t) <= values.Length
      modifies offloadIn
      ensures offloadIn.q == old(offloadIn.q) + SentBurst(t, collective, values[..], count, root, dest)
    {
      OffsetIsProduct(count, Width(t));
      var header := ToWord(CreateHeader(t, collective, count, root, dest));
      offloadIn.Write(header);
      WriteArray(offloadIn, t, values, count);
    }

    /** The receiving half of p2p and bcast: read the header, then read_array. */
    method OffloadRead(t: ElemType, values: array<int>, count: U32)
      requires count * Width(t) <= values.Length
      requires 1 + count <= |offloadOut.q|
      modifies offloadOut, values
      ensures offloadOut.q == old(offloadOut.q)[1 + count..]
      ensures values[..count * Width(t)] == UnpackAll(t, old(offloadOut.q)[1..1 + count])
      ensures values[count * Width(t)..] == old(values[count * Width(t)..])
    {
      OffsetIsProduct(count, Width(t));
      var header := offloadOut.Read();
      assert offloadOut.q == old(offloadOut.q)[1..];
      assert offloadOut.q[..count] == old(offloadOut.q)[1..1 + count];
      ReadArray(offloadOut, t, values, count);
    }
  }
}
