/**
 * Moving arrays of elements through words and streams
 * (collectives/collectives.hpp): pack_word and unpack_word convert between
 * Width(t) elements and one word; write_array and read_array move a whole
 * array, one word per Width(t) elements, onto and off a stream.
 */
module Packing {
  import opened Wire
  import opened Streams

  /**
   * i * w, the index of the first element of word i when each word carries
   * w elements, spelt as repeated addition so that the layout proofs stay
   * in linear arithmetic; OffsetIsProduct ties it to the product.
   */
  function Offset(i: nat, w: nat): nat
  {
    if i == 0 then 0 else Offset(i - 1, w) + w
  }

  lemma {:induction false} OffsetIsProduct(i: nat, w: nat)
    ensures Offset(i, w) == i * w
  {
    if i > 0 {
      OffsetIsProduct(i - 1, w);
      assert (i - 1) * w + w == i * w;
    }
  }

  /** Later words start later. */
  lemma {:induction false} OffsetMono(i: nat, n: nat, w: nat)
    requires i <= n
    ensures Offset(i, w) <= Offset(n, w)
    decreases n - i
  {
    if i < n {
      OffsetMono(i + 1, n, w);
    }
  }

  lemma RangePrefix(t: ElemType, s: seq<int>, a: nat, b: nat)
    requires a <= b <= |s| && AllInRange(t, s[..b])
    ensures AllInRange(t, s[..a]) && AllInRange(t, s[a..b])
  {
    assert forall k :: 0 <= k < a ==> s[..a][k] == s[..b][k];
    assert forall k :: 0 <= k < b - a ==> s[a..b][k] == s[..b][a + k];
  }

  /** The n words write_array sends for the first n * Width(t) elements, word i from elements i*W .. (i+1)*W. */
  function PackAll(t: ElemType, vals: seq<int>, n: nat): (ws: seq<Word>)
    requires Offset(n, Width(t)) <= |vals|
    ensures |ws| == n
  {
    if n == 0 then []
    else PackAll(t, vals, n - 1) + [Pack(t, vals[Offset(n - 1, Width(t))..Offset(n, Width(t))])]
  }

  /** The elements read_array stores for a sequence of words, word by word. */
  function UnpackAll(t: ElemType, ws: seq<Word>): (vals: seq<int>)
    ensures |vals| == Offset(|ws|, Width(t))
    ensures AllInRange(t, vals)
  {
    if ws == [] then []
    else UnpackAll(t, ws[..|ws| - 1]) + Unpack(t, ws[|ws| - 1])
  }

  /** Word i of a read fills elements i*W .. (i+1)*W, in order. */
  lemma {:induction false} UnpackAllChunk(t: ElemType, ws: seq<Word>, i: nat)
    requires i < |ws|
    ensures Offset(i + 1, Width(t)) <= |UnpackAll(t, ws)|
    ensures UnpackAll(t, ws)[Offset(i, Width(t))..Offset(i + 1, Width(t))] == Unpack(t, ws[i])
    decreases |ws|
  {
    var w, k := Width(t), |ws| - 1;
    var prefix := UnpackAll(t, ws[..k]);
    assert UnpackAll(t, ws) == prefix + Unpack(t, ws[k]);
    if i < k {
      UnpackAllChunk(t, ws[..k], i);
      assert ws[..k][i] == ws[i];
      SliceOfAppend(prefix, Unpack(t, ws[k]), Offset(i, w), Offset(i + 1, w));
    } else {
      SliceOfAppend(prefix, Unpack(t, ws[k]), |prefix|, |prefix| + w);
    }
  }

  /** A slice of p + x that lies within p, or is exactly x. */
  lemma SliceOfAppend<T>(p: seq<T>, x: seq<T>, a: nat, b: nat)
    requires a <= b <= |p| || (a == |p| && b == |p| + |x|)
    ensures b <= |p| ==> (p + x)[a..b] == p[a..b]
    ensures a == |p| && b == |p| + |x| ==> (p + x)[a..b] == x
  {
  }

  /**
   * read_array after write_array: unpacking the n words packed from an
   * array gives back its first n * Width(t) elements exactly.
   */
  lemma {:induction false} UnpackPackAll(t: ElemType, vals: seq<int>, n: nat)
    requires Offset(n, Width(t)) <= |vals| && AllInRange(t, vals[..Offset(n, Width(t))])
    ensures UnpackAll(t, PackAll(t, vals, n)) == vals[..Offset(n, Width(t))]
  {
    if n > 0 {
      var a, b := Offset(n - 1, Width(t)), Offset(n, Width(t));
      var prev, chunk := PackAll(t, vals, n - 1), vals[a..b];
      RangePrefix(t, vals, a, b);
      UnpackPackAll(t, vals, n - 1);
      UnpackPack(t, chunk);
      UnpackAllSnoc(t, prev, Pack(t, chunk));
      SplitAt(vals, a, b);
    }
  }

  /** Reading one more word appends that word's elements. */
  lemma UnpackAllSnoc(t: ElemType, ws: seq<Word>, w: Word)
    ensures UnpackAll(t, ws + [w]) == UnpackAll(t, ws) + Unpack(t, w)
  {
    assert (ws + [w])[..|ws|] == ws;
  }

  lemma SplitAt(s: seq<int>, a: nat, b: nat)
    requires a <= b <= |s|
    ensures s[..b] == s[..a] + s[a..b]
  {
  }

  /** Packing the words that were read reproduces them: no word is lost in the element view. */
  lemma {:induction false} PackUnpackAll(t: ElemType, ws: seq<Word>)
    ensures PackAll(t, UnpackAll(t, ws), |ws|) == ws
    decreases |ws|
  {
    if ws != [] {
      var w, k := Width(t), |ws| - 1;
      var vals := UnpackAll(t, ws);
      assert vals[..Offset(k, w)] == UnpackAll(t, ws[..k]);
      PackAllPrefix(t, vals, UnpackAll(t, ws[..k]), k);
      PackUnpackAll(t, ws[..k]);
      UnpackAllChunk(t, ws, k);
      PackUnpack(t, ws[k]);
    }
  }

  /** PackAll only looks at the first n * Width(t) elements. */
  lemma {:induction false} PackAllPrefix(t: ElemType, vals: seq<int>, other: seq<int>, n: nat)
    requires Offset(n, Width(t)) <= |vals| && Offset(n, Width(t)) <= |other|
    requires vals[..Offset(n, Width(t))] == other[..Offset(n, Width(t))]
    ensures PackAll(t, vals, n) == PackAll(t, other, n)
  {
    if n > 0 {
      var a, b := Offset(n - 1, Width(t)), Offset(n, Width(t));
      assert vals[..a] == other[..a] by {
        assert vals[..a] == vals[..b][..a];
        assert other[..a] == other[..b][..a];
      }
      assert vals[a..b] == other[a..b] by {
        assert vals[a..b] == vals[..b][a..];
        assert other[a..b] == other[..b][a..];
      }
      PackAllPrefix(t, vals, other, n - 1);
    }
  }

  /** pack_word: the word holding values[offset .. offset + Width(t)]. */
  method PackWord(t: ElemType, values: array<int>, offset: nat) returns (word: Word)
    requires offset + Width(t) <= values.Length
    ensures word == Pack(t, values[offset..offset + Width(t)])
  {
    ghost var vals := values[offset..offset + Width(t)];
    // the union starts out undefined; every lane is overwritten below
    var lanes: seq<U32> := [0, 0, 0, 0, 0, 0, 0, 0, 0, 0, 0, 0, 0, 0, 0, 0];
    var i := 0;
    while i < Width(t)
      invariant 0 <= i <= Width(t) && |lanes| == 16
      invariant forall j :: 0 <= j < (if Is64(t) then 2 * i else i) ==> lanes[j] == PackLane(t, vals, j)
    {
      assert values[offset + i] == vals[i];
      if Is64(t) {
        var u := ToBits(t, values[offset + i]);
        assert (2 * i) / 2 == i && (2 * i + 1) / 2 == i && (2 * i + 1) % 2 == 1;
        lanes := lanes[2 * i := u % TWO32][2 * i + 1 := u / TWO32];
      } else {
        lanes := lanes[i := ToBits(t, values[offset + i])];
      }
      i := i + 1;
    }
    word := lanes;
    assert forall j :: 0 <= j < 16 ==> word[j] == Pack(t, vals)[j];
  }

  /** unpack_word: store the Width(t) elements of a word at values[offset ..]; nothing else changes. */
  method UnpackWord(t: ElemType, word: Word, values: array<int>, offset: nat)
    requires offset + Width(t) <= values.Length
    modifies values
    ensures values[offset..offset + Width(t)] == Unpack(t, word)
    ensures values[..offset] == old(values[..offset])
    ensures values[offset + Width(t)..] == old(values[offset + Width(t)..])
  {
    var i := 0;
    while i < Width(t)
      invariant 0 <= i <= Width(t)
      invariant forall k :: 0 <= k < i ==> values[offset + k] == UnpackElem(t, word, k)
      invariant forall k :: 0 <= k < values.Length && !(offset <= k < offset + i) ==> values[k] == old(values[k])
    {
      values[offset + i] := UnpackElem(t, word, i);
      i := i + 1;
    }
    assert forall k :: 0 <= k < Width(t) ==> values[offset..offset + Width(t)][k] == Unpack(t, word)[k];
  }

  /**
   * One `out.write` of the word pack_word makes from values + i * width:
   * a stream that held `sent` followed by the first i words of the array
   * then holds `sent` followed by the first i + 1.
   */
  method WriteWord(output: Stream, t: ElemType, values: array<int>, i: nat, ghost vals: seq<int>, ghost sent: seq<Word>)
    requires vals == values[..] && Offset(i + 1, Width(t)) <= |vals|
    requires output.q == sent + PackAll(t, vals, i)
    modifies output
    ensures output.q == sent + PackAll(t, vals, i + 1)
  {
    OffsetIsProduct(i, Width(t));
    var data := PackWord(t, values, i * Width(t));
    output.Write(data);
  }

  /** The number of words the as-written write_array sends: count rounded up to the next even number. */
  function RoundUp(count: nat): (n: nat)
    ensures n % 2 == 0 && count <= n <= count + 1
  {
    count + count % 2
  }

  /** RoundUp(count) as twice the number of loop iterations. */
  lemma Pairs(count: nat) returns (pairs: nat)
    ensures RoundUp(count) == 2 * pairs
  {
    pairs := (count + 1) / 2;
  }

  /**
   * What write_array as written sends for count: RoundUp(count) words, of
   * which the first count are packed from the caller's first
   * count * Width(t) elements. For an odd count the last word is packed
   * from the Width(t) elements after those; when the buffer holds them it
   * is their word, and otherwise it comes from memory past the buffer,
   * about which nothing is promised.
   */
  predicate SentAsWritten(t: ElemType, vals: seq<int>, count: nat, ws: seq<Word>)
    requires Offset(count, Width(t)) <= |vals|
  {
    && |ws| == RoundUp(count)
    && ws[..count] == PackAll(t, vals, count)
    && (Offset(RoundUp(count), Width(t)) <= |vals| ==> ws == PackAll(t, vals, RoundUp(count)))
  }

  /** When the buffer holds the elements past count, the stray word is packed from them. */
  lemma StrayWordInBounds(t: ElemType, vals: seq<int>, count: nat, ws: seq<Word>)
    requires count % 2 == 1 && Offset(count + 1, Width(t)) <= |vals|
    requires SentAsWritten(t, vals, count, ws)
    ensures ws[count] == Pack(t, vals[Offset(count, Width(t))..Offset(count + 1, Width(t))])
  {
    assert RoundUp(count) == count + 1;
    var all := PackAll(t, vals, count + 1);
    assert ws == all;
    assert all == PackAll(t, vals, count) + [Pack(t, vals[Offset(count, Width(t))..Offset(count + 1, Width(t))])];
  }

  /**
   * write_array exactly as the source has it: two words per iteration,
   * and the guard meant to stop the second word when count is odd
   * (i < count) always holds inside the loop. So it sends count + count % 2
   * words, and for an odd count the last one is packed from the Width(t)
   * elements just past the first count * Width(t), which may lie past the
   * end of the caller's buffer.
   */
  method WriteArrayAsWritten(output: Stream, t: ElemType, values: array<int>, count: U32)
    requires Offset(count, Width(t)) <= values.Length
    modifies output
    ensures |old(output.q)| <= |output.q| && output.q[..|old(output.q)|] == old(output.q)
    ensures SentAsWritten(t, values[..], count, output.q[|old(output.q)|..])
  {
    ghost var vals, sent := values[..], output.q;
    ghost var padded := ZeroPadded(vals, Offset(RoundUp(count), Width(t)));
    ghost var pairs := Pairs(count);
    var i := 0;
    ghost var j := 0;
    while i < count
      invariant i == 2 * j && j <= pairs
      invariant Offset(i, Width(t)) <= |padded|
      invariant output.q == sent + PackAll(t, padded, i)
    {
      WritePairAsWritten(output, t, values, i, count, padded, sent);
      i, j := i + 2, j + 1;
    }
    assert i == 2 * pairs;
    AsWrittenSent(t, vals, count, padded);
    assert output.q[|sent|..] == PackAll(t, padded, RoundUp(count));
  }

  /** One iteration of write_array as written: word i, then word i + 1 under a guard that holds. */
  method WritePairAsWritten(output: Stream, t: ElemType, values: array<int>, i: nat, count: nat,
                            ghost padded: seq<int>, ghost sent: seq<Word>)
    requires padded == ZeroPadded(values[..], Offset(RoundUp(count), Width(t)))
    requires i < count && i + 2 <= RoundUp(count) && Offset(i, Width(t)) <= |padded|
    requires output.q == sent + PackAll(t, padded, i)
    modifies output
    ensures Offset(i + 2, Width(t)) <= |padded|
    ensures output.q == sent + PackAll(t, padded, i + 2)
  {
    OffsetMono(i + 1, RoundUp(count), Width(t));
    WritePastWord(output, t, values, i, padded, sent);
    if i < count {
      OffsetMono(i + 2, RoundUp(count), Width(t));
      WritePastWord(output, t, values, i + 1, padded, sent);
    }
  }

  /**
   * vals followed by zeros up to length n. Memory past the caller's buffer
   * is not part of the model; where write_array as written reads it, the
   * model reads zeros, and no contract depends on them.
   */
  function ZeroPadded(vals: seq<int>, n: nat): (r: seq<int>)
    ensures |r| == (if |vals| < n then n else |vals|)
    ensures forall k :: 0 <= k < |r| ==> r[k] == (if k < |vals| then vals[k] else 0)
  {
    if |vals| < n then vals + seq(n - |vals|, _ => 0) else vals
  }

  /** WriteWord for write_array as written, whose last word may come from past the buffer. */
  method WritePastWord(output: Stream, t: ElemType, values: array<int>, i: nat, ghost padded: seq<int>, ghost sent: seq<Word>)
    requires values.Length <= |padded| && Offset(i + 1, Width(t)) <= |padded|
    requires forall k :: 0 <= k < |padded| ==> padded[k] == (if k < values.Length then values[k] else 0)
    requires output.q == sent + PackAll(t, padded, i)
    modifies output
    ensures output.q == sent + PackAll(t, padded, i + 1)
  {
    OffsetIsProduct(i, Width(t));
    var data := PackPastWord(t, values, i * Width(t), padded);
    output.Write(data);
  }

  /** pack_word at values + offset, where the Width(t) elements may run past the buffer. */
  method PackPastWord(t: ElemType, values: array<int>, offset: nat, ghost padded: seq<int>) returns (word: Word)
    requires values.Length <= |padded| && offset + Width(t) <= |padded|
    requires forall k :: 0 <= k < |padded| ==> padded[k] == (if k < values.Length then values[k] else 0)
    ensures word == Pack(t, padded[offset..offset + Width(t)])
  {
    if offset + Width(t) <= values.Length {
      word := PackWord(t, values, offset);
      assert values[offset..offset + Width(t)] == padded[offset..offset + Width(t)];
    } else {
      var window := new int[Width(t)](k requires 0 <= k < Width(t) reads values =>
        if offset + k < values.Length then values[offset + k] else 0);
      word := PackWord(t, window, 0);
      assert window[0..Width(t)] == padded[offset..offset + Width(t)];
    }
  }

  /** The words the as-written loop packs from the zero-padded elements are what SentAsWritten allows. */
  lemma AsWrittenSent(t: ElemType, vals: seq<int>, count: nat, padded: seq<int>)
    requires Offset(count, Width(t)) <= |vals|
    requires padded == ZeroPadded(vals, Offset(RoundUp(count), Width(t)))
    ensures Offset(RoundUp(count), Width(t)) <= |padded|
    ensures SentAsWritten(t, vals, count, PackAll(t, padded, RoundUp(count)))
  {
    var n, c := RoundUp(count), Offset(count, Width(t));
    OffsetMono(count, n, Width(t));
    PackAllTake(t, padded, n, count);
    assert padded[..c] == vals[..c];
    PackAllPrefix(t, padded, vals, count);
  }

  /** The first m of n packed words are the m words packed on their own. */
  lemma {:induction false} PackAllTake(t: ElemType, vals: seq<int>, n: nat, m: nat)
    requires m <= n && Offset(n, Width(t)) <= |vals|
    ensures Offset(m, Width(t)) <= |vals|
    ensures PackAll(t, vals, n)[..m] == PackAll(t, vals, m)
  {
    OffsetMono(m, n, Width(t));
    if m < n {
      OffsetMono(n - 1, n, Width(t));
      PackAllTake(t, vals, n - 1, m);
      assert PackAll(t, vals, n)[..n - 1] == PackAll(t, vals, n - 1);
    }
  }

  /**
   * write_array with the guard it evidently means (i + 1 < count): the
   * second word of an iteration is sent only if it exists, so exactly
   * count words go out, packed from the first count * Width(t) elements.
   */
  method WriteArray(output: Stream, t: ElemType, values: array<int>, count: U32)
    requires Offset(count, Width(t)) <= values.Length
    modifies output
    ensures output.q == old(output.q) + PackAll(t, values[..], count)
  {
    ghost var vals, sent := values[..], output.q;
    var i := 0;
    ghost var j, n := 0, 0;
    while i < count
      invariant i == 2 * j && n <= count
      invariant i <= count ==> n == i
      invariant i > count ==> n == count
      invariant Offset(n, Width(t)) <= |vals|
      invariant output.q == sent + PackAll(t, vals, n)
    {
      n := WritePair(output, t, values, i, count, vals, sent);
      i, j := i + 2, j + 1;
    }
  }

  /** One iteration of the corrected write_array: word i, and word i + 1 if it exists. */
  method WritePair(output: Stream, t: ElemType, values: array<int>, i: nat, count: nat, ghost vals: seq<int>, ghost sent: seq<Word>)
    returns (ghost n: nat)
    requires vals == values[..] && i < count && Offset(count, Width(t)) <= |vals|
    requires Offset(i, Width(t)) <= |vals|
    requires output.q == sent + PackAll(t, vals, i)
    modifies output
    ensures n == (if i + 1 < count then i + 2 else count)
    ensures Offset(n, Width(t)) <= |vals|
    ensures output.q == sent + PackAll(t, vals, n)
  {
    OffsetMono(i + 1, count, Width(t));
    WriteWord(output, t, values, i, vals, sent);
    n := i + 1;
    if i + 1 < count {
      OffsetMono(i + 2, count, Width(t));
      WriteWord(output, t, values, i + 1, vals, sent);
      n := i + 2;
    }
  }

  /**
   * read_array: take exactly count words off the stream, word i filling
   * values[i*W .. (i+1)*W]; the rest of values is untouched.
   */
  method ReadArray(input: Stream, t: ElemType, values: array<int>, count: U32)
    requires count <= |input.q|
    requires Offset(count, Width(t)) <= values.Length
    modifies input, values
    ensures input.q == old(input.q)[count..]
    ensures values[..Offset(count, Width(t))] == UnpackAll(t, old(input.q)[..count])
    ensures values[Offset(count, Width(t))..] == old(values[Offset(count, Width(t))..])
  {
    ghost var q0, orig := input.q, values[..];
    var i := 0;
    while i < count
      invariant 0 <= i <= count
      invariant input.q == q0[i..]
      invariant Offset(i, Width(t)) <= Offset(count, Width(t))
      invariant values[..Offset(i, Width(t))] == UnpackAll(t, q0[..i])
      invariant values[Offset(i, Width(t))..] == orig[Offset(i, Width(t))..]
    {
      OffsetMono(i + 1, count, Width(t));
      ReadWord(input, t, values, i, q0, orig);
      i := i + 1;
    }
  }

  /**
   * One iteration of read_array: read word i and unpack it into
   * values + i * width. If the first i words' elements were in place and
   * the rest of values was as it started, the same holds for i + 1.
   */
  method ReadWord(input: Stream, t: ElemType, values: array<int>, i: nat, ghost q0: seq<Word>, ghost orig: seq<int>)
    requires i < |q0| && input.q == q0[i..]
    requires Offset(i + 1, Width(t)) <= values.Length == |orig|
    requires values[..Offset(i, Width(t))] == UnpackAll(t, q0[..i])
    requires values[Offset(i, Width(t))..] == orig[Offset(i, Width(t))..]
    modifies input, values
    ensures input.q == q0[i + 1..]
    ensures values[..Offset(i + 1, Width(t))] == UnpackAll(t, q0[..i + 1])
    ensures values[Offset(i + 1, Width(t))..] == orig[Offset(i + 1, Width(t))..]
  {
    OffsetIsProduct(i, Width(t));
    var a, b := Offset(i, Width(t)), Offset(i + 1, Width(t));
    var data := input.Read();
    assert data == q0[i];
    ghost var before := values[..];
    UnpackWord(t, data, values, i * Width(t));
    assert values[..b] == values[..a] + values[a..b];
    assert values[..a] == before[..a];
    assert q0[..i + 1] == q0[..i] + [data];
    UnpackAllSnoc(t, q0[..i], data);
    assert values[b..] == before[b..];
    assert before[b..] == orig[b..] by {
      assert before[b..] == before[a..][b - a..];
      assert orig[b..] == orig[a..][b - a..];
    }
  }
}
