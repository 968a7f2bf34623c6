/**
 * Wire format shared by every channel: the 512-bit stream word, the
 * 16-field collective header that fills exactly one word, the element types
 * a word can carry, and how values are packed into and unpacked from a word
 * (collectives/collectives.hpp).
 *
 * A word is modelled as its 16 little-endian 32-bit lanes. The C++ union
 * that views one word as float[16], double[8], int32[16], uint32[16],
 * int64[8], uint64[8] or a header becomes a set of functions that read the
 * same lanes in different ways.
 */
module Wire {
  import opened Wrappers

  const DATA_WIDTH: nat := 512
  const TWO31: int := 0x8000_0000
  const TWO32: int := 0x1_0000_0000
  const TWO63: int := 0x8000_0000_0000_0000
  const TWO64: int := 0x1_0000_0000_0000_0000

  /** A C++ uint32_t. */
  type U32 = x: int | 0 <= x < 0x1_0000_0000

  /** One stream word: 16 lanes of 32 bits, lane 0 at the lowest address. */
  type Word = s: seq<U32> | |s| == 16
    witness [0, 0, 0, 0, 0, 0, 0, 0, 0, 0, 0, 0, 0, 0, 0, 0]

  /** enum Collective; a header stores its value as a uint32. */
  datatype Collective = Barrier | P2P | Bcast | Reduce | Scatter | Gather
  {
    function Code(): U32
    {
      match this
      case Barrier => 0
      case P2P => 1
      case Bcast => 2
      case Reduce => 3
      case Scatter => 4
      case Gather => 5
    }
  }

  /** enum Datatype; a header stores its value as a uint32. */
  datatype Datatype = Float | Double | Int | UnsignedInt | Long | UnsignedLong
  {
    function Code(): U32
    {
      match this
      case Float => 0
      case Double => 1
      case Int => 2
      case UnsignedInt => 3
      case Long => 4
      case UnsignedLong => 5
    }
  }

  /** The C++ element type T a template (create_header<T>, p2p<T>, ...) is instantiated with. */
  datatype ElemType = Float32 | Float64 | Int32 | UInt32 | Int64 | UInt64

  /** collectives_header_t: 7 named uint32 fields and 9 unused ones. */
  datatype Header = Header(collective: U32, op: U32, dataType: U32, count: U32,
                           root: U32, dest: U32, tag: U32, unused: seq<U32>)
  {
    predicate Valid() { |unused| == 9 }
  }

  /** The header view of a word: field k is lane k. */
  function HeaderOf(w: Word): (h: Header)
    ensures h.Valid()
  {
    Header(w[0], w[1], w[2], w[3], w[4], w[5], w[6], w[7..])
  }

  /** The word view of a header; the inverse of HeaderOf. */
  function ToWord(h: Header): (w: Word)
    requires h.Valid()
    ensures HeaderOf(w) == h
  {
    [h.collective, h.op, h.dataType, h.count, h.root, h.dest, h.tag] + h.unused
  }

  /** Every word is the word of the header it is read as, so the two views lose nothing. */
  lemma WordHeaderWord(w: Word)
    ensures ToWord(HeaderOf(w)) == w
  {
    assert ToWord(HeaderOf(w))[7..] == w[7..];
  }

  /** The number of payload words that follow a header word on a channel. */
  function CountOf(w: Word): nat { HeaderOf(w).count }

  /** The assignment header.header.dest = d on a word. */
  function WithDest(w: Word, d: U32): (r: Word)
    ensures HeaderOf(r).dest == d
    ensures forall j :: 0 <= j < 16 && j != 5 ==> r[j] == w[j]
    ensures CountOf(r) == CountOf(w)
  {
    ToWord(HeaderOf(w).(dest := d))
  }

  /** The datatype tag create_header<T> stores for T. */
  function DatatypeOf(t: ElemType): (d: Datatype)
    ensures ElemTypeOfCode(d.Code()) == Some(t)
  {
    match t
    case Float64 => Double
    case Float32 => Float
    case Int64 => Long
    case UInt64 => UnsignedLong
    case Int32 => Int
    case UInt32 => UnsignedInt
  }

  /** How a receiver reads the element type back from a header's datatype field. */
  function ElemTypeOfCode(c: U32): Option<ElemType>
  {
    if c == 0 then Some(Float32)
    else if c == 1 then Some(Float64)
    else if c == 2 then Some(Int32)
    else if c == 3 then Some(UInt32)
    else if c == 4 then Some(Int64)
    else if c == 5 then Some(UInt64)
    else None
  }

  /**
   * create_header<T>: every argument is stored in its own field, the
   * datatype field names T, and the defaults are dest = op = tag = 0.
   * The nine unused fields are left uninitialised by the source; here they are 0.
   */
  function CreateHeader(t: ElemType, collective: Collective, count: U32, root: U32,
                        dest: U32 := 0, op: U32 := 0, tag: U32 := 0): (h: Header)
    ensures h.Valid()
    ensures h.collective == collective.Code() && h.count == count && h.root == root
    ensures h.dest == dest && h.op == op && h.tag == tag
    ensures ElemTypeOfCode(h.dataType) == Some(t)
  {
    Header(collective.Code(), op, DatatypeOf(t).Code(), count, root, dest, tag,
           [0, 0, 0, 0, 0, 0, 0, 0, 0])
  }

  /** sizeof(T) in bytes. */
  function ElemBytes(t: ElemType): nat
  {
    match t
    case Float32 | Int32 | UInt32 => 4
    case Float64 | Int64 | UInt64 => 8
  }

  /** get_width<T>: the number of T elements in one word. */
  function Width(t: ElemType): (n: nat)
    ensures n == 8 || n == 16
  {
    match t
    case Float64 | Int64 | UInt64 => 8
    case Float32 | Int32 | UInt32 => 16
  }

  /** Width(t) elements of sizeof(T) bytes fill one DATA_WIDTH-bit word exactly, as the 16 header fields do. */
  lemma WidthFillsWord(t: ElemType)
    ensures Width(t) * ElemBytes(t) * 8 == DATA_WIDTH
    ensures |ToWord(CreateHeader(t, Collective.Barrier, 0, 0))| * 32 == DATA_WIDTH
  {
  }

  /** The element types that take two lanes. */
  predicate Is64(t: ElemType)
  {
    t == Float64 || t == Int64 || t == UInt64
  }

  /**
   * The values a T can hold. Floating-point elements are carried as their
   * raw bit patterns, which pack_word and unpack_word copy unchanged.
   */
  predicate InRange(t: ElemType, x: int)
  {
    match t
    case Float32 | UInt32 => 0 <= x < TWO32
    case Int32 => -TWO31 <= x < TWO31
    case Float64 | UInt64 => 0 <= x < TWO64
    case Int64 => -TWO63 <= x < TWO63
  }

  predicate AllInRange(t: ElemType, vals: seq<int>)
  {
    forall i :: 0 <= i < |vals| ==> InRange(t, vals[i])
  }

  /**
   * The bit pattern an element is stored as: the C++ conversion to an
   * unsigned type of the element's width, which for a value in range is
   * its two's-complement representation.
   */
  function ToBits(t: ElemType, x: int): (u: nat)
    ensures if Is64(t) then u < TWO64 else u < TWO32
    ensures InRange(t, x) ==> u == (if x < 0 then x + (if Is64(t) then TWO64 else TWO32) else x)
  {
    if Is64(t) then x % TWO64 else x % TWO32
  }

  /** The element a bit pattern stands for. */
  function FromBits(t: ElemType, u: nat): (x: int)
    requires if Is64(t) then u < TWO64 else u < TWO32
    ensures InRange(t, x)
    ensures ToBits(t, x) == u
  {
    match t
    case Int32 => if u >= TWO31 then u - TWO32 else u
    case Int64 => if u >= TWO63 then u - TWO64 else u
    case _ => u
  }

  /** Lane j of the word that pack_word<T> builds from Width(t) values. */
  function PackLane(t: ElemType, vals: seq<int>, j: nat): U32
    requires |vals| == Width(t) && j < 16
  {
    if Is64(t) then
      var u := ToBits(t, vals[j / 2]);
      if j % 2 == 0 then u % TWO32 else u / TWO32
    else
      ToBits(t, vals[j])
  }

  /** The word pack_word<T> produces from Width(t) elements. */
  function Pack(t: ElemType, vals: seq<int>): Word
    requires |vals| == Width(t)
  {
    seq(16, j requires 0 <= j < 16 => PackLane(t, vals, j))
  }

  /**
   * The lane layout of pack_word: a 32-bit element fills its own lane, a
   * 64-bit element i its low half in lane 2i and its high half in lane 2i + 1.
   */
  lemma PackLayout(t: ElemType, vals: seq<int>)
    requires |vals| == Width(t)
    ensures var w := Pack(t, vals);
      !Is64(t) ==> forall i :: 0 <= i < 16 ==> w[i] == ToBits(t, vals[i])
    ensures var w := Pack(t, vals);
      Is64(t) ==> forall i :: 0 <= i < 8 ==> w[2 * i] + w[2 * i + 1] * TWO32 == ToBits(t, vals[i])
  {
    var w := Pack(t, vals);
    if Is64(t) {
      forall i | 0 <= i < 8
        ensures w[2 * i] + w[2 * i + 1] * TWO32 == ToBits(t, vals[i])
      {
        assert w[2 * i] == PackLane(t, vals, 2 * i) && w[2 * i + 1] == PackLane(t, vals, 2 * i + 1);
        assert (2 * i) / 2 == i && (2 * i + 1) / 2 == i;
        SplitJoin(ToBits(t, vals[i]));
      }
    }
  }

  /** Element i of the word as unpack_word<T> reads it. */
  function UnpackElem(t: ElemType, w: Word, i: nat): int
    requires i < Width(t)
  {
    if Is64(t) then FromBits(t, w[2 * i] + w[2 * i + 1] * TWO32)
    else FromBits(t, w[i])
  }

  /** The Width(t) elements unpack_word<T> produces from a word. */
  function Unpack(t: ElemType, w: Word): (vals: seq<int>)
    ensures |vals| == Width(t) && AllInRange(t, vals)
  {
    seq(Width(t), i requires 0 <= i < Width(t) => UnpackElem(t, w, i))
  }

  lemma SplitJoin(u: nat)
    requires u < TWO64
    ensures u % TWO32 + (u / TWO32) * TWO32 == u
    ensures u / TWO32 < TWO32
  {
  }

  lemma JoinSplit(lo: U32, hi: U32)
    ensures (lo + hi * TWO32) % TWO32 == lo
    ensures (lo + hi * TWO32) / TWO32 == hi
  {
  }

  /** unpack_word after pack_word gives back the elements that were packed. */
  lemma UnpackPack(t: ElemType, vals: seq<int>)
    requires |vals| == Width(t) && AllInRange(t, vals)
    ensures Unpack(t, Pack(t, vals)) == vals
  {
    var w := Pack(t, vals);
    forall i | 0 <= i < Width(t)
      ensures UnpackElem(t, w, i) == vals[i]
    {
      if Is64(t) {
        var u := ToBits(t, vals[i]);
        assert (2 * i) / 2 == i && (2 * i) % 2 == 0;
        assert (2 * i + 1) / 2 == i && (2 * i + 1) % 2 == 1;
        assert w[2 * i] == u % TWO32 && w[2 * i + 1] == u / TWO32;
        SplitJoin(u);
      }
    }
  }

  /** pack_word after unpack_word gives back the word: every word is some packing. */
  lemma PackUnpack(t: ElemType, w: Word)
    ensures Pack(t, Unpack(t, w)) == w
  {
    forall j | 0 <= j < 16
      ensures PackLane(t, Unpack(t, w), j) == w[j]
    {
      PackUnpackLane(t, w, j);
    }
  }

  lemma PackUnpackLane(t: ElemType, w: Word, j: nat)
    requires j < 16
    ensures PackLane(t, Unpack(t, w), j) == w[j]
  {
    if Is64(t) {
      var i := j / 2;
      Bits64(t, w, i);
      JoinSplit(w[2 * i], w[2 * i + 1]);
      if j % 2 == 0 {
        assert j == 2 * i;
      } else {
        assert j == 2 * i + 1;
      }
    }
  }

  /** The bits of a 64-bit element read from a word are its two lanes, low lane first. */
  lemma Bits64(t: ElemType, w: Word, i: nat)
    requires Is64(t) && i < 8
    ensures i < Width(t)
    ensures ToBits(t, Unpack(t, w)[i]) == w[2 * i] + w[2 * i + 1] * TWO32
  {
    assert Unpack(t, w)[i] == UnpackElem(t, w, i);
  }
}
