/**
 * class Ring of collectives/offload/offload.cpp: pure arithmetic on a ring
 * of `size` ranks in which rank r's east neighbour is r + 1 and its west
 * neighbour r - 1, modulo size. The C++ class only holds rank and size,
 * so it is a value here.
 */
module RingTopology {
  import opened Wire

  datatype Ring = Ring(rank: int, size: int)
  {
    /**
     * A rank of the ring. The size bound keeps the C++ int sums
     * center + size - 1 and center + size/2 + size below 2^31.
     */
    predicate Valid()
    {
      1 <= size < 0x2000_0000 && 0 <= rank < size
    }

    /** rank_west(center). */
    function RankWest(center: int): (r: int)
      requires Valid() && 0 <= center < size
      ensures 0 <= r < size
    {
      (center + size - 1) % size
    }

    /** rank_east(center). */
    function RankEast(center: int): (r: int)
      requires Valid() && 0 <= center < size
      ensures 0 <= r < size
    {
      (center + 1) % size
    }

    /**
     * distance_west(dest). The comparison is strict, so dest == rank gives
     * size (a full turn). The else branch is uint32 arithmetic and wraps
     * when dest >= rank + size.
     */
    function DistanceWest(dest: U32): (r: U32)
      requires Valid()
      ensures dest < size ==> 1 <= r <= size && (r == size <==> dest == rank)
    {
      if dest < rank then rank - dest else (rank + size - dest) % TWO32
    }

    /** distance_east(dest); again dest == rank gives size. */
    function DistanceEast(dest: U32): (r: U32)
      requires Valid()
      ensures dest < size ==> 1 <= r <= size && (r == size <==> dest == rank)
    {
      if dest > rank then dest - rank else dest + size - rank
    }

    /** go_west(dest): west only when strictly shorter, so a tie goes east. */
    function GoWest(dest: U32): (r: bool)
      requires Valid()
      ensures r ==> dest != rank
    {
      DistanceWest(dest) < DistanceEast(dest)
    }

    /** furthest_rank(center): the rank size/2 hops east of center. */
    function FurthestRank(center: int): (r: int)
      requires Valid() && 0 <= center < size
      ensures 0 <= r < size
    {
      (center + size / 2 + size) % size
    }

    /** The rank reached from center after k hops east, one rank_east at a time. */
    function WalkEast(center: int, k: nat): (r: int)
      requires Valid() && 0 <= center < size
      ensures 0 <= r < size
    {
      if k == 0 then center else RankEast(WalkEast(center, k - 1))
    }

    /** The rank reached from center after k hops west, one rank_west at a time. */
    function WalkWest(center: int, k: nat): (r: int)
      requires Valid() && 0 <= center < size
      ensures 0 <= r < size
    {
      if k == 0 then center else RankWest(WalkWest(center, k - 1))
    }

    /** The ranks the east half of a broadcast from `rank` passes: 1 .. size/2 hops east. */
    function EastArc(): (arc: seq<int>)
      requires Valid()
      ensures |arc| == size / 2
    {
      seq(size / 2, k requires 0 <= k < size / 2 => (rank + k + 1) % size)
    }

    /** The ranks the west half passes: 1 .. size - 1 - size/2 hops west. */
    function WestArc(): (arc: seq<int>)
      requires Valid()
      ensures |arc| == size - 1 - size / 2
    {
      seq(size - 1 - size / 2, k requires 0 <= k < size - 1 - size / 2 => (rank + size - k - 1) % size)
    }
  }

  /** Euclidean remainder of a number within one turn of [0, n). */
  lemma ModBasics(a: int, n: int)
    requires n >= 1 && -n <= a < 3 * n
    ensures a % n == (if a < 0 then a + n else if a < n then a else if a < 2 * n then a - n else a - 2 * n)
  {
    var d, r := a / n, a % n;
    assert a == n * d + r;
    MulBounds(n, d);
  }

  lemma MulBounds(n: int, d: int)
    requires n >= 1
    ensures d >= 3 ==> n * d >= n * 3
    ensures d <= -2 ==> n * d <= n * -2
  {
    if d >= 3 {
      assert n * d == n * 3 + n * (d - 3);
    } else if d <= -2 {
      assert n * d == n * -2 + n * (d + 2);
    }
  }

  /** rank_east and rank_west undo each other. */
  lemma EastWestInverse(ring: Ring, c: int)
    requires ring.Valid() && 0 <= c < ring.size
    ensures ring.RankEast(ring.RankWest(c)) == c
    ensures ring.RankWest(ring.RankEast(c)) == c
  {
    var n := ring.size;
    ModBasics(c + n - 1, n);
    ModBasics(c + 1, n);
    var w, e := ring.RankWest(c), ring.RankEast(c);
    ModBasics(w + 1, n);
    ModBasics(e + n - 1, n);
  }

  /** Walking k <= size hops east lands on (center + k) mod size. */
  lemma {:induction false} WalkEastMod(ring: Ring, center: int, k: nat)
    requires ring.Valid() && 0 <= center < ring.size && k <= ring.size
    ensures ring.WalkEast(center, k) == (center + k) % ring.size
  {
    var n := ring.size;
    ModBasics(center + k, n);
    if k > 0 {
      WalkEastMod(ring, center, k - 1);
      ModBasics(center + k - 1, n);
      ModBasics((center + k - 1) % n + 1, n);
    } else {
      ModBasics(center, n);
    }
  }

  /** Walking k <= size hops west lands on (center - k) mod size. */
  lemma {:induction false} WalkWestMod(ring: Ring, center: int, k: nat)
    requires ring.Valid() && 0 <= center < ring.size && k <= ring.size
    ensures ring.WalkWest(center, k) == (center - k) % ring.size
  {
    var n := ring.size;
    ModBasics(center - k, n);
    if k > 0 {
      WalkWestMod(ring, center, k - 1);
      ModBasics(center - k + 1, n);
      ModBasics((center - k + 1) % n + n - 1, n);
    } else {
      ModBasics(center, n);
    }
  }

  /** Between two ranks, the east and west distances are the two arcs of one circle. */
  lemma DistancesComplement(ring: Ring, dest: U32)
    requires ring.Valid() && dest < ring.size
    ensures dest != ring.rank ==>
      && 1 <= ring.DistanceWest(dest) <= ring.size - 1
      && 1 <= ring.DistanceEast(dest) <= ring.size - 1
      && ring.DistanceWest(dest) + ring.DistanceEast(dest) == ring.size
    ensures dest == ring.rank ==>
      ring.DistanceWest(dest) == ring.size && ring.DistanceEast(dest) == ring.size
  {
  }

  /** m hops east of rank (0 < m < size) is at east distance m. */
  lemma EastDistanceOfHops(ring: Ring, m: int)
    requires ring.Valid() && 0 < m < ring.size
    ensures 0 <= (ring.rank + m) % ring.size < ring.size
    ensures ring.DistanceEast((ring.rank + m) % ring.size) == m
  {
    ModBasics(ring.rank + m, ring.size);
  }

  /** m hops west of rank (0 < m < size) is at west distance m. */
  lemma WestDistanceOfHops(ring: Ring, m: int)
    requires ring.Valid() && 0 < m < ring.size
    ensures 0 <= (ring.rank + ring.size - m) % ring.size < ring.size
    ensures ring.DistanceWest((ring.rank + ring.size - m) % ring.size) == m
  {
    ModBasics(ring.rank + ring.size - m, ring.size);
  }

  /**
   * distance_east(dest) is the hop count of the east path: walking that
   * many hops east from rank reaches dest, and no shorter non-empty walk does.
   */
  lemma EastDistanceIsHops(ring: Ring, dest: U32)
    requires ring.Valid() && dest < ring.size
    ensures ring.WalkEast(ring.rank, ring.DistanceEast(dest)) == dest
    ensures forall k: nat :: 0 < k < ring.DistanceEast(dest) ==> ring.WalkEast(ring.rank, k) != dest
  {
    var n, d := ring.size, ring.DistanceEast(dest);
    DistancesComplement(ring, dest);
    WalkEastMod(ring, ring.rank, d);
    ModBasics(ring.rank + d, n);
    forall k: nat | 0 < k < d
      ensures ring.WalkEast(ring.rank, k) != dest
    {
      WalkEastMod(ring, ring.rank, k);
      EastDistanceOfHops(ring, k);
    }
  }

  /**
   * distance_west(dest) is the hop count of the west path: walking that
   * many hops west from rank reaches dest, and no shorter non-empty walk does.
   */
  lemma WestDistanceIsHops(ring: Ring, dest: U32)
    requires ring.Valid() && dest < ring.size
    ensures ring.WalkWest(ring.rank, ring.DistanceWest(dest)) == dest
    ensures forall k: nat :: 0 < k < ring.DistanceWest(dest) ==> ring.WalkWest(ring.rank, k) != dest
  {
    var n, d := ring.size, ring.DistanceWest(dest);
    DistancesComplement(ring, dest);
    WalkWestMod(ring, ring.rank, d);
    ModBasics(ring.rank - d, n);
    forall k: nat | 0 < k < d
      ensures ring.WalkWest(ring.rank, k) != dest
    {
      WalkWestMod(ring, ring.rank, k);
      ModBasics(ring.rank - k, n);
      WestDistanceOfHops(ring, k);
      ModBasics(ring.rank + n - k, n);
    }
  }

  /**
   * go_west routes a point-to-point burst along a shortest path: the
   * chosen direction's hop count is the smaller one, at most size/2, and
   * walking that many hops that way from rank reaches dest.
   */
  lemma GoWestShortest(ring: Ring, dest: U32)
    requires ring.Valid() && dest < ring.size && dest != ring.rank
    ensures var d := if ring.GoWest(dest) then ring.DistanceWest(dest) else ring.DistanceEast(dest);
      && d <= ring.DistanceWest(dest) && d <= ring.DistanceEast(dest) && d <= ring.size / 2
      && (if ring.GoWest(dest) then ring.WalkWest(ring.rank, d) else ring.WalkEast(ring.rank, d)) == dest
  {
    DistancesComplement(ring, dest);
    WestDistanceIsHops(ring, dest);
    EastDistanceIsHops(ring, dest);
  }

  /** furthest_rank() is size/2 hops east of rank. */
  lemma FurthestIsHalfEast(ring: Ring)
    requires ring.Valid()
    ensures ring.FurthestRank(ring.rank) == (ring.rank + ring.size / 2) % ring.size
  {
    ModBasics(ring.rank + ring.size / 2, ring.size);
    ModBasics(ring.rank + ring.size / 2 + ring.size, ring.size);
  }

  /**
   * The only ties are with the diametrically opposite rank of an even ring,
   * and go_west then answers east.
   */
  lemma TieIsFurthest(ring: Ring, dest: U32)
    requires ring.Valid() && dest < ring.size && dest != ring.rank
    ensures ring.DistanceWest(dest) == ring.DistanceEast(dest)
        <==> ring.size % 2 == 0 && dest == ring.FurthestRank(ring.rank)
    ensures ring.DistanceWest(dest) == ring.DistanceEast(dest) ==> !ring.GoWest(dest)
  {
    var n := ring.size;
    DistancesComplement(ring, dest);
    FurthestIsHalfEast(ring);
    if n >= 2 {
      EastDistanceOfHops(ring, n / 2);
      var de := ring.DistanceEast(dest);
      EastDistanceIsHops(ring, dest);
      WalkEastMod(ring, ring.rank, de);
    }
  }

  /** The east arc is exactly the ranks at east distance 1 .. size/2. */
  lemma InEastArc(ring: Ring, r: int)
    requires ring.Valid() && 0 <= r < ring.size
    ensures r in ring.EastArc() <==> r != ring.rank && ring.DistanceEast(r) <= ring.size / 2
  {
    var arc := ring.EastArc();
    if r in arc {
      var k :| 0 <= k < |arc| && arc[k] == r;
      EastArcDistance(ring, k);
    }
    if r != ring.rank && ring.DistanceEast(r) <= ring.size / 2 {
      EastArcAt(ring, r);
    }
  }

  lemma EastArcDistance(ring: Ring, k: int)
    requires ring.Valid() && 0 <= k < |ring.EastArc()|
    ensures ring.EastArc()[k] != ring.rank && ring.DistanceEast(ring.EastArc()[k]) == k + 1
  {
    EastDistanceOfHops(ring, k + 1);
    DistancesComplement(ring, ring.EastArc()[k]);
  }

  lemma EastArcAt(ring: Ring, r: int)
    requires ring.Valid() && 0 <= r < ring.size
    requires r != ring.rank && ring.DistanceEast(r) <= ring.size / 2
    ensures 1 <= ring.DistanceEast(r) && ring.EastArc()[ring.DistanceEast(r) - 1] == r
  {
    var d := ring.DistanceEast(r);
    DistancesComplement(ring, r);
    ModBasics(ring.rank + d, ring.size);
  }

  /** The west arc is exactly the ranks at west distance 1 .. size - 1 - size/2. */
  lemma InWestArc(ring: Ring, r: int)
    requires ring.Valid() && 0 <= r < ring.size
    ensures r in ring.WestArc() <==> r != ring.rank && ring.DistanceWest(r) <= ring.size - 1 - ring.size / 2
  {
    var arc := ring.WestArc();
    if r in arc {
      var k :| 0 <= k < |arc| && arc[k] == r;
      WestArcDistance(ring, k);
    }
    if r != ring.rank && ring.DistanceWest(r) <= ring.size - 1 - ring.size / 2 {
      WestArcAt(ring, r);
    }
  }

  lemma WestArcDistance(ring: Ring, k: int)
    requires ring.Valid() && 0 <= k < |ring.WestArc()|
    ensures ring.WestArc()[k] != ring.rank && ring.DistanceWest(ring.WestArc()[k]) == k + 1
  {
    WestDistanceOfHops(ring, k + 1);
    assert ring.WestArc()[k] == (ring.rank + ring.size - (k + 1)) % ring.size;
    DistancesComplement(ring, ring.WestArc()[k]);
  }

  lemma WestArcAt(ring: Ring, r: int)
    requires ring.Valid() && 0 <= r < ring.size
    requires r != ring.rank && ring.DistanceWest(r) <= ring.size - 1 - ring.size / 2
    ensures 1 <= ring.DistanceWest(r) && ring.WestArc()[ring.DistanceWest(r) - 1] == r
  {
    var d := ring.DistanceWest(r);
    DistancesComplement(ring, r);
    ModBasics(ring.rank + ring.size - d, ring.size);
  }

  /** The east copy of a local broadcast goes to the last rank of the east arc. */
  lemma BcastEastTarget(ring: Ring)
    requires ring.Valid() && ring.size >= 2
    ensures var f := ring.FurthestRank(ring.rank);
      ring.DistanceEast(f) == ring.size / 2 && ring.EastArc()[ring.size / 2 - 1] == f
  {
    FurthestIsHalfEast(ring);
    EastDistanceOfHops(ring, ring.size / 2);
  }

  /** rank_east(furthest_rank()) is size/2 + 1 hops east of rank. */
  lemma RankEastOfFurthest(ring: Ring)
    requires ring.Valid() && ring.size >= 2
    ensures ring.RankEast(ring.FurthestRank(ring.rank)) == (ring.rank + ring.size / 2 + 1) % ring.size
  {
    var n, rank := ring.size, ring.rank;
    FurthestIsHalfEast(ring);
    ModBasics(rank + n / 2, n);
    ModBasics(ring.FurthestRank(rank) + 1, n);
    ModBasics(rank + n / 2 + 1, n);
  }

  /** The west copy goes to the last rank of the west arc, or back to the root itself when size is 2. */
  lemma BcastWestTarget(ring: Ring)
    requires ring.Valid() && ring.size >= 2
    ensures var f := ring.FurthestRank(ring.rank);
      && (ring.size == 2 ==> ring.RankEast(f) == ring.rank && ring.WestArc() == [])
      && (ring.size >= 3 ==>
            ring.DistanceWest(ring.RankEast(f)) == ring.size - 1 - ring.size / 2
            && ring.WestArc()[ring.size - 2 - ring.size / 2] == ring.RankEast(f))
  {
    var n, rank := ring.size, ring.rank;
    RankEastOfFurthest(ring);
    if n == 2 {
      ModBasics(rank + 2, 2);
    } else {
      var m := n - 1 - n / 2;
      WestDistanceOfHops(ring, m);
      assert rank + n - m == rank + n / 2 + 1;
      assert ring.WestArc()[n - 2 - n / 2] == (rank + n / 2 + 1) % n;
    }
  }

  /** Where the two copies of a local broadcast are addressed. */
  lemma BcastTargets(ring: Ring)
    requires ring.Valid() && ring.size >= 2
    ensures var f := ring.FurthestRank(ring.rank);
      && ring.DistanceEast(f) == ring.size / 2
      && ring.EastArc()[ring.size / 2 - 1] == f
      && (ring.size == 2 ==> ring.RankEast(f) == ring.rank && ring.WestArc() == [])
      && (ring.size >= 3 ==>
            ring.DistanceWest(ring.RankEast(f)) == ring.size - 1 - ring.size / 2
            && ring.WestArc()[ring.size - 2 - ring.size / 2] == ring.RankEast(f))
  {
    BcastEastTarget(ring);
    BcastWestTarget(ring);
  }

  /** Neither arc names a rank twice. */
  lemma ArcsDistinct(ring: Ring)
    requires ring.Valid()
    ensures forall i, j :: 0 <= i < j < |ring.EastArc()| ==> ring.EastArc()[i] != ring.EastArc()[j]
    ensures forall i, j :: 0 <= i < j < |ring.WestArc()| ==> ring.WestArc()[i] != ring.WestArc()[j]
  {
    var east, west := ring.EastArc(), ring.WestArc();
    forall i, j | 0 <= i < j < |east|
      ensures east[i] != east[j]
    {
      EastDistanceOfHops(ring, i + 1);
      EastDistanceOfHops(ring, j + 1);
    }
    forall i, j | 0 <= i < j < |west|
      ensures west[i] != west[j]
    {
      WestDistanceOfHops(ring, i + 1);
      WestDistanceOfHops(ring, j + 1);
    }
  }

  /** The arcs share no rank, and together they are every rank but the root. */
  lemma ArcsPartition(ring: Ring)
    requires ring.Valid()
    ensures forall r :: 0 <= r < ring.size ==>
      ((r in ring.EastArc() || r in ring.WestArc()) <==> r != ring.rank)
    ensures forall r :: r in ring.EastArc() ==> r !in ring.WestArc()
  {
    var east, west := ring.EastArc(), ring.WestArc();
    forall r | 0 <= r < ring.size
      ensures (r in east || r in west) <==> r != ring.rank
      ensures r in east ==> r !in west
    {
      InEastArc(ring, r);
      InWestArc(ring, r);
      DistancesComplement(ring, r);
    }
    forall r | r in east
      ensures r !in west
    {
      var k :| 0 <= k < |east| && east[k] == r;
      EastDistanceOfHops(ring, k + 1);
    }
  }

  /**
   * The broadcast split of offload: the east copy is addressed to
   * furthest_rank(), size/2 hops east, the last rank of the east arc; the
   * west copy to rank_east(furthest_rank()), which for size >= 3 is
   * size - 1 - size/2 hops west, the last rank of the west arc (for size 2
   * it is the root itself, and the west arc is empty). The two arcs have
   * no repeated rank, share none, leave out the root and hold every other
   * rank: each of the other size - 1 ranks is covered exactly once.
   */
  lemma BcastSplit(ring: Ring)
    requires ring.Valid() && ring.size >= 2
    ensures var f := ring.FurthestRank(ring.rank);
      && ring.DistanceEast(f) == ring.size / 2
      && ring.EastArc()[ring.size / 2 - 1] == f
      && (ring.size == 2 ==> ring.RankEast(f) == ring.rank && ring.WestArc() == [])
      && (ring.size >= 3 ==>
            ring.DistanceWest(ring.RankEast(f)) == ring.size - 1 - ring.size / 2
            && ring.WestArc()[ring.size - 2 - ring.size / 2] == ring.RankEast(f))
    ensures forall i, j :: 0 <= i < j < |ring.EastArc()| ==> ring.EastArc()[i] != ring.EastArc()[j]
    ensures forall i, j :: 0 <= i < j < |ring.WestArc()| ==> ring.WestArc()[i] != ring.WestArc()[j]
    ensures forall r :: 0 <= r < ring.size ==>
      ((r in ring.EastArc() || r in ring.WestArc()) <==> r != ring.rank)
    ensures forall r :: r in ring.EastArc() ==> r !in ring.WestArc()
    ensures |ring.EastArc()| + |ring.WestArc()| == ring.size - 1
  {
    BcastTargets(ring);
    ArcsDistinct(ring);
    ArcsPartition(ring);
  }
}
