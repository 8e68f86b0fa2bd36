/**
 * Pyramid layout resolution: from the geometry of the stored sub-images, the
 * number of Z planes, the number of pyramid levels, the series count and the
 * mapping from (series, plane) to a stored sub-image.
 */
module PyramidLayout {
  import opened Ifds
  import opened Arith

  /** The two counters the reader keeps: Z depth and pyramid height. */
  datatype Layout = Layout(sizeZ: nat, pyramidHeight: nat)

  /** The counters' values on a fresh or fully closed reader. */
  const Initial := Layout(1, 1)

  /**
   * One iteration of the scan over IFDs 1, 2, ...: a sub-image of the base
   * geometry adds a Z plane; any other adds a pyramid level, but only while
   * no Z plane has been seen.
   */
  function Step(l: Layout, base: Ifd, ifd: Ifd): (l': Layout)
    ensures l.sizeZ <= l'.sizeZ && l.pyramidHeight <= l'.pyramidHeight
    ensures (l'.sizeZ - l.sizeZ) + (l'.pyramidHeight - l.pyramidHeight) <= 1
    ensures l'.sizeZ == l.sizeZ + 1 <==> SameSize(ifd, base)
    ensures l'.pyramidHeight > l.pyramidHeight ==> l.sizeZ == 1 && l'.sizeZ == 1
    ensures l.sizeZ == 1 && !SameSize(ifd, base) ==> l'.pyramidHeight == l.pyramidHeight + 1
    ensures l.sizeZ != 1 && !SameSize(ifd, base) ==> l' == l
  {
    if SameSize(ifd, base) then l.(sizeZ := l.sizeZ + 1)
    else if l.sizeZ == 1 then l.(pyramidHeight := l.pyramidHeight + 1)
    else l
  }

  /** The counters once IFDs 1 .. k-1 have been visited, starting from `l0`. */
  function ScanTo(l0: Layout, ifds: seq<Ifd>, k: nat): Layout
    requires k <= |ifds|
    decreases k
  {
    if k <= 1 then l0 else Step(ScanTo(l0, ifds, k - 1), ifds[0], ifds[k - 1])
  }

  /** The counters after the whole scan. */
  function Scan(l0: Layout, ifds: seq<Ifd>): Layout {
    ScanTo(l0, ifds, |ifds|)
  }

  /** The series count: the pyramid levels plus every IFD left over past the pyramid-by-Z block. */
  function SeriesCount(l: Layout, n: int): int {
    l.pyramidHeight + (n - l.pyramidHeight * l.sizeZ)
  }

  /** Pyramid levels have the full Z depth; every extra series is flat. */
  function SeriesSizeZ(l: Layout, s: int): nat {
    if s < l.pyramidHeight then l.sizeZ else 1
  }

  /** The stored sub-image holding plane `z` of series `s`. */
  function IfdIndex(l: Layout, s: int, z: int): int {
    if s < l.pyramidHeight then z * l.pyramidHeight + s
    else l.sizeZ * l.pyramidHeight + (s - l.pyramidHeight)
  }

  /** A (series, plane) pair the reader exposes for a file of `n` sub-images. */
  predicate ValidPlane(l: Layout, n: int, s: int, z: int) {
    0 <= s < SeriesCount(l, n) && 0 <= z < SeriesSizeZ(l, s)
  }

  // ---- the scan ---------------------------------------------------------

  /** Positions among 1 .. k-1 whose IFD has the base geometry. */
  function SameIndices(ifds: seq<Ifd>, k: nat): set<int>
    requires k <= |ifds|
  {
    set i | 1 <= i < k && SameSize(ifds[i], ifds[0])
  }

  /** Number of IFDs among 1 .. k-1 with the base geometry. */
  function CountSame(ifds: seq<Ifd>, k: nat): nat
    requires k <= |ifds|
  {
    |SameIndices(ifds, k)|
  }

  /** None of IFDs 1 .. k-1 has the base geometry. */
  predicate NoRepeatBefore(ifds: seq<Ifd>, k: nat)
    requires k <= |ifds|
  {
    forall i :: 1 <= i < k ==> !SameSize(ifds[i], ifds[0])
  }

  lemma CountSameZero(ifds: seq<Ifd>, k: nat)
    requires k <= |ifds|
    ensures CountSame(ifds, k) == 0 <==> NoRepeatBefore(ifds, k)
  {
    if !NoRepeatBefore(ifds, k) {
      var i :| 1 <= i < k && SameSize(ifds[i], ifds[0]);
      assert i in SameIndices(ifds, k);
    }
  }

  /** Extending the range by one position adds one exactly when that IFD has the base geometry. */
  lemma CountSameStep(ifds: seq<Ifd>, k: nat)
    requires 1 < k <= |ifds|
    ensures CountSame(ifds, k) == CountSame(ifds, k - 1) + (if SameSize(ifds[k - 1], ifds[0]) then 1 else 0)
  {
    var extra: set<int> := if SameSize(ifds[k - 1], ifds[0]) then {k - 1} else {};
    assert SameIndices(ifds, k) == SameIndices(ifds, k - 1) + extra;
    assert k - 1 !in SameIndices(ifds, k - 1);
  }

  /** From any starting counters, each visited IFD adds to at most one of them. */
  lemma {:induction false} ScanGrowth(l0: Layout, ifds: seq<Ifd>, k: nat)
    requires k <= |ifds|
    ensures var l := ScanTo(l0, ifds, k);
      && l0.sizeZ <= l.sizeZ && l0.pyramidHeight <= l.pyramidHeight
      && l.sizeZ + l.pyramidHeight <= l0.sizeZ + l0.pyramidHeight + (if k == 0 then 0 else k - 1)
    decreases k
  {
    if k > 1 {
      ScanGrowth(l0, ifds, k - 1);
    }
  }

  /** From the initial counters, both are at least 1 and together at most n + 1. */
  lemma ScanBounds(ifds: seq<Ifd>)
    requires |ifds| >= 1
    ensures var l := Scan(Initial, ifds);
      l.sizeZ >= 1 && l.pyramidHeight >= 1 && l.sizeZ + l.pyramidHeight <= |ifds| + 1
  {
    ScanGrowth(Initial, ifds, |ifds|);
  }

  /**
   * Closed form of the scan from the initial counters: the Z depth is one more
   * than the number of later IFDs with the base geometry, and the pyramid
   * height is the position of the first such IFD (or n when there is none).
   */
  lemma {:induction false} ScanClosedForm(ifds: seq<Ifd>, k: nat)
    requires 1 <= k <= |ifds|
    ensures var l := ScanTo(Initial, ifds, k);
      && l.sizeZ == 1 + CountSame(ifds, k)
      && 1 <= l.pyramidHeight <= k
      && NoRepeatBefore(ifds, l.pyramidHeight)
      && (l.pyramidHeight == k || SameSize(ifds[l.pyramidHeight], ifds[0]))
    decreases k
  {
    if k > 1 {
      ScanClosedForm(ifds, k - 1);
      var p := ScanTo(Initial, ifds, k - 1);
      CountSameStep(ifds, k);
      CountSameZero(ifds, k - 1);
      if !SameSize(ifds[k - 1], ifds[0]) && p.sizeZ == 1 {
        assert p.pyramidHeight == k - 1;
        assert NoRepeatBefore(ifds, k);
      }
    }
  }

  /** Once a Z plane has been seen, the pyramid height no longer changes. */
  lemma {:induction false} PyramidFrozen(l0: Layout, ifds: seq<Ifd>, j: nat, k: nat)
    requires j <= k <= |ifds|
    requires ScanTo(l0, ifds, j).sizeZ > 1
    ensures ScanTo(l0, ifds, k).pyramidHeight == ScanTo(l0, ifds, j).pyramidHeight
    ensures ScanTo(l0, ifds, k).sizeZ > 1
    decreases k
  {
    if k > j {
      PyramidFrozen(l0, ifds, j, k - 1);
    }
  }

  // ---- the index mapping -------------------------------------------------

  /** Inverse of the mapping on the pyramid-by-Z block: level fastest, then plane. */
  function PyramidCoords(l: Layout, i: int): (sz: (int, int))
    requires l.pyramidHeight >= 1
  {
    (i % l.pyramidHeight, i / l.pyramidHeight)
  }

  /** Every (level, plane) of the block lands inside it, and the inverse recovers the pair. */
  lemma PyramidIndexRoundTrip(l: Layout, s: int, z: int)
    requires 0 <= s < l.pyramidHeight && 0 <= z < l.sizeZ
    ensures 0 <= IfdIndex(l, s, z) < l.pyramidHeight * l.sizeZ
    ensures PyramidCoords(l, IfdIndex(l, s, z)) == (s, z)
  {
    var ph := l.pyramidHeight;
    MulMonotone(z, l.sizeZ - 1, ph);
    assert (l.sizeZ - 1) * ph + ph == ph * l.sizeZ;
    var i := z * ph + s;
    DivModUnique(i, ph, z, s);
  }

  /** Every position of the block is the image of exactly the pair the inverse names. */
  lemma PyramidCoordsRoundTrip(l: Layout, i: int)
    requires l.pyramidHeight >= 1 && 0 <= i < l.pyramidHeight * l.sizeZ
    ensures var (s, z) := PyramidCoords(l, i);
      0 <= s < l.pyramidHeight && 0 <= z < l.sizeZ && IfdIndex(l, s, z) == i
  {
    var ph := l.pyramidHeight;
    var (s, z) := PyramidCoords(l, i);
    assert i == z * ph + s;
    if z >= l.sizeZ {
      MulMonotone(l.sizeZ, z, ph);
      assert false;
    }
  }

  /**
   * Every exposed (series, plane) names a stored sub-image: the series-count
   * formula alone guarantees it, for any counters of at least 1.
   */
  lemma PlaneIndexInRange(l: Layout, n: int, s: int, z: int)
    requires l.sizeZ >= 1 && l.pyramidHeight >= 1
    requires ValidPlane(l, n, s, z)
    ensures 0 <= IfdIndex(l, s, z) < n
  {
    var ph := l.pyramidHeight;
    if s < ph {
      MulMonotone(z, l.sizeZ - 1, ph);
      assert (l.sizeZ - 1) * ph + ph == ph * l.sizeZ;
    } else {
      MulMonotone(0, l.sizeZ, ph);
    }
  }

  /** Distinct exposed (series, plane) pairs name distinct stored sub-images. */
  lemma PlaneIndexInjective(l: Layout, n: int, s1: int, z1: int, s2: int, z2: int)
    requires l.sizeZ >= 1 && l.pyramidHeight >= 1
    requires ValidPlane(l, n, s1, z1) && ValidPlane(l, n, s2, z2)
    requires IfdIndex(l, s1, z1) == IfdIndex(l, s2, z2)
    ensures s1 == s2 && z1 == z2
  {
    var ph := l.pyramidHeight;
    if s1 < ph && s2 < ph {
      PyramidIndexRoundTrip(l, s1, z1);
      PyramidIndexRoundTrip(l, s2, z2);
    } else if s1 < ph {
      assert ph * l.sizeZ == l.sizeZ * ph;
      PyramidIndexRoundTrip(l, s1, z1);
    } else if s2 < ph {
      assert ph * l.sizeZ == l.sizeZ * ph;
      PyramidIndexRoundTrip(l, s2, z2);
    }
  }

  /** The (series, plane) the reader exposes for stored sub-image `i`. */
  function Locate(l: Layout, i: int): (sz: (int, int))
    requires l.pyramidHeight >= 1
  {
    if i < l.pyramidHeight * l.sizeZ then PyramidCoords(l, i)
    else (l.pyramidHeight + (i - l.pyramidHeight * l.sizeZ), 0)
  }

  /**
   * When the pyramid-by-Z block fits in the file, every stored sub-image is
   * exposed: the extra series cover [pyramidHeight * sizeZ, n) one each, and
   * with injectivity the mapping is a bijection onto [0, n).
   */
  lemma PlaneIndexOnto(l: Layout, n: int, i: int)
    requires l.sizeZ >= 1 && l.pyramidHeight >= 1
    requires l.pyramidHeight * l.sizeZ <= n
    requires 0 <= i < n
    ensures var (s, z) := Locate(l, i);
      ValidPlane(l, n, s, z) && IfdIndex(l, s, z) == i
    ensures i >= l.pyramidHeight * l.sizeZ ==> Locate(l, i).0 >= l.pyramidHeight
  {
    if i < l.pyramidHeight * l.sizeZ {
      PyramidCoordsRoundTrip(l, i);
      MulMonotone(1, l.sizeZ, l.pyramidHeight);
    } else {
      assert l.sizeZ * l.pyramidHeight == l.pyramidHeight * l.sizeZ;
    }
  }

  /** The extra series occupy the stored sub-images right after the block, one each. */
  lemma ExtraSeriesFollowBlock(l: Layout, n: int, s: int)
    requires l.sizeZ >= 1 && l.pyramidHeight >= 1
    requires l.pyramidHeight <= s < SeriesCount(l, n)
    ensures l.pyramidHeight * l.sizeZ <= IfdIndex(l, s, 0) < n
    ensures IfdIndex(l, s, 0) - l.pyramidHeight * l.sizeZ == s - l.pyramidHeight
  {
    assert l.sizeZ * l.pyramidHeight == l.pyramidHeight * l.sizeZ;
  }

  // ---- scenarios ---------------------------------------------------------

  /** One level with three Z planes: one series, plane 2 in sub-image 2. */
  lemma ZStackScenario(a: Ifd)
    ensures Scan(Initial, [a, a, a]) == Layout(3, 1)
    ensures SeriesCount(Layout(3, 1), 3) == 1
    ensures IfdIndex(Layout(3, 1), 0, 2) == 2
  {
    var ifds := [a, a, a];
    assert ScanTo(Initial, ifds, 2) == Layout(2, 1);
  }

  /** Three levels and no Z stack: three series, each in its own sub-image. */
  lemma PyramidScenario(a: Ifd, b: Ifd, c: Ifd)
    requires !SameSize(b, a) && !SameSize(c, a)
    ensures Scan(Initial, [a, b, c]) == Layout(1, 3)
    ensures SeriesCount(Layout(1, 3), 3) == 3
    ensures IfdIndex(Layout(1, 3), 1, 0) == 1 && IfdIndex(Layout(1, 3), 2, 0) == 2
  {
    var ifds := [a, b, c];
    assert ScanTo(Initial, ifds, 2) == Layout(1, 2);
  }

  /**
   * A level between Z planes breaks the formula: for sizes [A, B, A, A] the
   * scan gives three planes and two levels, so no series is exposed at all
   * and level 1's last plane would point past the end of the file.
   */
  lemma InterruptedStackScenario(a: Ifd, b: Ifd)
    requires !SameSize(b, a)
    ensures Scan(Initial, [a, b, a, a]) == Layout(3, 2)
    ensures SeriesCount(Layout(3, 2), 4) == 0
    ensures IfdIndex(Layout(3, 2), 1, 2) == 5
  {
    var ifds := [a, b, a, a];
    assert ScanTo(Initial, ifds, 2) == Layout(1, 2);
    assert ScanTo(Initial, ifds, 3) == Layout(2, 2);
  }

  /** With three levels before the Z stack, [A, B, C, A, A, A] yields a negative series count. */
  lemma NegativeSeriesCountScenario(a: Ifd, b: Ifd, c: Ifd)
    requires !SameSize(b, a) && !SameSize(c, a)
    ensures Scan(Initial, [a, b, c, a, a, a]) == Layout(4, 3)
    ensures SeriesCount(Layout(4, 3), 6) == -3
  {
    var ifds := [a, b, c, a, a, a];
    assert ScanTo(Initial, ifds, 2) == Layout(1, 2);
    assert ScanTo(Initial, ifds, 3) == Layout(1, 3);
    assert ScanTo(Initial, ifds, 4) == Layout(2, 3);
    assert ScanTo(Initial, ifds, 5) == Layout(3, 3);
  }
}
