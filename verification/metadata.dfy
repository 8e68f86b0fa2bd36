/** Per-series descriptors built from the resolved layout. */
module SeriesMetadata {
  import opened Outcomes
  import opened JavaInt
  import opened Ifds
  import opened PyramidLayout

  /** Pixel-dimension ceiling below which a plane is decoded directly from its strips. */
  const MaxSize := 8192

  /** The core metadata the reader sets for one series. */
  datatype SeriesDescriptor = SeriesDescriptor(
    sizeX: int,
    sizeY: int,
    sizeZ: nat,
    sizeC: nat,
    sizeT: nat,
    imageCount: nat,
    rgb: bool,
    littleEndian: bool,
    bytesPerPixel: nat,
    metadataComplete: bool,
    interleaved: bool,
    falseColor: bool,
    dimensionOrder: string,
    thumbnail: bool)

  /** The descriptor of series `s` whose plane 0 is `ifd`; widths pass through Java's `(int)` cast. */
  function Describe(ifd: Ifd, l: Layout, s: int): SeriesDescriptor {
    var rgb := ifd.samples > 1 || ifd.photometric == Rgb;
    var sizeX := Int32(ifd.width);
    var sizeY := Int32(ifd.height);
    var sizeZ := SeriesSizeZ(l, s);
    SeriesDescriptor(
      sizeX := sizeX,
      sizeY := sizeY,
      sizeZ := sizeZ,
      sizeC := if rgb then ifd.samples else 1,
      sizeT := 1,
      imageCount := sizeZ * 1,
      rgb := rgb,
      littleEndian := ifd.littleEndian,
      bytesPerPixel := ifd.bytesPerPixel,
      metadataComplete := true,
      interleaved := sizeX > MaxSize || sizeY > MaxSize,
      falseColor := false,
      dimensionOrder := "XYCZT",
      thumbnail := s != 0)
  }

  /** The stored sub-image holding plane 0 of series `s`. */
  function Representative(l: Layout, n: int, s: int): (i: nat)
    requires l.sizeZ >= 1 && l.pyramidHeight >= 1
    requires 0 <= s < SeriesCount(l, n)
    ensures i == IfdIndex(l, s, 0) && i < n
  {
    PlaneIndexInRange(l, n, s, 0);
    IfdIndex(l, s, 0)
  }

  /** What the reader promises about series `s` of a file with sub-images `ifds`. */
  ghost predicate Describes(d: SeriesDescriptor, ifds: seq<Ifd>, l: Layout, s: int) {
    && 0 <= IfdIndex(l, s, 0) < |ifds|
    && var ifd := ifds[IfdIndex(l, s, 0)];
    && d.sizeX == Int32(ifd.width) && d.sizeY == Int32(ifd.height)
    && d.sizeZ == (if s < l.pyramidHeight then l.sizeZ else 1)
    && d.sizeT == 1 && d.imageCount == d.sizeZ
    && (d.rgb <==> ifd.samples > 1 || ifd.photometric == Rgb)
    && d.sizeC == (if d.rgb then ifd.samples else 1)
    && d.littleEndian == ifd.littleEndian && d.bytesPerPixel == ifd.bytesPerPixel
    && (d.interleaved <==> d.sizeX > MaxSize || d.sizeY > MaxSize)
    && (d.thumbnail <==> s != 0)
    && d.dimensionOrder == "XYCZT"
  }

  /**
   * One descriptor per series; a negative series count is the array
   * allocation failing.
   */
  function BuildCore(ifds: seq<Ifd>, l: Layout): (r: Result<seq<SeriesDescriptor>>)
    requires l.sizeZ >= 1 && l.pyramidHeight >= 1
    ensures r.Failure? <==> SeriesCount(l, |ifds|) < 0
    ensures r.Failure? ==> r.error == NegativeArraySize
    ensures r.Success? ==> |r.value| == SeriesCount(l, |ifds|)
    ensures r.Success? ==> forall s :: 0 <= s < |r.value| ==> Describes(r.value[s], ifds, l, s)
    ensures r.Success? ==> PlaneCounts(r.value, l)
  {
    var count := SeriesCount(l, |ifds|);
    if count < 0 then Failure(NegativeArraySize)
    else Success(seq(count, s requires 0 <= s < count => Describe(ifds[Representative(l, |ifds|, s)], l, s)))
  }

  /** Each series has the plane count its layout gives it. */
  predicate PlaneCounts(core: seq<SeriesDescriptor>, l: Layout) {
    forall s :: 0 <= s < |core| ==> core[s].imageCount == SeriesSizeZ(l, s)
  }

  /** Total number of planes over a list of series. */
  function TotalImageCount(core: seq<SeriesDescriptor>): nat {
    if |core| == 0 then 0 else TotalImageCount(core[..|core| - 1]) + core[|core| - 1].imageCount
  }

  lemma {:induction false} TotalImageCountPrefix(l: Layout, core: seq<SeriesDescriptor>, k: nat)
    requires PlaneCounts(core, l)
    requires k <= |core|
    ensures TotalImageCount(core[..k]) ==
      if k <= l.pyramidHeight then k * l.sizeZ
      else l.pyramidHeight * l.sizeZ + (k - l.pyramidHeight)
    decreases k
  {
    if k > 0 {
      TotalImageCountPrefix(l, core, k - 1);
      assert core[..k][..k - 1] == core[..k - 1];
      assert (k - 1) * l.sizeZ + l.sizeZ == k * l.sizeZ;
    }
  }

  /**
   * When the series count covers every pyramid level (that is, the
   * pyramid-by-Z block fits in the file), the series' planes add up to the
   * number of stored sub-images: every one is exposed exactly once.
   */
  lemma TotalPlanes(l: Layout, n: int, core: seq<SeriesDescriptor>)
    requires |core| == SeriesCount(l, n) >= l.pyramidHeight
    requires PlaneCounts(core, l)
    ensures TotalImageCount(core) == n
  {
    TotalImageCountPrefix(l, core, |core|);
    assert core[..|core|] == core;
  }
}
