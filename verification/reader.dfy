/**
 * The Hamamatsu NDPI reader's own state and operations: opening (layout scan
 * and series descriptors), the region read with its staged-decoder cache,
 * thumbnail redirection to the smallest pyramid level, and close.
 */
module NdpiReader {
  import opened Outcomes
  import opened Ifds
  import opened PyramidLayout
  import opened SeriesMetadata
  import opened TileGeometry
  import opened RowCopy
  import opened Arith

  /** What the scanline decoder was last initialised with: a stored sub-image and a row window. */
  datatype Session = Session(ifdIndex: nat, y: int, h: int)

  /** The decoder service: not instantiated, instantiated with no session, or primed. */
  datatype Service = Absent | Idle | Primed(session: Session)

  /** The reader's state: the file's sub-images, the layout counters, the series, and the cache fields. */
  datatype Reader = Reader(
    ifds: seq<Ifd>,
    layout: Layout,
    core: seq<SeriesDescriptor>,
    series: nat,
    initializedSeries: int,
    initializedPlane: int,
    service: Service)

  /** Decoded row `row` of a session, or None when the decoder cannot produce it. */
  type Decoder = (Session, int) -> Option<Bytes>

  /** Direct strip decoding of a rectangle of one sub-image into a buffer. */
  type SampleReader = (Ifd, Bytes, int, int, int, int) -> Result<Bytes>

  /** A thumbnail path: the bytes (or the exception) and the reader state it leaves. */
  datatype Thumb = Thumb(result: Result<Bytes>, reader: Reader)

  type ThumbPath = (Reader, int) -> Thumb

  /** The field initialisers of a new reader. */
  function NewReader(): Reader {
    Reader([], Initial, [], 0, -1, -1, Absent)
  }

  /** A decoder with no session yields no rows. */
  function Scanline(service: Service, decode: Decoder, row: int): Option<Bytes> {
    if service.Primed? then decode(service.session, row) else None
  }

  /** A primed session decodes exactly the sub-image of the cached (series, plane). */
  ghost predicate StagedFor(r: Reader) {
    r.service.Primed? ==>
      && 0 <= r.initializedSeries < |r.core|
      && 0 <= r.initializedPlane < r.core[r.initializedSeries].imageCount
      && r.service.session.ifdIndex == IfdIndex(r.layout, r.initializedSeries, r.initializedPlane)
  }

  /**
   * The state of an opened reader: one descriptor per series, each with the
   * plane count its layout gives it, a valid active series, a decoder
   * service, and a primed session only for the cached (series, plane).
   */
  ghost predicate Valid(r: Reader) {
    && r.layout.sizeZ >= 1 && r.layout.pyramidHeight >= 1
    && |r.core| == SeriesCount(r.layout, |r.ifds|)
    && r.series < |r.core|
    && PlaneCounts(r.core, r.layout)
    && r.service != Absent
    && StagedFor(r)
  }

  function Current(r: Reader): SeriesDescriptor
    requires r.series < |r.core|
  {
    r.core[r.series]
  }

  // ---- opening -------------------------------------------------------------

  /** An open: the exception it raised, if any, and the reader state it leaves either way. */
  datatype Opened = Opened(error: Option<Error>, reader: Reader)

  /**
   * Opening a file: instantiate the decoder, scan the sub-images starting
   * from the reader's current counters, allocate one descriptor per series
   * and select series 0. The cache fields are not touched. A failed open
   * still leaves the new decoder, the IFD list and the advanced counters
   * behind; a zero count also leaves the empty descriptor array.
   */
  function InitStandardMetadata(r: Reader, ifds: seq<Ifd>): (res: Opened)
    requires r.layout.sizeZ >= 1 && r.layout.pyramidHeight >= 1
    ensures res.error.None? <==> SeriesCount(Scan(r.layout, ifds), |ifds|) > 0
    ensures res.error.Some? ==>
      res.error.value == (if SeriesCount(Scan(r.layout, ifds), |ifds|) < 0 then NegativeArraySize else InvalidSeries)
    ensures res.reader.ifds == ifds && res.reader.layout == Scan(r.layout, ifds)
    ensures res.reader.layout.sizeZ >= 1 && res.reader.layout.pyramidHeight >= 1
    ensures res.reader.service == Idle
    ensures res.reader.initializedSeries == r.initializedSeries
    ensures res.reader.initializedPlane == r.initializedPlane
    ensures res.error.None? ==>
      && Valid(res.reader)
      && BuildCore(ifds, res.reader.layout) == Success(res.reader.core)
      && |res.reader.core| == SeriesCount(Scan(r.layout, ifds), |ifds|)
      && res.reader.series == 0
    ensures SeriesCount(Scan(r.layout, ifds), |ifds|) == 0 ==> res.reader.core == [] && res.reader.series == r.series
    ensures SeriesCount(Scan(r.layout, ifds), |ifds|) < 0 ==> res.reader.core == r.core && res.reader.series == r.series
  {
    var l := Scan(r.layout, ifds);
    ScanGrowth(r.layout, ifds, |ifds|);
    var scanned := r.(ifds := ifds, layout := l, service := Idle);
    match BuildCore(ifds, l)
    case Failure(e) => Opened(Some(e), scanned)
    case Success(core) =>
      if |core| == 0 then Opened(Some(InvalidSeries), scanned.(core := core))
      else Opened(None, scanned.(core := core, series := 0))
  }

  /**
   * A failed open is not rolled back: [A, B, C, A, A, A] fails with the
   * counters at (4, 3), and opening [A, B] from there fails too, although a
   * new reader exposes two series for it.
   */
  lemma StaleCountersAfterFailedOpen(a: Ifd, b: Ifd, c: Ifd)
    requires !SameSize(b, a) && !SameSize(c, a)
    ensures var bad := InitStandardMetadata(NewReader(), [a, b, c, a, a, a]);
      && bad.error == Some(NegativeArraySize)
      && bad.reader.layout == Layout(4, 3)
      && InitStandardMetadata(bad.reader, [a, b]).error == Some(NegativeArraySize)
    ensures InitStandardMetadata(NewReader(), [a, b]).error.None?
    ensures |InitStandardMetadata(NewReader(), [a, b]).reader.core| == 2
  {
    NegativeSeriesCountScenario(a, b, c);
    assert Scan(Layout(4, 3), [a, b]) == Layout(4, 3);
    assert Scan(Initial, [a, b]) == Layout(1, 2);
  }

  // ---- close ---------------------------------------------------------------

  /**
   * Closing: a full close releases the decoder and resets the cache fields and
   * counters. The base reader's part of close is not modelled, so the last
   * ensures only frames the fields this reader owns: it says this reader's own
   * code leaves the IFD list, descriptors and active series alone, not that
   * they survive the base reader's close.
   */
  function Close(r: Reader, fileOnly: bool): (c: Reader)
    ensures fileOnly ==> c == r
    ensures !fileOnly ==>
      && c.service == Absent && c.initializedSeries == -1 && c.initializedPlane == -1
      && c.layout == Initial
      && c.ifds == r.ifds && c.core == r.core && c.series == r.series
  {
    if fileOnly then r
    else r.(service := Absent, initializedSeries := -1, initializedPlane := -1, layout := Initial)
  }

  /**
   * Re-opening after a full close is the same as opening with a new reader:
   * exactly so when the open succeeds, and up to the descriptors and active
   * series (fields the base reader's close owns) when it fails.
   */
  lemma ReopenAfterClose(r: Reader, ifds: seq<Ifd>)
    ensures var a, b := InitStandardMetadata(Close(r, false), ifds), InitStandardMetadata(NewReader(), ifds);
      && a.error == b.error
      && a.reader.(core := b.reader.core, series := b.reader.series) == b.reader
      && (a.error.None? ==> a == b)
  {
  }

  /**
   * Why the counters are reset: re-scanning [A, B] with the counters a file
   * [A, A] left behind finds one series instead of two.
   */
  lemma StaleCountersWithoutReset(a: Ifd, b: Ifd)
    requires !SameSize(b, a)
    ensures InitStandardMetadata(NewReader(), [a, a]).error.None?
    ensures var r := InitStandardMetadata(NewReader(), [a, a]).reader;
      && InitStandardMetadata(Close(r, true), [a, b]).error.None?
      && |InitStandardMetadata(Close(r, true), [a, b]).reader.core| == 1
    ensures InitStandardMetadata(NewReader(), [a, b]).error.None?
    ensures |InitStandardMetadata(NewReader(), [a, b]).reader.core| == 2
  {
    assert Scan(Initial, [a, a]) == Layout(2, 1);
    assert Scan(Layout(2, 1), [a, b]) == Layout(2, 1);
    assert Scan(Initial, [a, b]) == Layout(1, 2);
  }

  // ---- the read path -------------------------------------------------------

  /** The stored sub-image of plane `no` of the current series. */
  function PlaneIfd(r: Reader, no: int): (i: nat)
    requires Valid(r)
    requires 0 <= no < Current(r).imageCount
    ensures i < |r.ifds| && i == IfdIndex(r.layout, r.series, no)
  {
    PlaneIndexInRange(r.layout, |r.ifds|, r.series, no);
    IfdIndex(r.layout, r.series, no)
  }

  /** What the plane check accepts: a real plane, a rectangle inside it, and a buffer that holds it. */
  predicate PlaneOk(d: SeriesDescriptor, no: int, bufLen: int, x: int, y: int, w: int, h: int) {
    && 0 <= no < d.imageCount
    && 0 <= x && 0 <= y && 1 <= w && 1 <= h
    && x + w <= d.sizeX && y + h <= d.sizeY
    && w * h * RgbChannelCount(d) * d.bytesPerPixel <= bufLen
  }

  /** The one-pixel probe at the origin. */
  predicate IsProbe(x: int, y: int, w: int, h: int) {
    x == 0 && y == 0 && w == 1 && h == 1
  }

  /** Both dimensions within the direct-decode threshold. */
  predicate SmallImage(d: SeriesDescriptor) {
    d.sizeX <= MaxSize && d.sizeY <= MaxSize
  }

  /** A request served through the staged decoder. */
  predicate Staged(r: Reader, no: int, bufLen: int, x: int, y: int, w: int, h: int)
    requires r.series < |r.core|
  {
    PlaneOk(Current(r), no, bufLen, x, y, w, h) && !IsProbe(x, y, w, h) && !SmallImage(Current(r))
  }

  /** The cached (series, plane) is not the requested one. */
  predicate Miss(r: Reader, no: int) {
    r.initializedSeries != r.series || r.initializedPlane != no
  }

  /** A request at the origin whose width is the optimal tile width. */
  predicate TileRequest(x: int, y: int, w: int, tileWidth: int) {
    x == 0 && y == 0 && w == tileWidth
  }

  /** On a miss, the priming test asks for the optimal tile height, which can fail. */
  predicate TileHeightFails(r: Reader, no: int, x: int, y: int, w: int, tileWidth: int)
    requires r.series < |r.core|
  {
    Miss(r, no) && TileRequest(x, y, w, tileWidth) && OptimalTileHeight(Current(r)).Failure?
  }

  /** A miss on a request of exactly the optimal tile size at the origin: prime the whole image. */
  predicate BulkPrime(r: Reader, no: int, x: int, y: int, w: int, h: int, tileWidth: int)
    requires r.series < |r.core|
  {
    Miss(r, no) && TileRequest(x, y, w, tileWidth) && OptimalTileHeight(Current(r)) == Success(h)
  }

  /** Bytes of one destination row. */
  function RowSize(d: SeriesDescriptor, w: nat): nat {
    ProductNonNegative(w, RgbChannelCount(d), d.bytesPerPixel);
    w * RgbChannelCount(d) * d.bytesPerPixel
  }

  /** Offset in a scanline of the first requested column. */
  function SrcOffset(d: SeriesDescriptor, x: nat): nat {
    ProductNonNegative(x, RgbChannelCount(d), d.bytesPerPixel);
    x * RgbChannelCount(d) * d.bytesPerPixel
  }

  /**
   * The outcome of a staged request: unless the tile-height test fails, the
   * cache now names the requested (series, plane), the decoder is primed for
   * its sub-image (the whole image for a bulk tile read on a miss, the
   * requested band otherwise, and not re-primed on a hit whose first row is
   * available), and the buffer holds the available rows of the band.
   */
  ghost predicate StagedOutcome(r: Reader, no: int, buf: Bytes, x: int, y: int, w: int, h: int,
                                tileWidth: int, decode: Decoder, res: Result<Bytes>, r': Reader)
    requires Valid(r) && Staged(r, no, |buf|, x, y, w, h)
  {
    if TileHeightFails(r, no, x, y, w, tileWidth) then
      res == Failure(DivideByZero) && r' == r
    else
      && r' == r.(initializedSeries := r.series, initializedPlane := no, service := r'.service)
      && r'.service.Primed? && r'.service.session.ifdIndex == PlaneIfd(r, no)
      && (Miss(r, no) ==>
            r'.service.session == if BulkPrime(r, no, x, y, w, h, tileWidth)
                                  then Session(PlaneIfd(r, no), 0, 0)
                                  else Session(PlaneIfd(r, no), y, h))
      && (!Miss(r, no) ==>
            r'.service == if Scanline(r.service, decode, y).None?
                          then Primed(Session(PlaneIfd(r, no), y, h))
                          else r.service)
      && (res.Failure? <==>
            exists yy :: y <= yy < y + h &&
              ShortRow(decode, r'.service.session, yy, SrcOffset(Current(r), x), RowSize(Current(r), w)))
      && (res.Failure? ==> res.error == IndexOutOfBounds)
      && (res.Success? ==>
            Pasted(buf, res.value, decode, r'.service.session, y, h,
                   RowSize(Current(r), w), SrcOffset(Current(r), x)))
  }

  /**
   * Reads the rectangle (x, y, w, h) of plane `no` of the current series into
   * `buf`. Returns the bytes (or the exception) and the reader state after
   * the call.
   */
  method OpenBytes(r: Reader, no: int, buf: Bytes, x: int, y: int, w: int, h: int,
                   tileWidth: int, getSamples: SampleReader, decode: Decoder)
    returns (res: Result<Bytes>, r': Reader)
    requires Valid(r)
    ensures Valid(r')
    ensures !PlaneOk(Current(r), no, |buf|, x, y, w, h) ==> res == Failure(InvalidPlane) && r' == r
    ensures PlaneOk(Current(r), no, |buf|, x, y, w, h) && IsProbe(x, y, w, h) ==>
      res == Success(buf) && r' == r
    ensures PlaneOk(Current(r), no, |buf|, x, y, w, h) && !IsProbe(x, y, w, h) && SmallImage(Current(r)) ==>
      r' == r && res == getSamples(r.ifds[PlaneIfd(r, no)], buf, x, y, w, h)
    ensures Staged(r, no, |buf|, x, y, w, h) ==>
      StagedOutcome(r, no, buf, x, y, w, h, tileWidth, decode, res, r')
  {
    var d := Current(r);
    if !PlaneOk(d, no, |buf|, x, y, w, h) {
      return Failure(InvalidPlane), r;
    }
    if IsProbe(x, y, w, h) {
      return Success(buf), r;
    }
    if SmallImage(d) {
      var idx := PlaneIfd(r, no);
      res := getSamples(r.ifds[idx], buf, x, y, w, h);
      return res, r;
    }
    res, r' := ReadStaged(r, no, buf, x, y, w, h, tileWidth, decode);
  }

  /** The large-image branch of `OpenBytes`: re-stage the decoder when needed, then copy the rows. */
  method ReadStaged(r: Reader, no: int, buf: Bytes, x: int, y: int, w: int, h: int,
                    tileWidth: int, decode: Decoder)
    returns (res: Result<Bytes>, r': Reader)
    requires Valid(r) && Staged(r, no, |buf|, x, y, w, h)
    ensures Valid(r')
    ensures StagedOutcome(r, no, buf, x, y, w, h, tileWidth, decode, res, r')
  {
    var d := Current(r);
    var idx := PlaneIfd(r, no);
    r' := r;
    if Miss(r, no) {
      var bulk := false;
      if TileRequest(x, y, w, tileWidth) {
        var t := OptimalTileHeight(d);
        if t.Failure? {
          return Failure(t.error), r;
        }
        bulk := h == t.value;
      }
      var session := if bulk then Session(idx, 0, 0) else Session(idx, y, h);
      r' := r'.(service := Primed(session));
      r' := r'.(initializedSeries := r.series, initializedPlane := no);
    } else if Scanline(r.service, decode, y).None? {
      r' := r'.(service := Primed(Session(idx, y, h)));
    }
    CacheUpdateValid(r, r', no);

    BandFitsBuffer(w, h, RgbChannelCount(d), d.bytesPerPixel, |buf|);
    res := CopyRows(buf, decode, r'.service.session, y, h, RowSize(d, w), SrcOffset(d, x));
  }

  /** Pointing the cache at a plane of the current series, with a session for its sub-image, keeps the reader valid. */
  lemma CacheUpdateValid(r: Reader, r': Reader, no: int)
    requires Valid(r) && 0 <= no < Current(r).imageCount
    requires r' == r.(initializedSeries := r'.initializedSeries, initializedPlane := r'.initializedPlane,
                      service := r'.service)
    requires r'.service.Primed?
    requires r'.initializedSeries == r.series && r'.initializedPlane == no
    requires r'.service.session.ifdIndex == IfdIndex(r.layout, r.series, no)
    ensures Valid(r')
  {
  }

  lemma BandFitsBuffer(w: int, h: int, c: int, bytes: int, bufLen: int)
    requires w * h * c * bytes <= bufLen
    ensures h * (w * c * bytes) <= bufLen
  {
    assert h * (w * c * bytes) == w * h * c * bytes;
  }

  /** A series is read through the staged decoder exactly when its descriptor says interleaved. */
  lemma StagedIffInterleaved(ifds: seq<Ifd>, l: Layout, core: seq<SeriesDescriptor>, s: int)
    requires l.sizeZ >= 1 && l.pyramidHeight >= 1
    requires BuildCore(ifds, l) == Success(core)
    requires 0 <= s < |core|
    ensures !SmallImage(core[s]) <==> core[s].interleaved
  {
    assert Describes(core[s], ifds, l, s);
  }

  // ---- thumbnails ----------------------------------------------------------

  /**
   * Thumbnail of plane `no`: extra series use the base path directly;
   * pyramid levels switch to the smallest level, run the generic path, and
   * switch back on normal return only.
   */
  function OpenThumbBytes(r: Reader, no: int, baseThumb: ThumbPath, genericThumb: ThumbPath): (t: Thumb)
    ensures r.series >= r.layout.pyramidHeight ==> t == baseThumb(r, no)
    ensures r.series < r.layout.pyramidHeight <= |r.core| ==>
      t.result == genericThumb(r.(series := r.layout.pyramidHeight - 1), no).result
    ensures r.series < r.layout.pyramidHeight <= |r.core| && t.result.Success? ==> t.reader.series == r.series
    ensures r.series < r.layout.pyramidHeight <= |r.core| ==>
      var g := genericThumb(r.(series := r.layout.pyramidHeight - 1), no);
      && t.reader == g.reader.(series := t.reader.series)
      && (g.result.Failure? ==> t.reader.series == g.reader.series)
    ensures r.series < r.layout.pyramidHeight && |r.core| < r.layout.pyramidHeight ==>
      t == Thumb(Failure(InvalidSeries), r)
  {
    if r.series >= r.layout.pyramidHeight then baseThumb(r, no)
    else if r.layout.pyramidHeight - 1 >= |r.core| then Thumb(Failure(InvalidSeries), r)
    else
      var t := genericThumb(r.(series := r.layout.pyramidHeight - 1), no);
      if t.result.Success? then t.(reader := t.reader.(series := r.series)) else t
  }

  /** On normal return the active series is the one on entry, whenever the base path keeps it. */
  lemma ThumbRestoresSeries(r: Reader, no: int, baseThumb: ThumbPath, genericThumb: ThumbPath)
    requires r.series >= r.layout.pyramidHeight ==> baseThumb(r, no).reader.series == r.series
    ensures OpenThumbBytes(r, no, baseThumb, genericThumb).result.Success? ==>
      OpenThumbBytes(r, no, baseThumb, genericThumb).reader.series == r.series
  {
  }

  /**
   * There is no restoration on the exception path: a generic path that
   * fails and keeps the series it was given leaves the reader on the
   * smallest pyramid level.
   */
  lemma ThumbNotRestoredOnFailure(r: Reader, no: int, baseThumb: ThumbPath, genericThumb: ThumbPath)
    requires r.series + 1 < r.layout.pyramidHeight <= |r.core|
    requires var g := genericThumb(r.(series := r.layout.pyramidHeight - 1), no);
      g.result.Failure? && g.reader.series == r.layout.pyramidHeight - 1
    ensures var t := OpenThumbBytes(r, no, baseThumb, genericThumb);
      t.result.Failure? && t.reader.series == r.layout.pyramidHeight - 1 != r.series
  {
  }
}
