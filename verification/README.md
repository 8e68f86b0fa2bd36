# Hamamatsu NDPI pyramid reader — a Dafny model

This project models the geometry and bookkeeping core of the Bio-Formats
reader for Hamamatsu `.ndpi` slides (`NDPIReader`). Such a file holds a base
image, an optional Z stack of same-sized planes, a pyramid of
reduced-resolution copies and possibly auxiliary images, all stored as TIFF
sub-images (IFDs). The reader:

- infers the Z depth (`sizeZ`) and the number of pyramid levels
  (`pyramidHeight`) from the IFD sizes alone, in one scan;
- computes the series count `pyramidHeight + (n - pyramidHeight * sizeZ)` and
  maps (series, plane) to a stored IFD, level-fastest inside the
  pyramid-by-Z block, with the extra flat series after that block;
- builds one core-metadata descriptor per series;
- serves pixel rectangles. Small images are decoded directly. Large ones go
  through a stateful scanline decoder (JPEG through Jimi), and the reader
  caches which (series, plane) the decoder is primed for;
- redirects thumbnails of pyramid levels to the smallest level, and resets
  its state on close.

Modules, leaves first:

- `Outcomes`: `Option`, `Result`, and the exceptions as an `Error` value.
- `Arith`: non-linear arithmetic facts.
- `JavaInt`: Java's 32-bit wrap-around (`Int32`) and division truncating toward zero (`JavaDiv`).
- `Ifds`: the per-IFD record the core reads: width, length, samples, photometric interpretation, endianness, bytes per pixel.
- `PyramidLayout`: the scan, the series count, the index mapping and its inverse.
- `SeriesMetadata`: series descriptors and the `MaxSize` threshold of 8192.
- `TileGeometry`: the optimal tile height from the 1 MiB budget.
- `RowCopy`: the scanline-to-buffer copy loop.
- `NdpiReader`: the reader state, opening, `openBytes`, `openThumbBytes` and `close`.

The reader's mutable fields are an immutable `Reader` value. Each operation
returns the new state next to its result, and the state after an exception is
returned as well: a failed open (`Opened`) keeps the new decoder, the IFD list
and the advanced counters (`StaleCountersAfterFailedOpen`). `Valid` is the invariant of an opened reader:

- there is one descriptor per series, each with the plane count the layout gives it (`InitStandardMetadata` builds them with `BuildCore`);
- the active series exists;
- a decoder service exists;
- a primed decoder session belongs to the cached (series, plane).

`OpenBytes` preserves `Valid`.

Behaviour of the code worth knowing (the model follows the code):

- An empty IFD list is not rejected by the scan. It yields zero series, and
  selecting series 0 then fails (`InvalidSeries`).
- The series count can be zero or negative (`InterruptedStackScenario`,
  `NegativeSeriesCountScenario`). A negative count fails the array allocation.
- The thumbnail path does not restore the active series when the generic
  thumbnail call fails (`ThumbNotRestoredOnFailure`). The code has no
  try/finally.
- For every exposed (series, plane), the mapped index is inside the file with
  no further assumption in unbounded arithmetic (`PlaneIndexInRange`). The series-count formula
  guarantees it. The condition `pyramidHeight * sizeZ <= n` is needed only for
  every IFD to be exposed (`PlaneIndexOnto`, `TotalPlanes`).

## Model

| member | source | states |
|---|---|---|
| `PyramidLayout.Step` | components/bio-formats/src/loci/formats/in/NDPIReader.java:180-190 | one IFD adds to at most one counter: a base-sized IFD adds exactly one Z plane; while sizeZ is still 1 a differently sized IFD adds exactly one level, and a level is added at no other time; once sizeZ > 1, a differently sized IFD changes neither counter |
| `PyramidLayout.ScanGrowth` | components/bio-formats/src/loci/formats/in/NDPIReader.java:180-190 | from any starting counters the scan never decreases them, and their sum grows by at most one per IFD after the first |
| `PyramidLayout.ScanBounds` | components/bio-formats/src/loci/formats/in/NDPIReader.java:180-190 | from the initial counters, for n >= 1 IFDs: sizeZ >= 1, pyramidHeight >= 1, sizeZ + pyramidHeight <= n + 1 |
| `PyramidLayout.ScanClosedForm` | components/bio-formats/src/loci/formats/in/NDPIReader.java:180-190 | sizeZ is 1 plus the number of later IFDs with IFD 0's size; pyramidHeight is the position of the first such IFD, or n if there is none |
| `PyramidLayout.PyramidFrozen` | components/bio-formats/src/loci/formats/in/NDPIReader.java:186-189 | once a same-size IFD has been seen, no later IFD changes pyramidHeight |
| `PyramidLayout.PyramidIndexRoundTrip` | components/bio-formats/src/loci/formats/in/NDPIReader.java:277-280 | for level < pyramidHeight and z < sizeZ, the index z*pyramidHeight + level is in [0, pyramidHeight*sizeZ), and (index mod L, index div L) gives back (level, z) |
| `PyramidLayout.PyramidCoordsRoundTrip` | components/bio-formats/src/loci/formats/in/NDPIReader.java:277-280 | every index in [0, pyramidHeight*sizeZ) is the image of the (level, z) given by the inverse; with the previous row, the block mapping is a bijection |
| `PyramidLayout.PlaneIndexInRange` | components/bio-formats/src/loci/formats/in/NDPIReader.java:277-283 | for any counters >= 1, every series below the count of line 192 and every plane below that series' sizeZ maps into [0, n) |
| `PyramidLayout.PlaneIndexInjective` | components/bio-formats/src/loci/formats/in/NDPIReader.java:277-283 | two exposed (series, plane) pairs that map to the same IFD are the same pair |
| `PyramidLayout.PlaneIndexOnto` | components/bio-formats/src/loci/formats/in/NDPIReader.java:277-283 | when pyramidHeight*sizeZ <= n, every IFD in [0, n) is the image of an exposed pair; IFDs past the block belong to extra series |
| `PyramidLayout.ExtraSeriesFollowBlock` | components/bio-formats/src/loci/formats/in/NDPIReader.java:282 | extra series s maps to an IFD in [pyramidHeight*sizeZ, n), at offset s - pyramidHeight past the block |
| `PyramidLayout.ZStackScenario` | components/bio-formats/src/loci/formats/in/NDPIReader.java:180-192 | three equal-sized IFDs: sizeZ 3, one level, one series; plane 2 of series 0 is IFD 2 |
| `PyramidLayout.PyramidScenario` | components/bio-formats/src/loci/formats/in/NDPIReader.java:180-192 | three IFDs of new sizes: three levels, three series; (1,0) is IFD 1 and (2,0) is IFD 2 |
| `PyramidLayout.InterruptedStackScenario` | components/bio-formats/src/loci/formats/in/NDPIReader.java:180-192 | sizes [A, B, A, A] give sizeZ 3 and two levels, so zero series; level 1's plane 2 would be IFD 5 of 4 |
| `PyramidLayout.NegativeSeriesCountScenario` | components/bio-formats/src/loci/formats/in/NDPIReader.java:180-193 | sizes [A, B, C, A, A, A] give a series count of -3 |
| `SeriesMetadata.BuildCore` | components/bio-formats/src/loci/formats/in/NDPIReader.java:205-229 | fails exactly when the series count is negative; otherwise one descriptor per series, each taken from the series' plane-0 IFD: sizeZ is the global sizeZ for levels and 1 for extra series; sizeT = 1 and imageCount = sizeZ; rgb iff samples > 1 or photometric RGB; sizeC is samples if rgb, else 1; interleaved iff a dimension exceeds 8192; thumbnail iff series != 0 |
| `SeriesMetadata.TotalPlanes` | components/bio-formats/src/loci/formats/in/NDPIReader.java:205-222 | when the series count covers every pyramid level (equivalently pyramidHeight*sizeZ <= n) and each series has its layout's plane count, the imageCounts of all series add up to the number of IFDs |
| `JavaInt.Int32` | components/bio-formats/src/loci/formats/in/NDPIReader.java:214-215 | Java's int narrowing: the result lies in the 32-bit range, equals the input modulo 2^32, and is the input itself when that fits |
| `JavaInt.JavaDiv` | components/bio-formats/src/loci/formats/in/NDPIReader.java:159 | truncating division over unbounded integers, as Java divides when the quotient fits (the one call divides 2^20): the quotient's magnitude is the floor of the magnitudes' quotient, and a non-zero quotient's sign reflects the operands' signs |
| `TileGeometry.OptimalTileHeight` | components/bio-formats/src/loci/formats/in/NDPIReader.java:156-161 | divides by zero exactly when the 32-bit row size is 0; otherwise the result is at most sizeY; with a positive row size the band fits in 1 MiB and, when below sizeY, is the largest that does (so it is min(1 MiB div row size, sizeY)); with a negative row size it is at most 0 |
| `TileGeometry.TileFitsBudget` | components/bio-formats/src/loci/formats/in/NDPIReader.java:156-161 | without overflow, the height is in [0, sizeY], its band fits the 1 MiB budget, and one more row would not fit unless the height is sizeY |
| `TileGeometry.TileHeightWrapsToZero` | components/bio-formats/src/loci/formats/in/NDPIReader.java:159 | a 2^30-wide, four-channel, one-byte row overflows to 0 and the computation divides by zero |
| `RowCopy.CopyRows` | components/bio-formats/src/loci/formats/in/NDPIReader.java:111-120 | fails exactly when some present scanline in the band is too short for the columns; otherwise each byte of a present row's stride comes from its scanline at the column offset, and every other byte is the caller's |
| `RowCopy.RowLands` | components/bio-formats/src/loci/formats/in/NDPIReader.java:115-120 | byte k of row yy lands at buffer offset (yy-y)*row + k from scanline offset x*c*bytes + k; the stride of an absent row is unchanged |
| `RowCopy.TailUntouched` | components/bio-formats/src/loci/formats/in/NDPIReader.java:111-120 | buffer bytes past the h rows of the band are unchanged |
| `NdpiReader.InitStandardMetadata` | components/bio-formats/src/loci/formats/in/NDPIReader.java:166-232 | opens iff the series count is positive; a negative count is an allocation failure and zero a failed setSeries(0); either way the returned reader holds the new IFD list, the counters after the scan and a decoder with no session, and keeps the cache fields; on success it is valid with series 0 active and BuildCore's descriptors; a zero count leaves an empty descriptor list, a negative one the old descriptors, and both the old series |
| `NdpiReader.Close` | components/bio-formats/src/loci/formats/in/NDPIReader.java:141-153 | close(false) drops the service, sets initializedSeries/Plane to -1 and sizeZ/pyramidHeight to 1, and changes nothing else; close(true) changes none of these fields |
| `NdpiReader.ReopenAfterClose` | components/bio-formats/src/loci/formats/in/NDPIReader.java:148-151 | opening a file after close(false) gives the same error and reader as opening it with a new reader; on failure the descriptors and series may differ, since those belong to the base reader's close |
| `NdpiReader.StaleCountersWithoutReset` | components/bio-formats/src/loci/formats/in/NDPIReader.java:150-151 | without the counter reset, re-scanning [A, B] after [A, A] finds one series rather than two |
| `NdpiReader.StaleCountersAfterFailedOpen` | components/bio-formats/src/loci/formats/in/NDPIReader.java:178-193 | a failed open is not rolled back: [A,B,C,A,A,A] fails with counters (4,3), and [A,B] opened from that reader fails too, while a new reader exposes two series for it |
| `NdpiReader.PlaneIfd` | components/bio-formats/src/loci/formats/in/NDPIReader.java:263 | on a valid reader, the IFD of any plane of the active series lies inside the file |
| `NdpiReader.OpenBytes` | components/bio-formats/src/loci/formats/in/NDPIReader.java:80-123 | keeps the reader valid; a rejected plane or rectangle fails and changes nothing; the 1x1 origin probe returns the buffer and leaves the state alone; small images are read directly from the plane's IFD, with no state change; large images follow StagedOutcome |
| `NdpiReader.ReadStaged` | components/bio-formats/src/loci/formats/in/NDPIReader.java:93-120 | if the tile-height test fails, nothing changes. Otherwise afterwards initializedSeries is the series and initializedPlane is the plane, and the session decodes that plane's IFD. On a miss, the decoder is primed with (0, 0) exactly when the request is at the origin with the optimal tile size, and with (y, h) otherwise. On a hit it is re-primed with (y, h) only if row y is absent. The rows are then copied as CopyRows states |
| `NdpiReader.CacheUpdateValid` | components/bio-formats/src/loci/formats/in/NDPIReader.java:104-105 | setting the cache fields to the current (series, plane), with a session on that plane's IFD, keeps the reader valid |
| `NdpiReader.StagedIffInterleaved` | components/bio-formats/src/loci/formats/in/NDPIReader.java:225 | for descriptors built by BuildCore, a series goes through the staged decoder exactly when its descriptor says interleaved |
| `NdpiReader.OpenThumbBytes` | components/bio-formats/src/loci/formats/in/NDPIReader.java:126-138 | for series >= pyramidHeight it is the base path, unchanged and with no series switch; otherwise it returns the bytes and the reader state the generic path gives on level pyramidHeight-1; only the active series is changed, back to its entry value on success and left as the generic path leaves it on failure; an out-of-range level fails with InvalidSeries and no change |
| `NdpiReader.ThumbRestoresSeries` | components/bio-formats/src/loci/formats/in/NDPIReader.java:129-137 | on normal return the active series equals its entry value, given that the base path keeps it |
| `NdpiReader.ThumbNotRestoredOnFailure` | components/bio-formats/src/loci/formats/in/NDPIReader.java:134-136 | for any generic thumbnail path that fails and keeps the series it was given, the reader stays on level pyramidHeight-1 |

## Left out

- The Jimi scanline decoder (`JimiService`) is the function parameter `Decoder`.
  A session is recorded as (IFD index, y, h), and a decoder with no session
  yields no rows. The decoder's width/height queries and whole-file `initialize`
  are not used by the core.
- The file and stream handling of `setupService` (opening, seeking, limiting
  the stream to the first strip) is I/O and is reduced to the recorded session.
  Its I/O errors are not modelled. The strip offset and byte-count tables are
  not modelled.
- TIFF parsing (`getIFDs`, `fillInIFD`), removal of the two thumbnail tags, and
  lookup-table (indexed) detection are library calls. The `indexed` field is
  therefore absent from the descriptor.
- `getSamples` (direct strip decoding) is the function parameter `SampleReader`.
- `checkPlaneParameters` is modelled by `PlaneOk`; the library's real bounds are
  outside the modelled code. `PlaneOk` is assumed to accept 0 <= no < imageCount,
  x, y >= 0, w, h >= 1, a rectangle inside the image, and a buffer of at least
  w*h*c*bytes.
- `setSeries` of the base reader is assumed to reject an index outside
  [0, series count). The model uses that only for series 0 at open time and
  for the smallest level in the thumbnail path.
- The base reader's `getOptimalTileWidth` is the parameter `tileWidth`.
  `getRGBChannelCount` is taken as sizeC, because imageCount = sizeZ*sizeT
  makes the effective channel count 1.
- `super.openThumbBytes` and `FormatTools.openThumbBytes` are the parameters
  `baseThumb` and `genericThumb`, which return bytes and reader state. The
  `assertId` checks and the base class's part of `close` are not modelled.
- `initMetadataStore` (image names, acquisition dates through `DateTools`,
  floating-point physical sizes) is not part of this model.
- Service instantiation through `ServiceFactory` and its
  `MissingLibraryException` are not part of this model.
- RowCopy.CopyRows: on a too-short scanline the source has already written the
  earlier rows into the caller's array when the exception is raised. The model
  returns only the failure, without the partly written buffer.
- NdpiReader.OpenBytes: the products x*c*bytes and w*c*bytes are taken
  without 32-bit wrap-around. The row size is bounded by the buffer length. The
  column offset is assumed to stay below 2^31.
- NdpiReader.ReadStaged: the same two products (`RowSize`, `SrcOffset`) are
  formed here, without 32-bit wrap-around, for the same reason.
- NdpiReader.ReopenAfterClose: on a failed open the descriptors and active
  series after close(false) are whatever the base reader's close leaves, which
  is not part of this model, so equality is stated only up to those fields.
- Two cross-path properties are not stated: identical pixels from the direct
  and staged paths, and identical bytes on a repeated read; both depend on the
  external decoders.
- `super.initStandardMetadata()` (the base TIFF reader's metadata setup, run
  before the scan) is not part of this model; its failures are not modelled.
- `ifd.getPixelType()` can raise for an unsupported sample format; the model
  takes the bytes per pixel from the IFD record and has no such failure.
- PyramidLayout.SeriesCount and PyramidLayout.IfdIndex: the products
  pyramidHeight * sizeZ and z * pyramidHeight are 32-bit in the source and
  unbounded here, so `PlaneIndexInRange` holds without overflow; the two
  differ only for files of more than about 92,680 IFDs.
- NdpiReader.PlaneOk: the plane check is assumed to reject w < 1 and h < 1.
  The base library's bound is not part of this model; if it admits w = 0 or
  h = 0, such a request on a large image would still re-prime the decoder and
  move the cache fields, which the model does not cover.
