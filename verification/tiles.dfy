/** The tile height the reader recommends, from a fixed working-set budget. */
module TileGeometry {
  import opened Outcomes
  import opened JavaInt
  import opened Arith
  import opened SeriesMetadata

  /** Bytes one tile band may occupy: 1 MiB. */
  const TileBudget := 1024 * 1024

  /**
   * Channels stored per pixel. The base reader derives it as sizeC divided by
   * imageCount / (sizeZ * sizeT), and every descriptor here has imageCount = sizeZ * sizeT.
   */
  function RgbChannelCount(d: SeriesDescriptor): nat {
    d.sizeC
  }

  /** Bytes in one full-width row, as the reader computes it in 32-bit arithmetic. */
  function RowBytes(d: SeriesDescriptor): int {
    Int32(Int32(d.sizeX * RgbChannelCount(d)) * d.bytesPerPixel)
  }

  /** The budget divided by the row size, capped at the image height. */
  function OptimalTileHeight(d: SeriesDescriptor): (r: Result<int>)
    ensures r.Failure? <==> RowBytes(d) == 0
    ensures r.Failure? ==> r.error == DivideByZero
    ensures r.Success? ==> r.value <= d.sizeY
    ensures r.Success? && RowBytes(d) > 0 ==> r.value * RowBytes(d) <= TileBudget
    ensures r.Success? && RowBytes(d) > 0 && r.value < d.sizeY ==>
      TileBudget < (r.value + 1) * RowBytes(d)
    ensures r.Success? && RowBytes(d) < 0 ==> r.value <= 0
  {
    var rowBytes := RowBytes(d);
    if rowBytes == 0 then Failure(DivideByZero)
    else
      var maxHeight := JavaDiv(TileBudget, rowBytes);
      assert rowBytes > 0 ==> (if maxHeight <= d.sizeY then maxHeight else d.sizeY) * rowBytes <= TileBudget by {
        if rowBytes > 0 {
          BandWithinBudget(maxHeight, d.sizeY, rowBytes);
        }
      }
      Success(if maxHeight <= d.sizeY then maxHeight else d.sizeY)
  }

  /** Capping a quotient band at the image height keeps it within the budget. */
  lemma BandWithinBudget(q: int, sizeY: int, p: int)
    requires 0 < p && q * p <= TileBudget
    ensures (if q <= sizeY then q else sizeY) * p <= TileBudget
  {
    if 0 <= sizeY < q {
      MulMonotone(sizeY, q, p);
    } else if sizeY < 0 {
      assert sizeY * p == -((-sizeY) * p);
    }
  }

  /**
   * Without wrap-around, the recommended band fits the budget and is the
   * tallest that does, unless the whole image is shorter.
   */
  lemma TileFitsBudget(d: SeriesDescriptor)
    requires d.sizeY >= 0
    requires 0 < d.sizeX * RgbChannelCount(d) * d.bytesPerPixel < TwoTo31
    ensures OptimalTileHeight(d).Success?
    ensures var t := OptimalTileHeight(d).value;
      && 0 <= t <= d.sizeY
      && t * (d.sizeX * RgbChannelCount(d) * d.bytesPerPixel) <= TileBudget
      && (t == d.sizeY || (t + 1) * (d.sizeX * RgbChannelCount(d) * d.bytesPerPixel) > TileBudget)
  {
    var xc := d.sizeX * RgbChannelCount(d);
    var p := xc * d.bytesPerPixel;
    NoWrap(xc, d.bytesPerPixel);
    assert RowBytes(d) == p;
    BandFits(p, d.sizeY);
  }

  lemma NoWrap(a: int, b: nat)
    requires 0 < a * b < TwoTo31
    ensures 0 < a < TwoTo31
  {
  }

  lemma BandFits(p: int, sizeY: int)
    requires 0 < p && sizeY >= 0
    ensures var q := TileBudget / p;
      var t := if q <= sizeY then q else sizeY;
      && 0 <= t && t * p <= TileBudget && (t == sizeY || (t + 1) * p > TileBudget)
  {
    var q := TileBudget / p;
    DivBounds(TileBudget, p);
    if sizeY < q {
      assert sizeY * p <= q * p by {
        assert (q - sizeY) * p >= 0;
      }
    }
  }

  /** A 2^30-pixel-wide four-channel row wraps to zero bytes and the division fails. */
  lemma TileHeightWrapsToZero(d: SeriesDescriptor)
    requires d.sizeX == 0x4000_0000 && d.sizeC == 4 && d.bytesPerPixel == 1
    ensures OptimalTileHeight(d) == Failure(DivideByZero)
  {
    assert RowBytes(d) == 0;
  }
}
