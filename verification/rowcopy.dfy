/**
 * The scanline copy of the staged read path: each available decoded row
 * contributes its requested column range to the caller's buffer.
 */
module RowCopy {
  import opened Outcomes
  import opened Arith

  type Bytes = seq<bv8>

  /** `buf` with `src` written over it from offset `off`. */
  function Splice(buf: Bytes, off: nat, src: Bytes): (r: Bytes)
    requires off + |src| <= |buf|
    ensures |r| == |buf|
    ensures forall i :: 0 <= i < |buf| ==> r[i] == if off <= i < off + |src| then src[i - off] else buf[i]
  {
    buf[..off] + src + buf[off + |src|..]
  }

  /** The decoded row `yy` is present but ends before the requested columns do. */
  predicate ShortRow<S>(decode: (S, int) -> Option<Bytes>, session: S, yy: int, srcOff: nat, row: nat) {
    decode(session, yy).Some? && |decode(session, yy).value| < srcOff + row
  }

  /**
   * Byte `i` of the buffer once the first `rows` rows of the band starting at
   * image row `y` have been copied: destination row `i / row` takes column
   * byte `srcOff + i % row` of its scanline when that scanline is present,
   * and every other byte keeps the caller's value.
   */
  function PastedByte<S>(buf: Bytes, decode: (S, int) -> Option<Bytes>, session: S,
                         y: int, rows: int, row: nat, srcOff: nat, i: int): bv8
    requires 0 <= i < |buf|
  {
    if row > 0 && i < rows * row then
      match decode(session, y + i / row)
      case Some(line) => if srcOff + i % row < |line| then line[srcOff + i % row] else buf[i]
      case None => buf[i]
    else buf[i]
  }

  /** `out` is `buf` with the `h` rows of the band starting at `y` copied in. */
  ghost predicate Pasted<S>(buf: Bytes, out: Bytes, decode: (S, int) -> Option<Bytes>, session: S,
                            y: int, h: int, row: nat, srcOff: nat) {
    |out| == |buf| && forall i :: 0 <= i < |buf| ==> out[i] == PastedByte(buf, decode, session, y, h, row, srcOff, i)
  }

  /**
   * Copies rows y .. y+h-1: for each present scanline, `row` bytes from
   * offset `srcOff` go to offset (yy - y) * row; absent scanlines are skipped;
   * a scanline too short for the columns aborts the copy.
   */
  method CopyRows<S>(buf: Bytes, decode: (S, int) -> Option<Bytes>, session: S,
                     y: int, h: nat, row: nat, srcOff: nat) returns (r: Result<Bytes>)
    requires h * row <= |buf|
    ensures r.Failure? <==> exists yy :: y <= yy < y + h && ShortRow(decode, session, yy, srcOff, row)
    ensures r.Failure? ==> r.error == IndexOutOfBounds
    ensures r.Success? ==> Pasted(buf, r.value, decode, session, y, h, row, srcOff)
  {
    var out := buf;
    var yy := y;
    while yy < y + h
      invariant y <= yy <= y + h
      invariant |out| == |buf|
      invariant forall k :: y <= k < yy ==> !ShortRow(decode, session, k, srcOff, row)
      invariant forall i :: 0 <= i < |buf| ==> out[i] == PastedByte(buf, decode, session, y, yy - y, row, srcOff, i)
    {
      var scanline := decode(session, yy);
      if scanline.Some? {
        if |scanline.value| < srcOff + row {
          assert ShortRow(decode, session, yy, srcOff, row);
          return Failure(IndexOutOfBounds);
        }
        BandInside(yy - y, h, row);
        var out' := Splice(out, (yy - y) * row, scanline.value[srcOff .. srcOff + row]);
        PasteStep(buf, out, out', decode, session, y, yy - y, row, srcOff);
        out := out';
      } else {
        PasteStep(buf, out, out, decode, session, y, yy - y, row, srcOff);
      }
      yy := yy + 1;
    }
    return Success(out);
  }

  lemma BandInside(k: nat, h: nat, row: nat)
    requires k < h
    ensures k * row + row <= h * row
  {
    MulMonotone(k + 1, h, row);
  }

  /** Copying destination row `k` (or skipping it when absent) extends the pasted prefix by one row. */
  lemma PasteStep<S>(buf: Bytes, out: Bytes, out': Bytes, decode: (S, int) -> Option<Bytes>, session: S,
                     y: int, k: nat, row: nat, srcOff: nat)
    requires |out| == |buf| && |out'| == |buf|
    requires forall i :: 0 <= i < |buf| ==> out[i] == PastedByte(buf, decode, session, y, k, row, srcOff, i)
    requires decode(session, y + k).None? ==> out' == out
    requires decode(session, y + k).Some? ==>
      && srcOff + row <= |decode(session, y + k).value|
      && k * row + row <= |buf|
      && out' == Splice(out, k * row, decode(session, y + k).value[srcOff .. srcOff + row])
    ensures forall i :: 0 <= i < |buf| ==> out'[i] == PastedByte(buf, decode, session, y, k + 1, row, srcOff, i)
  {
    forall i | 0 <= i < |buf|
      ensures out'[i] == PastedByte(buf, decode, session, y, k + 1, row, srcOff, i)
    {
      if row > 0 {
        assert (k + 1) * row == k * row + row;
        if k * row <= i < k * row + row {
          DivModUnique(i, row, k, i - k * row);
        } else if i < k * row {
          assert PastedByte(buf, decode, session, y, k + 1, row, srcOff, i)
              == PastedByte(buf, decode, session, y, k, row, srcOff, i);
        }
      }
    }
  }

  /**
   * The row-level reading of `Pasted`: the requested columns of each present
   * scanline land at that row's stride in the buffer, an absent row leaves
   * its stride as it was, and bytes past the band are untouched.
   */
  lemma RowLands<S>(buf: Bytes, out: Bytes, decode: (S, int) -> Option<Bytes>, session: S,
                    y: int, h: nat, row: nat, srcOff: nat, yy: int, k: int)
    requires h * row <= |buf|
    requires Pasted(buf, out, decode, session, y, h, row, srcOff)
    requires y <= yy < y + h && 0 <= k < row
    ensures 0 <= (yy - y) * row + k < |buf|
    ensures decode(session, yy).Some? && srcOff + row <= |decode(session, yy).value| ==>
      out[(yy - y) * row + k] == decode(session, yy).value[srcOff + k]
    ensures decode(session, yy).None? ==> out[(yy - y) * row + k] == buf[(yy - y) * row + k]
  {
    BandInside(yy - y, h, row);
    var i := (yy - y) * row + k;
    DivModUnique(i, row, yy - y, k);
    assert out[i] == PastedByte(buf, decode, session, y, h, row, srcOff, i);
  }

  /** Bytes beyond the h rows of the band keep the caller's values. */
  lemma TailUntouched<S>(buf: Bytes, out: Bytes, decode: (S, int) -> Option<Bytes>, session: S,
                         y: int, h: nat, row: nat, srcOff: nat, i: int)
    requires Pasted(buf, out, decode, session, y, h, row, srcOff)
    requires h * row <= i < |buf|
    ensures out[i] == buf[i]
  {
    assert out[i] == PastedByte(buf, decode, session, y, h, row, srcOff, i);
  }
}
