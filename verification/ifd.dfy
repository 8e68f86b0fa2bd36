/** What this core reads from each stored sub-image's tag directory (IFD). */
module Ifds {

  /** The photometric interpretations the reader distinguishes. */
  datatype Photometric = WhiteIsZero | BlackIsZero | Rgb | RgbPalette | OtherPhotometric

  /**
   * One stored sub-image, identified by its position in the file. The pixel
   * type is reduced to its width in bytes, the only use this core makes of it.
   */
  datatype Ifd = Ifd(
    width: nat,
    height: nat,
    samples: nat,
    photometric: Photometric,
    littleEndian: bool,
    bytesPerPixel: nat)

  /** Two sub-images have the same geometry when width and length both agree. */
  predicate SameSize(a: Ifd, b: Ifd) {
    a.width == b.width && a.height == b.height
  }
}
