/** The IDX readers of odev4/mnist.py. A file is given as its bytes; the
    readers' exceptions become `Err` values. */
module Mnist {
  import opened Base
  import opened IdxLayout

  const ImageMagic: int := 2051
  const LabelMagic: int := 2049
  const ImageHeaderSize: int := 16
  const LabelHeaderSize: int := 8

  /** Why a read failed: the header could not be unpacked (`struct.error`),
      the magic number was wrong (`ValueError`), the payload did not fit the
      declared shape (numpy's reshape error), or a field was too large to pack. */
  datatype IdxError = ShortHeader | BadMagic(magic: nat) | ShapeMismatch | FieldTooLarge

  /** An N x R x C array of bytes, as numpy holds it: its shape and its elements. */
  datatype Images = Images(rows: nat, cols: nat, data: seq<seq<seq<Byte>>>)

  /** Header word k (0-based) of a file: bytes 4k..4k+3, big-endian. */
  function Word(file: seq<Byte>, k: nat): (w: nat)
    requires |file| >= 4 * k + 4
    ensures w < TwoTo32
  {
    ReadBeU32(file[4 * k..])
  }

  /** `load_idx_images`: unpack (magic, N, R, C), check the magic, reshape the rest. */
  function DecodeImages(file: seq<Byte>): (r: Result<Images, IdxError>)
    ensures |file| < ImageHeaderSize ==> r == Err(ShortHeader)
    ensures |file| >= ImageHeaderSize && Word(file, 0) != ImageMagic ==> r == Err(BadMagic(Word(file, 0)))
    ensures r.Ok? <==>
      |file| >= ImageHeaderSize && Word(file, 0) == ImageMagic &&
      |file| - ImageHeaderSize == Word(file, 1) * (Word(file, 2) * Word(file, 3))
    ensures r.Ok? ==>
      |r.value.data| == Word(file, 1) && r.value.rows == Word(file, 2) && r.value.cols == Word(file, 3) &&
      Shaped(r.value.data, r.value.rows, r.value.cols)
  {
    if |file| < ImageHeaderSize then Err(ShortHeader)
    else
      var magic, n, rows, cols := Word(file, 0), Word(file, 1), Word(file, 2), Word(file, 3);
      if magic != ImageMagic then Err(BadMagic(magic))
      else
        var payload := file[ImageHeaderSize..];
        if |payload| != n * (rows * cols) then Err(ShapeMismatch)
        else Ok(Images(rows, cols, Reshape(payload, n, rows, cols)))
  }

  /** A successful decode is the payload reshaped to the header's (N, R, C),
      so by `IdxLayout.ReshapeAt` image i, row r, column c is payload byte
      i*R*C + r*C + c. */
  lemma DecodedImagesAre(file: seq<Byte>, imgs: Images)
    requires DecodeImages(file) == Ok(imgs)
    ensures |file| == ImageHeaderSize + |imgs.data| * (imgs.rows * imgs.cols)
    ensures imgs.data == Reshape(file[ImageHeaderSize..], |imgs.data|, imgs.rows, imgs.cols)
  {
  }

  /** `load_idx_labels`: unpack (magic, N), check the magic, return every
      remaining byte; N is not compared with the payload length. */
  function DecodeLabels(file: seq<Byte>): (r: Result<seq<Byte>, IdxError>)
    ensures |file| < LabelHeaderSize ==> r == Err(ShortHeader)
    ensures r.Ok? <==> |file| >= LabelHeaderSize && Word(file, 0) == LabelMagic
    ensures |file| >= LabelHeaderSize && Word(file, 0) != LabelMagic ==> r == Err(BadMagic(Word(file, 0)))
    ensures r.Ok? ==>
      |r.value| == |file| - LabelHeaderSize &&
      forall i :: 0 <= i < |r.value| ==> r.value[i] == file[LabelHeaderSize + i]
  {
    if |file| < LabelHeaderSize then Err(ShortHeader)
    else
      var magic := Word(file, 0);
      if magic != LabelMagic then Err(BadMagic(magic))
      else Ok(file[LabelHeaderSize..])
  }

  /** The declared label count is not checked: whatever count N the header
      declares, every byte after the header is returned, however many there are. */
  lemma LabelCountUnchecked(n: nat, payload: seq<Byte>)
    requires n < TwoTo32
    ensures DecodeLabels(BeU32(LabelMagic) + BeU32(n) + payload) == Ok(payload)
  {
    var file := BeU32(LabelMagic) + BeU32(n) + payload;
    var magic := BeU32(LabelMagic);
    assert file[4 * 0..][..4] == magic == magic[..4];
    ReadBeU32OfBeU32(LabelMagic);
    assert Word(file, 0) == ReadBeU32(magic) == LabelMagic;
    assert file[LabelHeaderSize..] == payload;
  }
}
