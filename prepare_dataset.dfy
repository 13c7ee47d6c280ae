/** The IDX writers of odev4/prepare_dataset.py and the reader inside its
    `verify_and_visualize`. Files are byte sequences; the writers'
    `struct.error` on a dimension that does not fit 32 bits becomes `Err`. */
module PrepareDataset {
  import opened Base
  import opened IdxLayout
  import opened Mnist

  /** A header word depends only on its own four bytes. */
  lemma WordOf(file: seq<Byte>, k: nat, w: int)
    requires 0 <= w < TwoTo32 && |file| >= 4 * k + 4 && file[4 * k..4 * k + 4] == BeU32(w)
    ensures Word(file, k) == w
  {
    assert file[4 * k..][..4] == BeU32(w) == BeU32(w)[..4];
    ReadBeU32OfBeU32(w);
  }

  lemma SameWord(file: seq<Byte>, file': seq<Byte>, k: nat)
    requires |file| >= 4 * k + 4 && |file'| >= 4 * k + 4
    requires file[4 * k..4 * k + 4] == file'[4 * k..4 * k + 4]
    ensures Word(file, k) == Word(file', k)
  {
    assert file[4 * k..][..4] == file[4 * k..4 * k + 4];
    assert file'[4 * k..][..4] == file'[4 * k..4 * k + 4];
  }

  predicate FitsU32(n: int) {
    0 <= n < TwoTo32
  }

  /** `write_idx_images`: header (2051, N, R, C) big-endian, then the pixels
      in row-major order. */
  function EncodeImages(imgs: Images): (r: Result<seq<Byte>, IdxError>)
    requires Shaped(imgs.data, imgs.rows, imgs.cols)
    ensures r.Ok? <==> FitsU32(|imgs.data|) && FitsU32(imgs.rows) && FitsU32(imgs.cols)
    ensures r.Err? ==> r.error == FieldTooLarge
    ensures r.Ok? ==> |r.value| == ImageHeaderSize + |imgs.data| * (imgs.rows * imgs.cols)
  {
    if !(FitsU32(|imgs.data|) && FitsU32(imgs.rows) && FitsU32(imgs.cols)) then Err(FieldTooLarge)
    else
      FlattenLength(imgs.data, imgs.rows, imgs.cols);
      Ok(BeU32(ImageMagic) + BeU32(|imgs.data|) + BeU32(imgs.rows) + BeU32(imgs.cols) + Flatten(imgs.data))
  }

  /** The header of an encoded image file reads back as (2051, N, R, C) and
      its payload is the row-major flattening. */
  lemma EncodedImagesLayout(imgs: Images, file: seq<Byte>)
    requires Shaped(imgs.data, imgs.rows, imgs.cols)
    requires EncodeImages(imgs) == Ok(file)
    ensures |file| >= ImageHeaderSize
    ensures Word(file, 0) == ImageMagic && Word(file, 1) == |imgs.data|
    ensures Word(file, 2) == imgs.rows && Word(file, 3) == imgs.cols
    ensures file[ImageHeaderSize..] == Flatten(imgs.data)
  {
    var h0, h1, h2, h3 := BeU32(ImageMagic), BeU32(|imgs.data|), BeU32(imgs.rows), BeU32(imgs.cols);
    assert file == h0 + h1 + h2 + h3 + Flatten(imgs.data);
    assert file[0..4] == h0 && file[4..8] == h1 && file[8..12] == h2 && file[12..16] == h3;
    WordOf(file, 0, ImageMagic);
    WordOf(file, 1, |imgs.data|);
    WordOf(file, 2, imgs.rows);
    WordOf(file, 3, imgs.cols);
  }

  /** Round trip: `load_idx_images` returns exactly what `write_idx_images` wrote. */
  lemma DecodeEncodeImages(imgs: Images, file: seq<Byte>)
    requires Shaped(imgs.data, imgs.rows, imgs.cols)
    requires EncodeImages(imgs) == Ok(file)
    ensures DecodeImages(file) == Ok(imgs)
  {
    EncodedImagesLayout(imgs, file);
    ReshapeOfFlatten(imgs.data, imgs.rows, imgs.cols);
  }

  /** The strict reader refuses even one byte after the payload. */
  lemma DecodeRejectsTrailing(imgs: Images, file: seq<Byte>, extra: seq<Byte>)
    requires Shaped(imgs.data, imgs.rows, imgs.cols)
    requires EncodeImages(imgs) == Ok(file) && extra != []
    ensures DecodeImages(file + extra) == Err(ShapeMismatch)
  {
    EncodedImagesLayout(imgs, file);
    forall k: nat | k < 4
      ensures Word(file + extra, k) == Word(file, k)
    {
      assert (file + extra)[4 * k..4 * k + 4] == file[4 * k..4 * k + 4];
      SameWord(file + extra, file, k);
    }
  }

  /** `write_idx_labels`: header (2049, N) big-endian, then the labels. */
  function EncodeLabels(labels: seq<Byte>): (r: Result<seq<Byte>, IdxError>)
    ensures r.Ok? <==> FitsU32(|labels|)
    ensures r.Err? ==> r.error == FieldTooLarge
    ensures r.Ok? ==> |r.value| == LabelHeaderSize + |labels| && r.value[LabelHeaderSize..] == labels
  {
    if !FitsU32(|labels|) then Err(FieldTooLarge)
    else Ok(BeU32(LabelMagic) + BeU32(|labels|) + labels)
  }

  lemma EncodedLabelsHeader(labels: seq<Byte>, file: seq<Byte>)
    requires EncodeLabels(labels) == Ok(file)
    ensures |file| >= LabelHeaderSize && Word(file, 0) == LabelMagic && Word(file, 1) == |labels|
  {
    assert file[0..4] == BeU32(LabelMagic) && file[4..8] == BeU32(|labels|);
    WordOf(file, 0, LabelMagic);
    WordOf(file, 1, |labels|);
  }

  /** Round trip: `load_idx_labels` returns exactly what `write_idx_labels` wrote. */
  lemma DecodeEncodeLabels(labels: seq<Byte>, file: seq<Byte>)
    requires EncodeLabels(labels) == Ok(file)
    ensures DecodeLabels(file) == Ok(labels)
  {
    EncodedLabelsHeader(labels, file);
  }

  function Min(a: int, b: int): int {
    if a < b then a else b
  }

  /** The image reader of `verify_and_visualize`: unpack the header, read at
      most N*R*C more bytes and reshape them. The magic is not checked and
      bytes after the payload are not read. */
  function ReadImagesForDisplay(file: seq<Byte>): (r: Result<Images, IdxError>)
    ensures |file| < ImageHeaderSize ==> r == Err(ShortHeader)
    ensures r.Ok? <==>
      |file| >= ImageHeaderSize && |file| - ImageHeaderSize >= Word(file, 1) * (Word(file, 2) * Word(file, 3))
    ensures r.Ok? ==>
      |r.value.data| == Word(file, 1) && r.value.rows == Word(file, 2) && r.value.cols == Word(file, 3)
  {
    if |file| < ImageHeaderSize then Err(ShortHeader)
    else
      var n, rows, cols := Word(file, 1), Word(file, 2), Word(file, 3);
      var want := n * (rows * cols);
      var payload := file[ImageHeaderSize..][..Min(want, |file| - ImageHeaderSize)];
      if |payload| != want then Err(ShapeMismatch)
      else Ok(Images(rows, cols, Reshape(payload, n, rows, cols)))
  }

  /** The display reader gives the same result whatever the magic bytes are. */
  lemma ReadImagesIgnoresMagic(file: seq<Byte>, magic: seq<Byte>)
    requires |file| >= ImageHeaderSize && |magic| == 4
    ensures ReadImagesForDisplay(magic + file[4..]) == ReadImagesForDisplay(file)
  {
    var file' := magic + file[4..];
    forall k: nat | 1 <= k < 4
      ensures Word(file', k) == Word(file, k)
    {
      assert file'[4 * k..4 * k + 4] == file[4 * k..4 * k + 4];
      SameWord(file', file, k);
    }
    assert file'[ImageHeaderSize..] == file[ImageHeaderSize..];
  }

  /** Bytes after the declared payload do not change what the display reader returns. */
  lemma ReadImagesIgnoresTrailing(file: seq<Byte>, extra: seq<Byte>)
    requires ReadImagesForDisplay(file).Ok?
    ensures ReadImagesForDisplay(file + extra) == ReadImagesForDisplay(file)
  {
    var file' := file + extra;
    forall k: nat | 1 <= k < 4
      ensures Word(file', k) == Word(file, k)
    {
      assert file'[4 * k..4 * k + 4] == file[4 * k..4 * k + 4];
      SameWord(file', file, k);
    }
    var want := Word(file, 1) * (Word(file, 2) * Word(file, 3));
    assert |file| - ImageHeaderSize >= want;
    assert file'[ImageHeaderSize..][..want] == file'[ImageHeaderSize..ImageHeaderSize + want];
    assert file[ImageHeaderSize..][..want] == file[ImageHeaderSize..ImageHeaderSize + want];
    assert file'[ImageHeaderSize..ImageHeaderSize + want] == file[ImageHeaderSize..ImageHeaderSize + want];
  }

  /** The display reader reads back what `write_idx_images` wrote, whatever follows it. */
  lemma ReadForDisplayEncodeImages(imgs: Images, file: seq<Byte>, extra: seq<Byte>)
    requires Shaped(imgs.data, imgs.rows, imgs.cols)
    requires EncodeImages(imgs) == Ok(file)
    ensures ReadImagesForDisplay(file + extra) == Ok(imgs)
  {
    EncodedImagesLayout(imgs, file);
    ReshapeOfFlatten(imgs.data, imgs.rows, imgs.cols);
    assert file[ImageHeaderSize..][..|file| - ImageHeaderSize] == file[ImageHeaderSize..];
    ReadImagesIgnoresTrailing(file, extra);
  }

  /** The label reader of `verify_and_visualize`: unpack (magic, N) and read
      at most N more bytes. Neither the magic nor the length is checked. */
  function ReadLabelsForDisplay(file: seq<Byte>): (r: Result<seq<Byte>, IdxError>)
    ensures r.Ok? <==> |file| >= LabelHeaderSize
    ensures r.Ok? ==>
      |r.value| == Min(Word(file, 1), |file| - LabelHeaderSize) &&
      r.value == file[LabelHeaderSize..LabelHeaderSize + |r.value|]
  {
    if |file| < LabelHeaderSize then Err(ShortHeader)
    else Ok(file[LabelHeaderSize..][..Min(Word(file, 1), |file| - LabelHeaderSize)])
  }

  /** The label display reader reads back what `write_idx_labels` wrote, whatever follows it. */
  lemma ReadForDisplayEncodeLabels(labels: seq<Byte>, file: seq<Byte>, extra: seq<Byte>)
    requires EncodeLabels(labels) == Ok(file)
    ensures ReadLabelsForDisplay(file + extra) == Ok(labels)
  {
    EncodedLabelsHeader(labels, file);
    var file' := file + extra;
    assert file'[4..8] == file[4..8];
    SameWord(file', file, 1);
    assert file'[LabelHeaderSize..][..|labels|] == labels;
  }
}
