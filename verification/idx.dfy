/** Decoding of the MNIST database files (the IDX format) as `read_images`, `read_labels`
    and `reverseInt` in CNN.cpp do it, over the file's bytes instead of an `ifstream`. */
module Idx {
  import opened Wrappers
  import opened VectorMath

  /** Sizes of the two headers: magic, count, rows, cols for images; magic, count for labels. */
  const ImageHeaderSize: nat := 16
  const LabelHeaderSize: nat := 8

  /** Magic numbers written by `EncodeImages`/`EncodeLabels`; the decoder never checks them. */
  const ImageMagic: nat := 0x0803
  const LabelMagic: nat := 0x0801

  /** Number of classes of a one-hot label. */
  const Classes: nat := 10

  // ---------------------------------------------------------------------------
  // Reading bytes and words.

  /** The byte read at offset p. A `read` past the end of the file stores nothing, so the
      zero-initialised variable it reads into keeps its 0. */
  function ByteAt(data: seq<bv8>, p: int): bv8
  {
    if 0 <= p < |data| then data[p] else 0
  }

  /** Byte k (0 = least significant) of a 32-bit word. */
  function ByteOf(x: bv32, k: nat): bv8
    requires k < 4
  {
    if k == 0 then (x & 0xFF) as bv8
    else if k == 1 then ((x >> 8) & 0xFF) as bv8
    else if k == 2 then ((x >> 16) & 0xFF) as bv8
    else ((x >> 24) & 0xFF) as bv8
  }

  /** Two words are equal when their four bytes are. */
  lemma BytesDetermineWord(x: bv32, y: bv32)
    requires ByteOf(x, 0) == ByteOf(y, 0) && ByteOf(x, 1) == ByteOf(y, 1)
    requires ByteOf(x, 2) == ByteOf(y, 2) && ByteOf(x, 3) == ByteOf(y, 3)
    ensures x == y
  {
  }

  /** `file.read((char*)&word, 4)` on a little-endian host: the byte at offset p + k becomes
      byte k of the word. */
  function LoadWord(data: seq<bv8>, p: nat): (w: bv32)
    ensures ByteOf(w, 0) == ByteAt(data, p) && ByteOf(w, 1) == ByteAt(data, p + 1)
    ensures ByteOf(w, 2) == ByteAt(data, p + 2) && ByteOf(w, 3) == ByteAt(data, p + 3)
  {
    (ByteAt(data, p) as bv32)
      | ((ByteAt(data, p + 1) as bv32) << 8)
      | ((ByteAt(data, p + 2) as bv32) << 16)
      | ((ByteAt(data, p + 3) as bv32) << 24)
  }

  /** `reverseInt`: byte k of the argument moves to byte 3 - k. */
  function ReverseInt(i: bv32): (r: bv32)
    ensures ByteOf(r, 0) == ByteOf(i, 3)
    ensures ByteOf(r, 1) == ByteOf(i, 2)
    ensures ByteOf(r, 2) == ByteOf(i, 1)
    ensures ByteOf(r, 3) == ByteOf(i, 0)
  {
    var c1 := i & 255;
    var c2 := (i >> 8) & 255;
    var c3 := (i >> 16) & 255;
    var c4 := (i >> 24) & 255;
    (c1 << 24) + (c2 << 16) + (c3 << 8) + c4
  }

  /** Swapping the bytes twice gives back the original word. */
  lemma ReverseIntInvolution(x: bv32)
    ensures ReverseInt(ReverseInt(x)) == x
  {
    BytesDetermineWord(ReverseInt(ReverseInt(x)), x);
  }

  /** The number four bytes stand for, most significant first, read as a two's complement
      32-bit `int`. */
  function SignedBigEndian(b0: bv8, b1: bv8, b2: bv8, b3: bv8): int
  {
    var u := (b0 as int) * 0x100_0000 + (b1 as int) * 0x1_0000 + (b2 as int) * 0x100 + (b3 as int);
    if u < 0x8000_0000 then u else u - 0x1_0000_0000
  }

  /** The `int` value of a 32-bit pattern (two's complement). */
  function ToInt32(x: bv32): int
  {
    SignedBigEndian(ByteOf(x, 3), ByteOf(x, 2), ByteOf(x, 1), ByteOf(x, 0))
  }

  /** A header field: the four bytes at offset p, loaded and then byte-swapped. */
  function HeaderWord(data: seq<bv8>, p: nat): int
  {
    ToInt32(ReverseInt(LoadWord(data, p)))
  }

  /** Loading little-endian and then swapping reads the four bytes as a big-endian number. */
  lemma HeaderWordIsBigEndian(data: seq<bv8>, p: nat)
    ensures HeaderWord(data, p) ==
      SignedBigEndian(ByteAt(data, p), ByteAt(data, p + 1), ByteAt(data, p + 2), ByteAt(data, p + 3))
  {
  }

  // ---------------------------------------------------------------------------
  // Images.

  /** `temp / 255.0f`: a pixel byte scaled into [0, 1]. */
  function Normalize(b: bv8): (g: real)
    ensures 0.0 <= g <= 1.0
  {
    (b as int) as real / 255.0
  }

  /** Distinct bytes give distinct intensities, so the byte can be recovered. */
  lemma NormalizeInjective(a: bv8, b: bv8)
    requires Normalize(a) == Normalize(b)
    ensures a == b
  {
    assert (a as int) as real == Normalize(a) * 255.0;
  }

  /** The number of pixels the row and column loops read per image. */
  function PixelsPerImage(rows: int, cols: int): nat
  {
    if rows <= 0 || cols <= 0 then 0 else rows * cols
  }

  /** For non-negative dimensions the pixel count is the product. */
  lemma PixelsOfNonNegativeShape(rows: nat, cols: nat)
    ensures PixelsPerImage(rows, cols) == rows * cols
  {
    if rows == 0 || cols == 0 {
      assert rows * cols == 0;
    }
  }

  /** One image: `size` bytes from offset `pos`, each normalised and appended in order. */
  function ReadPixels(data: seq<bv8>, pos: nat, size: nat): (img: seq<real>)
    ensures |img| == size
    ensures forall k :: 0 <= k < size ==> img[k] == Normalize(ByteAt(data, pos + k))
  {
    seq(size, k requires 0 <= k < size => Normalize(ByteAt(data, pos + k)))
  }

  /** `count` images of `size` pixels read one after another from offset `pos`. */
  function ReadImageBlocks(data: seq<bv8>, pos: nat, count: nat, size: nat): (r: seq<seq<real>>)
    decreases count
    ensures |r| == count
    ensures forall i :: 0 <= i < count ==> |r[i]| == size
    ensures forall i, k :: 0 <= i < count && 0 <= k < size ==>
      r[i][k] == Normalize(ByteAt(data, pos + i * size + k))
  {
    if count == 0 then []
    else
      [ReadPixels(data, pos, size)] + ReadImageBlocks(data, pos + size, count - 1, size)
  }

  /** `read_images`: a negative image count makes the vector constructor throw; otherwise
      `count` images of rows*cols normalised pixels each, read row by row after the 16-byte
      header. The magic number is read but never checked, and a file that ends early reads
      as zeros. */
  function ReadImages(data: seq<bv8>): (r: Result<seq<seq<real>>>)
    ensures r.Failure? <==> HeaderWord(data, 4) < 0
    ensures r.Failure? ==> r.error == LengthError
    ensures r.Success? ==> |r.value| == HeaderWord(data, 4)
    ensures r.Success? ==> forall i :: 0 <= i < |r.value| ==>
      |r.value[i]| == PixelsPerImage(HeaderWord(data, 8), HeaderWord(data, 12))
    ensures r.Success? ==> forall i, k ::
      0 <= i < |r.value| && 0 <= k < PixelsPerImage(HeaderWord(data, 8), HeaderWord(data, 12)) ==>
      r.value[i][k] == Normalize(ByteAt(data,
        ImageHeaderSize + i * PixelsPerImage(HeaderWord(data, 8), HeaderWord(data, 12)) + k))
  {
    var count := HeaderWord(data, 4);
    var size := PixelsPerImage(HeaderWord(data, 8), HeaderWord(data, 12));
    if count < 0 then Failure(LengthError)
    else Success(ReadImageBlocks(data, ImageHeaderSize, count, size))
  }

  // ---------------------------------------------------------------------------
  // Labels.

  /** `labels[i].resize(10); labels[i][b] = 1.0f`: a one-hot vector. */
  function OneHot(b: bv8): (v: seq<real>)
    requires b as int < Classes
    ensures |v| == Classes
    ensures v[b as int] == 1.0
    ensures forall j :: 0 <= j < Classes && j != b as int ==> v[j] == 0.0
  {
    Zeros(Classes)[b as int := 1.0]
  }

  /** Every label byte in the `count` bytes from `pos` names one of the ten classes. */
  predicate LabelBytesInRange(data: seq<bv8>, pos: nat, count: int)
  {
    forall p :: pos <= p < pos + count ==> ByteAt(data, p) as int < Classes
  }

  /** `count` one-hot labels read one byte each from offset `pos`. */
  function ReadLabelBytes(data: seq<bv8>, pos: nat, count: nat): (r: seq<seq<real>>)
    requires LabelBytesInRange(data, pos, count)
    decreases count
    ensures |r| == count
    ensures forall i :: 0 <= i < count ==> r[i] == OneHot(ByteAt(data, pos + i))
  {
    if count == 0 then []
    else [OneHot(ByteAt(data, pos))] + ReadLabelBytes(data, pos + 1, count - 1)
  }

  /** `read_labels`: a negative count makes the vector constructor throw; otherwise `count`
      vectors of length 10, each 1.0 at its label byte and 0.0 elsewhere. A label byte of 10
      or more would be written out of bounds, so it is excluded here. */
  function ReadLabels(data: seq<bv8>): (r: Result<seq<seq<real>>>)
    requires LabelBytesInRange(data, LabelHeaderSize, HeaderWord(data, 4))
    ensures r.Failure? <==> HeaderWord(data, 4) < 0
    ensures r.Failure? ==> r.error == LengthError
    ensures r.Success? ==> |r.value| == HeaderWord(data, 4)
    ensures r.Success? ==> forall i :: 0 <= i < |r.value| ==>
      && |r.value[i]| == Classes
      && r.value[i][ByteAt(data, LabelHeaderSize + i) as int] == 1.0
      && forall j :: 0 <= j < Classes && j != ByteAt(data, LabelHeaderSize + i) as int ==> r.value[i][j] == 0.0
  {
    var count := HeaderWord(data, 4);
    if count < 0 then Failure(LengthError)
    else Success(ReadLabelBytes(data, LabelHeaderSize, count))
  }

  // ---------------------------------------------------------------------------
  // What the decoder does not look at.

  /** The two files hold the same bytes from offset `start` on, counting reads past the end
      as zeros. */
  ghost predicate SameBytesFrom(a: seq<bv8>, b: seq<bv8>, start: nat)
  {
    forall p :: start <= p ==> ByteAt(a, p) == ByteAt(b, p)
  }

  lemma {:induction false} ImageBlocksDependOnBytes(a: seq<bv8>, b: seq<bv8>, pos: nat, count: nat, size: nat)
    requires SameBytesFrom(a, b, pos)
    decreases count
    ensures ReadImageBlocks(a, pos, count, size) == ReadImageBlocks(b, pos, count, size)
  {
    if count > 0 {
      ImageBlocksDependOnBytes(a, b, pos + size, count - 1, size);
      assert ReadPixels(a, pos, size) == ReadPixels(b, pos, size);
    }
  }

  lemma {:induction false} LabelBytesDependOnBytes(a: seq<bv8>, b: seq<bv8>, pos: nat, count: nat)
    requires SameBytesFrom(a, b, pos)
    requires LabelBytesInRange(a, pos, count)
    decreases count
    ensures LabelBytesInRange(b, pos, count)
    ensures ReadLabelBytes(a, pos, count) == ReadLabelBytes(b, pos, count)
  {
    if count > 0 {
      LabelBytesDependOnBytes(a, b, pos + 1, count - 1);
    }
  }

  /** The magic number is never checked: files that differ only in their first four bytes
      decode to the same images and the same labels. */
  lemma MagicNumberIgnored(a: seq<bv8>, b: seq<bv8>)
    requires SameBytesFrom(a, b, 4)
    ensures ReadImages(a) == ReadImages(b)
    ensures LabelBytesInRange(a, LabelHeaderSize, HeaderWord(a, 4)) ==>
      LabelBytesInRange(b, LabelHeaderSize, HeaderWord(b, 4)) && ReadLabels(a) == ReadLabels(b)
  {
    assert HeaderWord(a, 4) == HeaderWord(b, 4);
    assert HeaderWord(a, 8) == HeaderWord(b, 8);
    assert HeaderWord(a, 12) == HeaderWord(b, 12);
    var count := HeaderWord(a, 4);
    if count >= 0 {
      ImageBlocksDependOnBytes(a, b, ImageHeaderSize, count,
        PixelsPerImage(HeaderWord(a, 8), HeaderWord(a, 12)));
      if LabelBytesInRange(a, LabelHeaderSize, count) {
        LabelBytesDependOnBytes(a, b, LabelHeaderSize, count);
      }
    }
  }

  /** `read_labels` reads its magic number and never looks at it again either: label files
      that differ only there decode to the same labels. */
  lemma LabelMagicNumberIgnored(a: seq<bv8>, b: seq<bv8>)
    requires SameBytesFrom(a, b, 4)
    requires LabelBytesInRange(a, LabelHeaderSize, HeaderWord(a, 4))
    ensures LabelBytesInRange(b, LabelHeaderSize, HeaderWord(b, 4))
    ensures ReadLabels(a) == ReadLabels(b)
  {
    MagicNumberIgnored(a, b);
  }

  /** A short file is never detected: it decodes exactly like the same file padded with
      zero bytes to any length. */
  lemma TruncationReadsAsZeros(data: seq<bv8>, padding: nat)
    ensures
      var padded := data + seq(padding, _ => 0 as bv8);
      && ReadImages(data) == ReadImages(padded)
      && (LabelBytesInRange(data, LabelHeaderSize, HeaderWord(data, 4)) ==>
        LabelBytesInRange(padded, LabelHeaderSize, HeaderWord(padded, 4)) && ReadLabels(data) == ReadLabels(padded))
  {
    var padded := data + seq(padding, _ => 0 as bv8);
    assert SameBytesFrom(data, padded, 0);
    MagicNumberIgnored(data, padded);
  }

  // ---------------------------------------------------------------------------
  // Encoding, and the round trip.

  /** The byte whose value is n, built up one increment at a time. */
  function ToByte(n: nat): (b: bv8)
    requires n < 0x100
    ensures b as int == n
  {
    if n == 0 then 0
    else
      var below := ToByte(n - 1);
      assert below as int < 0xFF;
      below + 1
  }

  /** The four base-256 digits of n, most significant first. */
  function DigitsOf(n: nat): (d: (nat, nat, nat, nat))
    requires n < 0x8000_0000
    ensures d.0 < 0x80 && d.1 < 0x100 && d.2 < 0x100 && d.3 < 0x100
    ensures d.0 * 0x100_0000 + d.1 * 0x1_0000 + d.2 * 0x100 + d.3 == n
  {
    var q1 := n / 0x100;
    var q2 := q1 / 0x100;
    assert n == q1 * 0x100 + n % 0x100;
    assert q1 == q2 * 0x100 + q1 % 0x100;
    assert q2 == (q2 / 0x100) * 0x100 + q2 % 0x100;
    (q2 / 0x100, q2 % 0x100, q1 % 0x100, n % 0x100)
  }

  /** A non-negative number below 2^31 as the four big-endian bytes of a header field,
      which read back as the number. */
  function EncodeWord(n: nat): (s: seq<bv8>)
    requires n < 0x8000_0000
    ensures |s| == 4
    ensures SignedBigEndian(s[0], s[1], s[2], s[3]) == n
  {
    var (d0, d1, d2, d3) := DigitsOf(n);
    [ToByte(d0), ToByte(d1), ToByte(d2), ToByte(d3)]
  }

  /** A header word written with `EncodeWord` anywhere in a file reads back as the number. */
  lemma HeaderWordOfEncoded(data: seq<bv8>, p: nat, n: nat)
    requires n < 0x8000_0000
    requires p + 4 <= |data| && data[p..p + 4] == EncodeWord(n)
    ensures HeaderWord(data, p) == n
  {
    var s := EncodeWord(n);
    HeaderWordIsBigEndian(data, p);
    assert ByteAt(data, p) == s[0] && ByteAt(data, p + 1) == s[1];
    assert ByteAt(data, p + 2) == s[2] && ByteAt(data, p + 3) == s[3];
  }

  /** The images concatenated. */
  function Flatten(images: seq<seq<bv8>>): (s: seq<bv8>)
  {
    if |images| == 0 then [] else images[0] + Flatten(images[1..])
  }

  lemma {:induction false} FlattenLength(images: seq<seq<bv8>>, size: nat)
    requires forall j :: 0 <= j < |images| ==> |images[j]| == size
    ensures |Flatten(images)| == |images| * size
  {
    if |images| > 0 {
      FlattenLength(images[1..], size);
      assert |Flatten(images)| == size + (|images| - 1) * size;
    }
  }

  /** Byte k of image i sits at i * size + k of the concatenation. */
  lemma {:induction false} FlattenIndex(images: seq<seq<bv8>>, size: nat, i: nat, k: nat)
    requires forall j :: 0 <= j < |images| ==> |images[j]| == size
    requires i < |images| && k < size
    ensures 0 <= i * size + k < |Flatten(images)|
    ensures Flatten(images)[i * size + k] == images[i][k]
  {
    if i == 0 {
      FlattenLength(images[1..], size);
    } else {
      FlattenIndex(images[1..], size, i - 1, k);
      assert i * size + k == size + (i - 1) * size + k;
    }
  }

  /** The 16-byte header of an image file: magic, count, rows, columns. */
  function ImageHeader(count: nat, rows: nat, cols: nat): (h: seq<bv8>)
    requires count < 0x8000_0000 && rows < 0x8000_0000 && cols < 0x8000_0000
    ensures |h| == ImageHeaderSize
    ensures h[4..8] == EncodeWord(count) && h[8..12] == EncodeWord(rows) && h[12..16] == EncodeWord(cols)
  {
    EncodeWord(ImageMagic) + EncodeWord(count) + EncodeWord(rows) + EncodeWord(cols)
  }

  /** An image file: the header, then every image's bytes in order. */
  function EncodeImages(rows: nat, cols: nat, images: seq<seq<bv8>>): seq<bv8>
    requires rows < 0x8000_0000 && cols < 0x8000_0000 && |images| < 0x8000_0000
  {
    ImageHeader(|images|, rows, cols) + Flatten(images)
  }

  /** `data` announces `|images|` images of `size` pixels and holds pixel k of image i at
      offset 16 + i * size + k. */
  ghost predicate HoldsImages(data: seq<bv8>, size: nat, images: seq<seq<bv8>>)
  {
    && HeaderWord(data, 4) == |images|
    && PixelsPerImage(HeaderWord(data, 8), HeaderWord(data, 12)) == size
    && (forall j :: 0 <= j < |images| ==> |images[j]| == size)
    && forall i, k :: 0 <= i < |images| && 0 <= k < size ==>
      ByteAt(data, ImageHeaderSize + i * size + k) == images[i][k]
  }

  /** The header of an encoded image file holds the count, the rows and the columns. */
  lemma EncodedImageHeader(rows: nat, cols: nat, images: seq<seq<bv8>>)
    requires rows < 0x8000_0000 && cols < 0x8000_0000 && |images| < 0x8000_0000
    ensures HeaderWord(EncodeImages(rows, cols, images), 4) == |images|
    ensures HeaderWord(EncodeImages(rows, cols, images), 8) == rows
    ensures HeaderWord(EncodeImages(rows, cols, images), 12) == cols
  {
    var data := EncodeImages(rows, cols, images);
    var head := ImageHeader(|images|, rows, cols);
    assert data[4..8] == head[4..8] && data[8..12] == head[8..12] && data[12..16] == head[12..16];
    HeaderWordOfEncoded(data, 4, |images|);
    HeaderWordOfEncoded(data, 8, rows);
    HeaderWordOfEncoded(data, 12, cols);
  }

  /** After a 16-byte header, pixel k of image i sits at offset 16 + i * size + k. */
  lemma PixelsAfterHeader(head: seq<bv8>, images: seq<seq<bv8>>, size: nat)
    requires |head| == ImageHeaderSize
    requires forall j :: 0 <= j < |images| ==> |images[j]| == size
    ensures forall i, k :: 0 <= i < |images| && 0 <= k < size ==>
      ByteAt(head + Flatten(images), ImageHeaderSize + i * size + k) == images[i][k]
  {
    forall i, k | 0 <= i < |images| && 0 <= k < size
      ensures ByteAt(head + Flatten(images), ImageHeaderSize + i * size + k) == images[i][k]
    {
      FlattenIndex(images, size, i, k);
    }
  }

  /** `EncodeImages` writes what it is given. */
  lemma EncodedImagesHeld(rows: nat, cols: nat, images: seq<seq<bv8>>, size: nat)
    requires rows < 0x8000_0000 && cols < 0x8000_0000 && |images| < 0x8000_0000
    requires size == rows * cols
    requires forall j :: 0 <= j < |images| ==> |images[j]| == size
    ensures HoldsImages(EncodeImages(rows, cols, images), size, images)
  {
    EncodedImageHeader(rows, cols, images);
    PixelsAfterHeader(ImageHeader(|images|, rows, cols), images, size);
    PixelsOfNonNegativeShape(rows, cols);
  }

  /** A file that holds images decodes to them, normalised. */
  lemma DecodeHeldImages(data: seq<bv8>, size: nat, images: seq<seq<bv8>>)
    requires HoldsImages(data, size, images)
    ensures ReadImages(data).Success?
    ensures
      var r := ReadImages(data).value;
      && |r| == |images|
      && (forall i :: 0 <= i < |r| ==> |r[i]| == size)
      && forall i, k :: 0 <= i < |r| && 0 <= k < size ==> r[i][k] == Normalize(images[i][k])
  {
  }

  /** Decoding an encoded image file gives back every pixel, normalised. */
  lemma ImagesRoundTrip(rows: nat, cols: nat, images: seq<seq<bv8>>)
    requires rows < 0x8000_0000 && cols < 0x8000_0000 && |images| < 0x8000_0000
    requires forall j :: 0 <= j < |images| ==> |images[j]| == rows * cols
    ensures ReadImages(EncodeImages(rows, cols, images)).Success?
    ensures
      var r := ReadImages(EncodeImages(rows, cols, images)).value;
      && |r| == |images|
      && (forall i :: 0 <= i < |r| ==> |r[i]| == rows * cols)
      && forall i, k :: 0 <= i < |r| && 0 <= k < rows * cols ==> r[i][k] == Normalize(images[i][k])
  {
    var size: nat := rows * cols;
    EncodedImagesHeld(rows, cols, images, size);
    DecodeHeldImages(EncodeImages(rows, cols, images), size, images);
  }

  /** A label file: the 8-byte header, then one byte per label. */
  function EncodeLabels(labels: seq<bv8>): seq<bv8>
    requires |labels| < 0x8000_0000
  {
    EncodeWord(LabelMagic) + EncodeWord(|labels|) + labels
  }

  /** Decoding an encoded label file gives the one-hot vector of every label. */
  lemma LabelsRoundTrip(labels: seq<bv8>)
    requires |labels| < 0x8000_0000
    requires forall i :: 0 <= i < |labels| ==> labels[i] as int < Classes
    ensures LabelBytesInRange(EncodeLabels(labels), LabelHeaderSize, HeaderWord(EncodeLabels(labels), 4))
    ensures ReadLabels(EncodeLabels(labels)) == Success(seq(|labels|, i requires 0 <= i < |labels| => OneHot(labels[i])))
  {
    var data := EncodeLabels(labels);
    assert data[4..8] == EncodeWord(|labels|);
    HeaderWordOfEncoded(data, 4, |labels|);
    assert forall i :: 0 <= i < |labels| ==> ByteAt(data, LabelHeaderSize + i) == labels[i];
    var r := ReadLabels(data).value;
    assert forall i :: 0 <= i < |labels| ==> r[i] == OneHot(labels[i]);
    assert r == seq(|labels|, i requires 0 <= i < |labels| => OneHot(labels[i]));
  }
}
