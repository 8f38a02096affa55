/** The DAT raster format (`DATImage` in insect_hazard_viewer.py): a fixed
    32-byte little-endian header, the layout inferred from it, and the decoding
    of the pixel bytes that follow into an RGBA raster (rows top to bottom,
    `raster[y][x]`). */
module DatFormat {
  import opened Binary
  import opened Arithmetic

  const HeaderSize: nat := 32
  /** `format_flag` value that marks a CK+FL image (separate alpha plane). */
  const CkFlFormat: U32 := 0x1004
  /** `chroma_flag` value that selects the green chroma key. */
  const ChromaGreen: U16 := 0x8000

  datatype DatHeader = DatHeader(
    typeId: Byte,       // 0x00
    flags: Byte,        // 0x01
    unknown02: U16,     // 0x02
    unknown04: U32,     // 0x04
    dataSize: U32,      // 0x08
    width: U16,         // 0x0C
    height: U16,        // 0x0E
    formatFlag: U32,    // 0x10
    unknown14: U32,     // 0x14
    unknown18: U32,     // 0x18
    chromaFlag: U16,    // 0x1C
    unknown1E: U16)     // 0x1E

  datatype Rgb = Rgb(r: Byte, g: Byte, b: Byte)
  datatype Rgba = Rgba(r: Byte, g: Byte, b: Byte, a: Byte)

  const Green := Rgb(0, 128, 0)
  const Black := Rgb(0, 0, 0)
  const Transparent := Rgba(0, 0, 0, 0)

  /** A parsed DAT blob: the raw header, the layout derived from it, and the
      bytes after the header. */
  datatype DatImage = DatImage(
    header: DatHeader,
    actualWidth: nat,
    bgrStride: nat,
    alphaStride: nat,
    hasPlanarAlpha: bool,
    chromaKey: Option<Rgb>,
    isCkFl: bool,
    needsFlip: bool,
    pixelData: seq<Byte>)

  datatype DatError = TooSmall | InvalidDimensions(width: U16, height: U16)

  /** The twelve header fields at their fixed offsets. */
  function HeaderAt(data: seq<Byte>): DatHeader
    requires |data| >= HeaderSize
  {
    DatHeader(data[0], data[1], U16At(data, 0x02), U32At(data, 0x04),
              U32At(data, 0x08), U16At(data, 0x0C), U16At(data, 0x0E),
              U32At(data, 0x10), U32At(data, 0x14), U32At(data, 0x18),
              U16At(data, 0x1C), U16At(data, 0x1E))
  }

  /** The 32 header bytes that carry `h`: the writer's side of `HeaderAt`. */
  function EncodeHeader(h: DatHeader): (b: seq<Byte>)
    ensures |b| == HeaderSize
  {
    [h.typeId, h.flags] + U16Bytes(h.unknown02) + U32Bytes(h.unknown04)
    + U32Bytes(h.dataSize) + U16Bytes(h.width) + U16Bytes(h.height)
    + U32Bytes(h.formatFlag) + U32Bytes(h.unknown14) + U32Bytes(h.unknown18)
    + U16Bytes(h.chromaFlag) + U16Bytes(h.unknown1E)
  }

  /** Row width in pixels of the BGR plane: `width`, or `width` rounded up to
      even (2-byte row alignment), chosen by comparing `dataSize` with the
      unaligned and aligned plane sizes. */
  function ActualWidth(width: nat, height: nat, dataSize: nat): (aw: nat)
    ensures aw == width || aw == width + 1
    ensures aw == width + 1 ==> width % 2 == 1
    ensures aw % 2 == 1 && height > 0 ==> width * height * 3 <= dataSize < (width + 1) * height * 3
  {
    var aligned := width + width % 2;
    var exact := width * height * 3;
    var alignedSize := aligned * height * 3;
    if dataSize == exact || (dataSize > exact && dataSize < alignedSize) then width else aligned
  }

  /** Row stride of the alpha plane: `width` rounded up to a multiple of 4. */
  function AlphaStride(width: nat): (s: nat)
    ensures s % 4 == 0 && width <= s < width + 4
  {
    ((width + 3) / 4) * 4
  }

  /** Size in bytes of the BGR plane. */
  function BgrSize(img: DatImage): nat
  {
    img.bgrStride * img.header.height
  }

  /** The layout the parser derives from a header. */
  function Derive(h: DatHeader, pixels: seq<Byte>): DatImage
  {
    var isCkFl := h.formatFlag == CkFlFormat && h.chromaFlag == ChromaGreen;
    var aw := ActualWidth(h.width, h.height, h.dataSize);
    var bgrStride := aw * 3;
    var bgrNeeded := bgrStride * h.height;
    var planar := isCkFl || (h.chromaFlag == 0 && h.dataSize > bgrNeeded);
    var key := if planar then None
               else if h.chromaFlag == ChromaGreen then Some(Green)
               else Some(Black);
    DatImage(h, aw, bgrStride, AlphaStride(h.width), planar, key, isCkFl, false, pixels)
  }

  /** The layout rules every parsed image obeys. */
  predicate WellFormed(img: DatImage)
  {
    var h := img.header;
    && h.width > 0 && h.height > 0
    && img.actualWidth == ActualWidth(h.width, h.height, h.dataSize)
    && img.bgrStride == 3 * img.actualWidth
    && img.alphaStride % 4 == 0 && h.width <= img.alphaStride < h.width + 4
    && (img.isCkFl <==> h.formatFlag == CkFlFormat && h.chromaFlag == ChromaGreen)
    && (img.hasPlanarAlpha <==>
          img.isCkFl || (h.chromaFlag == 0 && h.dataSize > img.bgrStride * h.height))
    && (img.hasPlanarAlpha <==> img.chromaKey == None)
    && (!img.hasPlanarAlpha ==>
          img.chromaKey == Some(if h.chromaFlag == ChromaGreen then Green else Black))
    && !img.needsFlip
  }

  /** `DATImage.parse`: fails on fewer than 32 bytes or a zero dimension;
      otherwise the header fields, the derived layout and the pixel bytes. */
  function Parse(data: seq<Byte>): (r: Result<DatImage, DatError>)
    ensures r == Err(TooSmall) <==> |data| < HeaderSize
    ensures r.Err? && r.error.InvalidDimensions? <==>
              |data| >= HeaderSize && (U16At(data, 0x0C) == 0 || U16At(data, 0x0E) == 0)
    ensures r.Ok? ==> WellFormed(r.value)
    ensures r.Ok? ==> r.value.header == HeaderAt(data) && r.value.pixelData == data[HeaderSize..]
  {
    if |data| < HeaderSize then Err(TooSmall)
    else
      var h := HeaderAt(data);
      if h.width == 0 || h.height == 0 then Err(InvalidDimensions(h.width, h.height))
      else Ok(Derive(h, data[HeaderSize..]))
  }

  /** Encoding a header and parsing it back gives the same fields, the same
      trailing bytes, and the layout derived from those fields. */
  lemma ParseEncoded(h: DatHeader, pixels: seq<Byte>)
    ensures h.width == 0 || h.height == 0 ==>
              Parse(EncodeHeader(h) + pixels) == Err(InvalidDimensions(h.width, h.height))
    ensures h.width > 0 && h.height > 0 ==>
              Parse(EncodeHeader(h) + pixels) == Ok(Derive(h, pixels))
  {
    var e := EncodeHeader(h);
    var d := e + pixels;
    assert d[..HeaderSize] == e;
    assert d[HeaderSize..] == pixels;
    assert d[0] == h.typeId && d[1] == h.flags;
    U16AtSlice(d, U16Bytes(h.unknown02), 0x02, 0);
    U32AtSlice(d, U32Bytes(h.unknown04), 0x04, 0);
    U32AtSlice(d, U32Bytes(h.dataSize), 0x08, 0);
    U16AtSlice(d, U16Bytes(h.width), 0x0C, 0);
    U16AtSlice(d, U16Bytes(h.height), 0x0E, 0);
    U32AtSlice(d, U32Bytes(h.formatFlag), 0x10, 0);
    U32AtSlice(d, U32Bytes(h.unknown14), 0x14, 0);
    U32AtSlice(d, U32Bytes(h.unknown18), 0x18, 0);
    U16AtSlice(d, U16Bytes(h.chromaFlag), 0x1C, 0);
    U16AtSlice(d, U16Bytes(h.unknown1E), 0x1E, 0);
    assert HeaderAt(d) == h;
  }

  /** The actual width is odd exactly when the width is odd and `dataSize`
      lies in the unaligned band `[3wh, 3(w+1)h)`; an even width is never
      widened. */
  lemma ActualWidthOddIff(width: nat, height: nat, dataSize: nat)
    requires width > 0 && height > 0
    ensures ActualWidth(width, height, dataSize) % 2 == 1 <==>
              width % 2 == 1 && width * height * 3 <= dataSize < (width + 1) * height * 3
    ensures width % 2 == 0 ==> ActualWidth(width, height, dataSize) == width
  {
  }

  // ---------------------------------------------------------------------
  // Pixel decoding (`DATImage.to_pil_image`)

  /** The planar decoder is used only when the image has an alpha plane and the
      pixel bytes extend past the BGR plane. */
  predicate UsesPlanarDecode(img: DatImage)
  {
    img.hasPlanarAlpha && |img.pixelData| > BgrSize(img)
  }

  /** `self.chroma_key or (0, 0, 0)`. */
  function ActiveKey(img: DatImage): Rgb
  {
    if img.chromaKey.Some? then img.chromaKey.value else Black
  }

  /** Two-plane pixel: BGR from the first plane (black past its end), alpha
      from the second plane (opaque past its end). The alpha stride falls back
      to the width when it is 0, which a parsed image never has. */
  function PlanarPixel(img: DatImage, x: nat, y: nat): Rgba
    requires UsesPlanarDecode(img)
  {
    var data := img.pixelData;
    var bgrSize := BgrSize(img);
    var i := y * img.bgrStride + x * 3;
    var alphaStride := if img.alphaStride > 0 then img.alphaStride else img.header.width;
    var ai := y * alphaStride + x;
    var a := if ai < |data| - bgrSize then data[bgrSize + ai] else 255;
    if i + 3 <= bgrSize then Rgba(data[i + 2], data[i + 1], data[i], a)
    else Rgba(0, 0, 0, a)
  }

  /** Single-plane pixel: transparent past the end of the data or when the
      colour equals the key, otherwise opaque. */
  function KeyedPixel(data: seq<Byte>, stride: nat, key: Rgb, x: nat, y: nat): Rgba
  {
    var i := y * stride + x * 3;
    if i + 3 <= |data| then
      if Rgb(data[i + 2], data[i + 1], data[i]) == key then Transparent
      else Rgba(data[i + 2], data[i + 1], data[i], 255)
    else Transparent
  }

  function PixelAt(img: DatImage, x: nat, y: nat): Rgba
  {
    if UsesPlanarDecode(img) then PlanarPixel(img, x, y)
    else KeyedPixel(img.pixelData, img.bgrStride, ActiveKey(img), x, y)
  }

  /** Row `y` of the unflipped raster. */
  function Row(img: DatImage, y: nat): seq<Rgba>
  {
    seq(img.header.width, x requires 0 <= x < img.header.width => PixelAt(img, x, y))
  }

  /** The unflipped raster, `height` rows of `width` pixels. */
  function Raster(img: DatImage): seq<seq<Rgba>>
  {
    seq(img.header.height, y requires 0 <= y < img.header.height => Row(img, y))
  }

  /** `Image.FLIP_TOP_BOTTOM`. */
  function FlipRows<T>(rows: seq<T>): (r: seq<T>)
    ensures |r| == |rows|
    ensures forall y :: 0 <= y < |rows| ==> r[y] == rows[|rows| - 1 - y]
  {
    if rows == [] then [] else FlipRows(rows[1..]) + [rows[0]]
  }

  lemma FlipRowsInvolution<T>(rows: seq<T>)
    ensures FlipRows(FlipRows(rows)) == rows
  {
  }

  /** `force_flip if force_flip is not None else self.needs_flip`. */
  function DoFlip(forceFlip: Option<bool>, needsFlip: bool): bool
  {
    if forceFlip.Some? then forceFlip.value else needsFlip
  }

  /** A parsed image is flipped exactly when the caller forces it: the header
      never asks for a flip. */
  lemma FlipOnlyWhenForced(img: DatImage, forceFlip: Option<bool>)
    requires WellFormed(img)
    ensures DoFlip(forceFlip, img.needsFlip) <==> forceFlip == Some(true)
  {
  }

  // ---------------------------------------------------------------------
  // Writers of the two layouts, and the decoder recovering what they wrote

  /** `raster` has `height` rows of `width` pixels. */
  predicate IsRaster(raster: seq<seq<Rgba>>, width: nat, height: nat)
  {
    |raster| == height && forall y :: 0 <= y < height ==> |raster[y]| == width
  }

  /** Byte `c` of a pixel in B, G, R order. */
  function Channel(p: Rgba, c: nat): Byte
  {
    if c == 0 then p.b else if c == 1 then p.g else p.r
  }

  /** The B, G, R bytes of each pixel of `row`, in order. */
  function PixelBytes(row: seq<Rgba>): (bytes: seq<Byte>)
    ensures |bytes| == 3 * |row|
  {
    if row == [] then [] else [row[0].b, row[0].g, row[0].r] + PixelBytes(row[1..])
  }

  lemma {:induction false} PixelBytesAt(row: seq<Rgba>, x: nat, c: nat)
    requires x < |row| && c < 3
    ensures PixelBytes(row)[x * 3 + c] == Channel(row[x], c)
  {
    if x > 0 {
      PixelBytesAt(row[1..], x - 1, c);
    }
  }

  function Zeros(n: nat): (z: seq<Byte>)
    ensures |z| == n
  {
    seq(n, _ => 0)
  }

  /** One BGR row, zero padded to `stride` bytes. */
  function BgrRow(row: seq<Rgba>, stride: nat): (bytes: seq<Byte>)
    requires 3 * |row| <= stride
    ensures |bytes| == stride
  {
    PixelBytes(row) + Zeros(stride - 3 * |row|)
  }

  /** One alpha row, zero padded to `stride` bytes. */
  function AlphaRow(row: seq<Rgba>, stride: nat): (bytes: seq<Byte>)
    requires |row| <= stride
    ensures |bytes| == stride
  {
    seq(|row|, x requires 0 <= x < |row| => row[x].a) + Zeros(stride - |row|)
  }

  /** The BGR plane of `raster`, rows `stride` bytes apart. */
  function BgrPlane(raster: seq<seq<Rgba>>, width: nat, stride: nat): (plane: seq<Byte>)
    requires IsRaster(raster, width, |raster|) && 3 * width <= stride
    ensures |plane| == |raster| * stride
  {
    ConcatLength(seq(|raster|, y requires 0 <= y < |raster| => BgrRow(raster[y], stride)), stride);
    Concat(seq(|raster|, y requires 0 <= y < |raster| => BgrRow(raster[y], stride)))
  }

  /** The alpha plane of `raster`, rows `stride` bytes apart. */
  function AlphaPlane(raster: seq<seq<Rgba>>, width: nat, stride: nat): (plane: seq<Byte>)
    requires IsRaster(raster, width, |raster|) && width <= stride
    ensures |plane| == |raster| * stride
  {
    ConcatLength(seq(|raster|, y requires 0 <= y < |raster| => AlphaRow(raster[y], stride)), stride);
    Concat(seq(|raster|, y requires 0 <= y < |raster| => AlphaRow(raster[y], stride)))
  }

  /** Byte `c` of pixel `(x, y)` sits at `i + c` of the BGR plane, where `i`
      is the pixel's offset `y * stride + 3x`. */
  lemma BgrPlaneAt(raster: seq<seq<Rgba>>, width: nat, stride: nat, x: nat, y: nat, c: nat, i: int)
    requires IsRaster(raster, width, |raster|) && 3 * width <= stride
    requires x < width && y < |raster| && c < 3 && i == y * stride + x * 3
    ensures 0 <= i && i + 3 <= |BgrPlane(raster, width, stride)|
    ensures BgrPlane(raster, width, stride)[i + c] == Channel(raster[y][x], c)
  {
    var rows := seq(|raster|, y requires 0 <= y < |raster| => BgrRow(raster[y], stride));
    ConcatAt(rows, stride, y, x * 3 + c);
    RowEnd(y, x * 3 + 3, stride, |raster|);
    MulMono(0, y, stride);
    PixelBytesAt(raster[y], x, c);
  }

  /** The alpha of pixel `(x, y)` sits at `ai = y * stride + x` of the alpha
      plane. */
  lemma AlphaPlaneAt(raster: seq<seq<Rgba>>, width: nat, stride: nat, x: nat, y: nat, ai: int)
    requires IsRaster(raster, width, |raster|) && width <= stride
    requires x < width && y < |raster| && ai == y * stride + x
    ensures 0 <= ai < |AlphaPlane(raster, width, stride)|
    ensures AlphaPlane(raster, width, stride)[ai] == raster[y][x].a
  {
    var rows := seq(|raster|, y requires 0 <= y < |raster| => AlphaRow(raster[y], stride));
    ConcatAt(rows, stride, y, x);
    MulMono(0, y, stride);
  }

  /** The pixel bytes of a two-plane image showing `raster`. */
  function PlanarData(raster: seq<seq<Rgba>>, img: DatImage): seq<Byte>
    requires WellFormed(img) && IsRaster(raster, img.header.width, img.header.height)
  {
    BgrPlane(raster, img.header.width, img.bgrStride)
    + AlphaPlane(raster, img.header.width, img.alphaStride)
  }

  /** The bytes a two-plane pixel is read from, once its offsets are known to
      lie inside the planes. */
  lemma PlanarPixelFrom(img: DatImage, x: nat, y: nat, i: nat, ai: nat)
    requires UsesPlanarDecode(img) && img.alphaStride > 0
    requires i == y * img.bgrStride + x * 3 && i + 3 <= BgrSize(img)
    requires ai == y * img.alphaStride + x && BgrSize(img) + ai < |img.pixelData|
    ensures PlanarPixel(img, x, y) ==
      Rgba(img.pixelData[i + 2], img.pixelData[i + 1], img.pixelData[i], img.pixelData[BgrSize(img) + ai])
  {
  }

  lemma PlanarPixelRoundTrip(img: DatImage, raster: seq<seq<Rgba>>, x: nat, y: nat)
    requires WellFormed(img) && UsesPlanarDecode(img)
    requires IsRaster(raster, img.header.width, img.header.height)
    requires img.pixelData == PlanarData(raster, img)
    requires x < img.header.width && y < img.header.height
    ensures PixelAt(img, x, y) == raster[y][x]
  {
    var w := img.header.width;
    var bgr := BgrPlane(raster, w, img.bgrStride);
    var alpha := AlphaPlane(raster, w, img.alphaStride);
    var i := y * img.bgrStride + x * 3;
    var ai := y * img.alphaStride + x;
    BgrPlaneAt(raster, w, img.bgrStride, x, y, 0, i);
    BgrPlaneAt(raster, w, img.bgrStride, x, y, 1, i);
    BgrPlaneAt(raster, w, img.bgrStride, x, y, 2, i);
    AlphaPlaneAt(raster, w, img.alphaStride, x, y, ai);
    var data := img.pixelData;
    assert |bgr| == BgrSize(img) && data == bgr + alpha;
    PlanarPixelFrom(img, x, y, i, ai);
    assert data[i] == bgr[i] && data[i + 1] == bgr[i + 1] && data[i + 2] == bgr[i + 2];
    assert data[BgrSize(img) + ai] == alpha[ai];
    var p := raster[y][x];
    assert PlanarPixel(img, x, y) == Rgba(p.r, p.g, p.b, p.a);
  }

  /** Two-plane decoding recovers, pixel for pixel, the raster whose planes were
      written with the image's strides (odd widths included, where the BGR rows
      carry padding). */
  lemma PlanarRoundTrip(img: DatImage, raster: seq<seq<Rgba>>)
    requires WellFormed(img) && img.hasPlanarAlpha
    requires IsRaster(raster, img.header.width, img.header.height)
    requires img.pixelData == PlanarData(raster, img)
    ensures Raster(img) == raster
  {
    var w, h := img.header.width, img.header.height;
    MulMono(1, h, img.alphaStride);
    assert |PlanarData(raster, img)| == BgrSize(img) + h * img.alphaStride;
    assert UsesPlanarDecode(img);
    forall y | 0 <= y < h
      ensures Row(img, y) == raster[y]
    {
      forall x | 0 <= x < w
        ensures PixelAt(img, x, y) == raster[y][x]
      {
        PlanarPixelRoundTrip(img, raster, x, y);
      }
    }
  }

  /** Every pixel is either fully transparent black or opaque with a colour
      other than `key`: the rasters a chroma-keyed image can represent. */
  predicate KeyRepresentable(raster: seq<seq<Rgba>>, key: Rgb)
  {
    forall y, x :: 0 <= y < |raster| && 0 <= x < |raster[y]| ==>
      raster[y][x] == Transparent ||
      (raster[y][x].a == 255 && Rgb(raster[y][x].r, raster[y][x].g, raster[y][x].b) != key)
  }

  /** `raster` with every transparent pixel painted in the key colour. */
  function KeyFilled(raster: seq<seq<Rgba>>, key: Rgb): (r: seq<seq<Rgba>>)
    ensures |r| == |raster|
    ensures forall y :: 0 <= y < |r| ==> |r[y]| == |raster[y]|
  {
    seq(|raster|, y requires 0 <= y < |raster| =>
      seq(|raster[y]|, x requires 0 <= x < |raster[y]| =>
        if raster[y][x].a == 0 then Rgba(key.r, key.g, key.b, 0) else raster[y][x]))
  }

  lemma KeyedPixelRoundTrip(img: DatImage, raster: seq<seq<Rgba>>, x: nat, y: nat)
    requires WellFormed(img)
    requires IsRaster(raster, img.header.width, img.header.height)
    requires KeyRepresentable(raster, ActiveKey(img))
    requires img.pixelData == BgrPlane(KeyFilled(raster, ActiveKey(img)), img.header.width, img.bgrStride)
    requires x < img.header.width && y < img.header.height
    ensures KeyedPixel(img.pixelData, img.bgrStride, ActiveKey(img), x, y) == raster[y][x]
  {
    var key := ActiveKey(img);
    var filled := KeyFilled(raster, key);
    var data := img.pixelData;
    var i := y * img.bgrStride + x * 3;
    BgrPlaneAt(filled, img.header.width, img.bgrStride, x, y, 0, i);
    BgrPlaneAt(filled, img.header.width, img.bgrStride, x, y, 1, i);
    BgrPlaneAt(filled, img.header.width, img.bgrStride, x, y, 2, i);
    var p := raster[y][x];
    var q := filled[y][x];
    assert i + 3 <= |data|;
    assert Rgb(data[i + 2], data[i + 1], data[i]) == Rgb(q.r, q.g, q.b);
  }

  /** Single-plane decoding with the image's key recovers the raster that was
      written with transparent pixels painted in the key colour. */
  lemma KeyedRoundTrip(img: DatImage, raster: seq<seq<Rgba>>)
    requires WellFormed(img)
    requires IsRaster(raster, img.header.width, img.header.height)
    requires KeyRepresentable(raster, ActiveKey(img))
    requires img.pixelData == BgrPlane(KeyFilled(raster, ActiveKey(img)), img.header.width, img.bgrStride)
    ensures Raster(img) == raster
  {
    var w, h := img.header.width, img.header.height;
    assert !UsesPlanarDecode(img);
    forall y | 0 <= y < h
      ensures Row(img, y) == raster[y]
    {
      forall x | 0 <= x < w
        ensures PixelAt(img, x, y) == raster[y][x]
      {
        KeyedPixelRoundTrip(img, raster, x, y);
      }
    }
  }

  /** One row of the two-plane loop of `to_pil_image`. */
  method DecodePlanarRow(img: DatImage, y: nat) returns (row: seq<Rgba>)
    requires UsesPlanarDecode(img)
    ensures row == Row(img, y)
  {
    var width := img.header.width;
    var bgrSize := BgrSize(img);
    var bgrData := img.pixelData[..bgrSize];
    var alphaData := img.pixelData[bgrSize..];
    var alphaStride := if img.alphaStride > 0 then img.alphaStride else width;
    MulMono(0, y, img.bgrStride);
    MulMono(0, y, alphaStride);
    var bgrRowStart: nat := y * img.bgrStride;
    var alphaRowStart: nat := y * alphaStride;
    row := [];
    var x: nat := 0;
    while x < width
      invariant 0 <= x <= width
      invariant |row| == x
      invariant forall i :: 0 <= i < x ==> row[i] == PixelAt(img, i, y)
    {
      var bgrIdx := bgrRowStart + x * 3;
      var r, g, b;
      if bgrIdx + 3 <= |bgrData| {
        b, g, r := bgrData[bgrIdx], bgrData[bgrIdx + 1], bgrData[bgrIdx + 2];
      } else {
        r, g, b := 0, 0, 0;
      }
      var alphaIdx := alphaRowStart + x;
      var a := if alphaIdx < |alphaData| then alphaData[alphaIdx] else 255;
      assert Rgba(r, g, b, a) == PixelAt(img, x, y);
      row := row + [Rgba(r, g, b, a)];
      x := x + 1;
    }
  }

  /** One row of the chroma-key loop of `to_pil_image`. */
  method DecodeKeyedRow(img: DatImage, y: nat) returns (row: seq<Rgba>)
    requires !UsesPlanarDecode(img)
    ensures row == Row(img, y)
  {
    var width := img.header.width;
    var data := img.pixelData;
    var key := ActiveKey(img);
    MulMono(0, y, img.bgrStride);
    var rowStart: nat := y * img.bgrStride;
    row := [];
    var x: nat := 0;
    while x < width
      invariant 0 <= x <= width
      invariant |row| == x
      invariant forall i :: 0 <= i < x ==> row[i] == PixelAt(img, i, y)
    {
      var idx := rowStart + x * 3;
      if idx + 3 <= |data| {
        var b, g, r := data[idx], data[idx + 1], data[idx + 2];
        if Rgb(r, g, b) == key {
          row := row + [Transparent];
        } else {
          row := row + [Rgba(r, g, b, 255)];
        }
      } else {
        row := row + [Transparent];
      }
      x := x + 1;
    }
  }

  /** `DATImage.to_pil_image`: chooses the layout, fills the raster row by
      row, then applies the flip. */
  method ToRaster(img: DatImage, forceFlip: Option<bool>) returns (raster: seq<seq<Rgba>>)
    ensures |raster| == img.header.height
    ensures forall y :: 0 <= y < |raster| ==> |raster[y]| == img.header.width
    ensures raster == if DoFlip(forceFlip, img.needsFlip) then FlipRows(Raster(img)) else Raster(img)
  {
    var planar := img.hasPlanarAlpha && |img.pixelData| > BgrSize(img);
    raster := [];
    var y: nat := 0;
    while y < img.header.height
      invariant 0 <= y <= img.header.height
      invariant |raster| == y
      invariant forall j :: 0 <= j < y ==> raster[j] == Row(img, j)
    {
      var row;
      if planar {
        row := DecodePlanarRow(img, y);
      } else {
        row := DecodeKeyedRow(img, y);
      }
      raster := raster + [row];
      y := y + 1;
    }
    assert raster == Raster(img);
    if DoFlip(forceFlip, img.needsFlip) {
      raster := FlipRows(raster);
    }
  }
}
