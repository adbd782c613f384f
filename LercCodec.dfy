/** The LERC1 codec wrapper: the header check that guards the decoder, the
    fill of a `Lerc1Image` from a packed source before encoding, and the
    strided unfill of a decoded image into the caller's buffer. */
module LercCodec {
  import opened Common
  import opened IcdCodecs
  import opened Strided
  import opened Lerc1Image

  // ---------------------------------------------------------------------
  // Unaligned little-endian reads over an advancing cursor
  // ---------------------------------------------------------------------

  /** `READ_INT32`: the `uint32_t` stored at `p`, and the cursor after it. */
  function ReadInt32(s: seq<Byte>, p: nat): (r: (U32, nat))
    requires p + 4 <= |s|
    ensures r.1 == p + 4 && LeBytes(r.0) == s[p..p + 4]
  {
    (ReadLeU32(s, p), p + 4)
  }

  /** An IEEE 754 binary32 value, by its bit pattern. */
  datatype Float32 = Float32(bits: U32)

  /** `READ_FLOAT`: the `float` stored at `p`, and the cursor after it. */
  function ReadFloat(s: seq<Byte>, p: nat): (r: (Float32, nat))
    requires p + 4 <= |s|
    ensures r.1 == p + 4 && LeBytes(r.0.bits) == s[p..p + 4]
  {
    var (v, q) := ReadInt32(s, p);
    (Float32(v), q)
  }

  /** `f == 0.0f || f == 1.0f`: positive zero, negative zero and one; every
      NaN compares unequal. */
  predicate IsZeroOrOne(f: Float32) {
    f.bits == 0 || f.bits == 0x8000_0000 || f.bits == 0x3F80_0000
  }

  // ---------------------------------------------------------------------
  // checkV1
  // ---------------------------------------------------------------------

  /** `"CntZImage "`, the first ten bytes of a LERC1 blob. */
  const V1Signature: seq<Byte> := [0x43, 0x6E, 0x74, 0x5A, 0x49, 0x6D, 0x61, 0x67, 0x65, 0x20]

  /** What the header check does with a buffer: accept it, reject it, or
      read four bytes at offset `at`, which runs past the end. */
  datatype V1Verdict = Accepted | Rejected | ReadsPastEnd(at: nat)

  /** How far `checkV1` gets through the fixed part of the header: it
      stops (rejecting), or it has read the mask byte count `msz` and its
      cursor is at `next`. */
  datatype V1Prefix = Stop | MaskBytes(msz: U32, next: nat)

  /** The fixed part of a well-formed header, field by field at its
      offset: the signature, version 11, type 8, at most 20000 by 20000
      pixels, a mask of zero blocks and a mask maximum of 0 or 1. */
  predicate V1PrefixOk(s: seq<Byte>) {
    && |s| >= 67 && s[..10] == V1Signature
    && Field(s, 10) == 11 && Field(s, 14) == 8
    && Field(s, 18) <= 20000 && Field(s, 22) <= 20000
    && Field(s, 34) == 0 && Field(s, 38) == 0
    && IsZeroOrOne(Float32(Field(s, 46)))
  }

  /** `checkV1` up to and including the mask maximum, over the advancing
      cursor. The cursor ends at offset 50, just before the mask bytes. */
  function CheckV1Prefix(s: seq<Byte>): (r: V1Prefix)
    ensures r.MaskBytes? <==> V1PrefixOk(s)
    ensures r.MaskBytes? ==> r.msz == Field(s, 42) && r.next == 50
  {
    if |s| < 67 then Stop
    else if s[..10] != V1Signature then Stop
    else
      var (version, p1) := ReadInt32(s, 10);
      var (tpe, p2) := ReadInt32(s, p1);
      if version != 11 || tpe != 8 then Stop
      else
        var (h, p3) := ReadInt32(s, p2);
        var (w, p4) := ReadInt32(s, p3);
        if w > 20000 || h > 20000 then Stop
        else
          // skip the maxVal double
          var p5 := p4 + 8;
          var (maskH, p6) := ReadInt32(s, p5);
          var (maskW, p7) := ReadInt32(s, p6);
          if maskH > 0 || maskW > 0 then Stop
          else
            var (msz, p8) := ReadInt32(s, p7);
            var (mmval, p9) := ReadFloat(s, p8);
            if !IsZeroOrOne(mmval) then Stop
            else MaskBytes(msz, p9)
  }

  /** `checkV1` after the guard: skips the `msz` mask bytes from cursor `p`
      and reads the data array header there. When the mask and the data
      header fit in the buffer no read runs past its end, and the header is
      accepted exactly when its block counts are at most 10000 and the data
      bytes fit too. */
  function CheckV1Data(s: seq<Byte>, msz: U32, p: nat): (r: V1Verdict)
    ensures p + msz + 12 <= |s| ==> !r.ReadsPastEnd?
    ensures p + msz + 12 <= |s| ==>
      (r == Accepted <==> Field(s, p + msz) <= 10000 && Field(s, p + msz + 4) <= 10000
                          && p + 16 + msz + Field(s, p + msz + 8) <= |s|)
  {
    var p10 := p + msz;
    if p10 + 4 > |s| then ReadsPastEnd(p10)
    else if p10 + 8 > |s| then ReadsPastEnd(p10 + 4)
    else
      var (dataH, p11) := ReadInt32(s, p10);
      var (dataW, p12) := ReadInt32(s, p11);
      if dataH > 10000 || dataW > 10000 then Rejected
      else if p12 + 4 > |s| then ReadsPastEnd(p12)
      else
        var (dsz, _) := ReadInt32(s, p12);
        if p + 16 + msz + dsz <= |s| then Accepted else Rejected
  }

  /** `checkV1`. `wrap32` selects whether the guard `msz + 50 + 16 > sz`
      adds in 32 bits, as the code does, or in full. */
  function CheckV1Core(s: seq<Byte>, wrap32: bool): V1Verdict {
    match CheckV1Prefix(s)
    case Stop => Rejected
    case MaskBytes(msz, p) =>
      // the sum is below 2^33, so in `uint32_t` it loses 2^32 at most once
      var sum := msz + 50 + 16;
      var need := if wrap32 && sum >= Two32 then sum - Two32 else sum;
      if need > |s| then Rejected else CheckV1Data(s, msz, p)
  }

  /** The 32-bit field at a fixed offset of the header. */
  function Field(s: seq<Byte>, off: nat): U32
    requires off + 4 <= |s|
  {
    LeValue(s[off], s[off + 1], s[off + 2], s[off + 3])
  }

  /** A well-formed LERC1 header: the fixed part, then the mask bytes
      followed by a data array of at most 10000 by 10000 blocks, all within
      the buffer. */
  predicate V1HeaderOk(s: seq<Byte>) {
    && V1PrefixOk(s)
    && 66 + Field(s, 42) <= |s|
    && Field(s, 50 + Field(s, 42)) <= 10000 && Field(s, 54 + Field(s, 42)) <= 10000
    && 66 + Field(s, 42) + Field(s, 58 + Field(s, 42)) <= |s|
  }

  /** The header check with the guard computed without wrap-around: it
      never reads past the buffer, rejects every buffer shorter than the
      smallest LERC1 blob, and accepts exactly the well-formed headers. */
  function CheckV1(s: seq<Byte>): (r: V1Verdict)
    ensures !r.ReadsPastEnd?
    ensures |s| < 67 ==> r == Rejected
    ensures r == Accepted <==> V1HeaderOk(s)
  {
    CheckV1Core(s, false)
  }

  /** `checkV1` as written: the guard adds in `uint32_t`. */
  function CheckV1AsWritten(s: seq<Byte>): V1Verdict {
    CheckV1Core(s, true)
  }

  /** The wrap only matters for a mask size within 66 of 2^32: below that
      the code and the corrected check agree on every buffer. */
  lemma {:induction false} AsWrittenAgreesBelowWrap(s: seq<Byte>)
    requires |s| >= 67 ==> Field(s, 42) < Two32 - 66
    ensures CheckV1AsWritten(s) == CheckV1(s)
  {
    match CheckV1Prefix(s)
    case Stop =>
    case MaskBytes(msz, p) =>
      assert msz + 66 < Two32;
  }

  /** A 67-byte header that is well formed up to its mask byte count,
      `0xFFFFFFFF`: signature, version, type, height, width, ... */
  const WrapHeaderStart: seq<Byte> := [
    0x43, 0x6E, 0x74, 0x5A, 0x49, 0x6D, 0x61, 0x67, 0x65, 0x20,
    11, 0, 0, 0,  8, 0, 0, 0,  1, 0, 0, 0,  1, 0, 0, 0]

  /** ... maximum value, mask blocks, mask byte count and mask maximum 1.0f. */
  const WrapHeaderMask: seq<Byte> := [
    0, 0, 0, 0, 0, 0, 0, 0,
    0, 0, 0, 0,  0, 0, 0, 0,  0xFF, 0xFF, 0xFF, 0xFF,  0x00, 0x00, 0x80, 0x3F]

  const WrapHeader: seq<Byte> := WrapHeaderStart + WrapHeaderMask + seq(17, _ => 0)

  /** Whenever the 32-bit sum wraps to at most the length of a buffer of
      less than four gigabytes, the guard passes and the read after the mask
      bytes starts past the end. */
  lemma {:induction false} WrappedGuardOverruns(s: seq<Byte>)
    requires V1PrefixOk(s) && |s| < Two32 - 16
    requires Field(s, 42) + 66 >= Two32 && Field(s, 42) + 66 - Two32 <= |s|
    ensures CheckV1AsWritten(s) == ReadsPastEnd(50 + Field(s, 42))
  {
    assert CheckV1Prefix(s) == MaskBytes(Field(s, 42), 50);
  }

  /** With that mask byte count `msz + 50 + 16` wraps to 65, the guard lets
      the 67-byte buffer through, and the next read is four gigabytes past
      its end. */
  lemma GuardWrapOverrun()
    ensures |WrapHeader| == 67
    ensures CheckV1AsWritten(WrapHeader) == ReadsPastEnd(50 + 0xFFFF_FFFF)
  {
    WrapHeaderFields();
    WrappedGuardOverruns(WrapHeader);
  }

  /** The corrected check rejects the same buffer. */
  lemma GuardWrapRejected()
    ensures CheckV1(WrapHeader) == Rejected
  {
    WrapHeaderFields();
  }

  /** Where the bytes of the two literal parts sit in the header. */
  lemma WrapHeaderBytes()
    ensures |WrapHeader| == 67
    ensures forall k :: 0 <= k < |WrapHeaderStart| ==> WrapHeader[k] == WrapHeaderStart[k]
    ensures forall k :: 0 <= k < |WrapHeaderMask| ==> WrapHeader[26 + k] == WrapHeaderMask[k]
  {
  }

  lemma WrapHeaderFields()
    ensures |WrapHeader| == 67
    ensures V1PrefixOk(WrapHeader) && Field(WrapHeader, 42) == 0xFFFF_FFFF
  {
    WrapHeaderSignature();
    WrapHeaderSizes();
    WrapHeaderMaskFields();
  }

  lemma WrapHeaderSignature()
    ensures |WrapHeader| == 67 && WrapHeader[..10] == V1Signature
  {
    WrapHeaderBytes();
    assert WrapHeader[..10] == V1Signature;
  }

  lemma WrapHeaderSizes()
    ensures |WrapHeader| == 67
    ensures Field(WrapHeader, 10) == 11 && Field(WrapHeader, 14) == 8
    ensures Field(WrapHeader, 18) == 1 && Field(WrapHeader, 22) == 1
  {
    WrapHeaderBytes();
  }

  lemma WrapHeaderMaskFields()
    ensures |WrapHeader| == 67
    ensures Field(WrapHeader, 34) == 0 && Field(WrapHeader, 38) == 0
    ensures Field(WrapHeader, 42) == 0xFFFF_FFFF && Field(WrapHeader, 46) == 0x3F80_0000
  {
    WrapHeaderBytes();
    var s := WrapHeader;
    assert Field(s, 34) == 0 && Field(s, 38) == 0;
    assert Field(s, 42) == 0xFFFF_FFFF && Field(s, 46) == 0x3F80_0000;
  }

  // ---------------------------------------------------------------------
  // Lerc1ImgFill
  // ---------------------------------------------------------------------

  /** The mask bits once the first `k` pixels have been set from `src`
      (valid unless the value is the no-data value), starting from `base`. */
  function MaskOf(base: seq<bv8>, src: seq<real>, ndv: real, k: nat): (r: seq<bv8>)
    requires k <= |src| && k <= 8 * |base|
    ensures |r| == |base|
    decreases k
  {
    if k == 0 then base
    else
      DivBounds(k - 1, 8, |base|);
      WithBit(MaskOf(base, src, ndv, k - 1), k - 1, src[k - 1] != ndv)
  }

  /** A pixel that has been set is valid exactly when its value differs
      from the no-data value; the others keep their bit in `base`. */
  lemma {:induction false} MaskOfValid(base: seq<bv8>, src: seq<real>, ndv: real, k: nat, j: nat)
    requires k <= |src| && k <= 8 * |base| && j / 8 < |base|
    ensures ValidIn(MaskOf(base, src, ndv, k), j) == if j < k then src[j] != ndv else ValidIn(base, j)
    decreases k
  {
    if k > 0 {
      DivBounds(k - 1, 8, |base|);
      MaskOfValid(base, src, ndv, k - 1, j);
      WithBitEffect(MaskOf(base, src, ndv, k - 1), k - 1, src[k - 1] != ndv, j);
    }
  }

  /** The image `Lerc1ImgFill` builds in a fresh `Lerc1Image`. */
  function FilledImage(src: seq<real>, ndv: real, w: nat, h: nat): (d: Lerc1Data)
    requires w * h <= IntMax && w * h <= |src|
    ensures d.WellFormed()
  {
    MaskSizeIsCeil(w * h);
    Lerc1Data(w, h, src[..w * h], MaskOf(seq(MaskSize(w * h), _ => 0), src, ndv, w * h))
  }

  /** Pixel `k` of the filled image holds `src[k]` and is valid exactly when
      `src[k]` is not the no-data value. */
  lemma FilledImagePixel(src: seq<real>, ndv: real, w: nat, h: nat, k: nat)
    requires w * h <= IntMax && w * h <= |src| && k < w * h
    ensures k / 8 < |FilledImage(src, ndv, w, h).maskBits|
    ensures FilledImage(src, ndv, w, h).values[k] == src[k]
    ensures ValidIn(FilledImage(src, ndv, w, h).maskBits, k) <==> src[k] != ndv
  {
    MaskSizeIsCeil(w * h);
    MaskCovers(w * h, k);
    MaskOfValid(seq(MaskSize(w * h), _ => 0), src, ndv, w * h, k);
  }

  /** `Lerc1ImgFill`: resizes the image to `w` by `h` and copies the first
      `w * h` source values into it in row-major order, marking each pixel
      valid exactly when the value is not the no-data value. `src` holds the
      source values already converted to `float`. */
  method Lerc1ImgFill(zImg: Lerc1Image, src: seq<real>, ndv: real, w: nat, h: nat)
    requires w * h <= IntMax && w * h <= |src|
    modifies zImg, zImg.mask
    ensures zImg.Valid() && zImg.width == w && zImg.height == h
    ensures zImg.values == src[..w * h]
    ensures MaskSize(w * h) >= 1 && w * h <= 8 * MaskSize(w * h)
    ensures zImg.mask.bits == MaskOf(Resized(old(zImg.mask.bits), MaskSize(w * h), 0), src, ndv, w * h)
  {
    zImg.Resize(w, h);
    MaskSizeIsCeil(w * h);
    ghost var base := zImg.mask.bits;
    var k: nat := 0;
    for row := 0 to h
      invariant zImg.Valid() && zImg.width == w && zImg.height == h
      invariant k == row * w && k <= w * h
      invariant zImg.values[..k] == src[..k]
      invariant zImg.mask.bits == MaskOf(base, src, ndv, k)
    {
      MulLeft(row + 1, h, w);
      MulSucc(row, w);
      k := FillRow(zImg, src, ndv, row, k, base);
    }
    assert zImg.values == zImg.values[..k];
  }

  /** The inner loop of `Lerc1ImgFill`: the pixels of row `row`, which
      start at index `k0`. */
  method FillRow(zImg: Lerc1Image, src: seq<real>, ndv: real, row: nat, k0: nat, ghost base: seq<bv8>) returns (k: nat)
    requires zImg.Valid() && row < zImg.height
    requires k0 == row * zImg.width && k0 + zImg.width <= |src|
    requires k0 + zImg.width <= 8 * |base| && k0 + zImg.width <= zImg.width * zImg.height
    requires zImg.values[..k0] == src[..k0]
    requires zImg.mask.bits == MaskOf(base, src, ndv, k0)
    modifies zImg`values, zImg.mask`bits
    ensures k == k0 + zImg.width && zImg.Valid()
    ensures zImg.values[..k] == src[..k]
    ensures zImg.mask.bits == MaskOf(base, src, ndv, k)
  {
    k := k0;
    for col := 0 to zImg.width
      invariant zImg.Valid()
      invariant k == k0 + col
      invariant zImg.values[..k] == src[..k]
      invariant zImg.mask.bits == MaskOf(base, src, ndv, k)
    {
      FillPixel(zImg, src, ndv, row, col, k, base);
      k := k + 1;
    }
  }

  /** One pixel of `Lerc1ImgFill`: pixel (`row`, `col`), at row-major
      index `k`, takes `src[k]` and its validity bit. */
  method FillPixel(zImg: Lerc1Image, src: seq<real>, ndv: real, row: nat, col: nat, k: nat, ghost base: seq<bv8>)
    requires zImg.Valid() && row < zImg.height && col < zImg.width
    requires k == row * zImg.width + col && k < zImg.width * zImg.height && k < |src| && k < 8 * |base|
    requires zImg.values[..k] == src[..k]
    requires zImg.mask.bits == MaskOf(base, src, ndv, k)
    modifies zImg`values, zImg.mask`bits
    ensures zImg.Valid()
    ensures zImg.values[..k + 1] == src[..k + 1]
    ensures zImg.mask.bits == MaskOf(base, src, ndv, k + 1)
  {
    var val := src[k];
    zImg.Put(row, col, val);
    zImg.SetMask(row, col, val != ndv);
    assert zImg.values[..k + 1] == src[..k + 1];
  }

  // ---------------------------------------------------------------------
  // Lerc1ImgUFill
  // ---------------------------------------------------------------------

  lemma StoreWidth(store: real -> seq<Byte>, sz: nat, x: real)
    requires forall y :: |store(y)| == sz
    ensures |store(x)| == sz
  {
  }

  /** The bytes written for pixel `k`: the stored value if the pixel is
      valid, the no-data value otherwise, each as `store` lays out a `T`
      (`store(x)` is the `sz` bytes of `static_cast<T>(x)`). */
  function UFillCell(d: Lerc1Data, store: real -> seq<Byte>, ndv: real, sz: nat, k: nat): (c: seq<Byte>)
    requires d.WellFormed() && (forall x :: |store(x)| == sz) && k < d.width * d.height
    ensures |c| == sz
  {
    MaskCovers(d.width * d.height, k);
    if ValidIn(d.maskBits, k) then StoreWidth(store, sz, d.values[k]); store(d.values[k])
    else StoreWidth(store, sz, ndv); store(ndv)
  }

  /** Every pixel's bytes, in row-major order. */
  function UFillCells(d: Lerc1Data, store: real -> seq<Byte>, ndv: real, sz: nat): (cells: seq<seq<Byte>>)
    requires d.WellFormed() && (forall x :: |store(x)| == sz)
    ensures CellsOk(cells, d.width, d.height, sz)
    ensures forall k :: 0 <= k < |cells| ==> cells[k] == UFillCell(d, store, ndv, sz, k)
  {
    seq(d.width * d.height, k requires 0 <= k < d.width * d.height => UFillCell(d, store, ndv, sz, k))
  }

  /** `Lerc1ImgUFill`: row `r` of the image goes to byte `r * stride` of
      the buffer, one `sz`-byte element per pixel. */
  method Lerc1ImgUFill(zImg: Lerc1Image, ndv: real, stride: nat, store: real -> seq<Byte>, sz: nat, buffer: array<Byte>)
    requires zImg.Valid() && sz > 0 && (forall x :: |store(x)| == sz)
    requires Fits(buffer.Length, zImg.width, zImg.height, sz, stride)
    modifies buffer
    ensures buffer[..] == Scatter(old(buffer[..]), UFillCells(zImg.Data(), store, ndv, sz), zImg.width, zImg.height, sz, stride)
  {
    var w, h := zImg.width, zImg.height;
    ghost var cells := UFillCells(zImg.Data(), store, ndv, sz);
    ghost var s0 := buffer[..];
    ScatterStart(s0, cells, w, h, sz, stride);
    for row := 0 to h
      invariant buffer.Length == |s0|
      invariant buffer[..] == PartlyScattered(s0, cells, w, h, sz, stride, row, 0)
    {
      UFillRow(zImg, ndv, stride, store, sz, buffer, row, cells, s0);
      ScatterRowDone(s0, cells, w, h, sz, stride, row);
    }
    ScatterEnd(s0, cells, w, h, sz, stride);
  }

  /** What stays true throughout `Lerc1ImgUFill`: the image, the element
      layout in a buffer of `len` bytes, and the bytes due for each pixel. */
  ghost predicate UFillContext(zImg: Lerc1Image, ndv: real, stride: nat, store: real -> seq<Byte>, sz: nat,
                               len: nat, cells: seq<seq<Byte>>)
    reads zImg, zImg.mask
  {
    zImg.Valid() && sz > 0 && (forall x :: |store(x)| == sz)
    && Fits(len, zImg.width, zImg.height, sz, stride)
    && cells == UFillCells(zImg.Data(), store, ndv, sz)
  }

  /** The inner loop of `Lerc1ImgUFill`: the elements of row `row`, from
      byte `row * stride` on. */
  method UFillRow(zImg: Lerc1Image, ndv: real, stride: nat, store: real -> seq<Byte>, sz: nat, buffer: array<Byte>,
                  row: nat, ghost cells: seq<seq<Byte>>, ghost s0: seq<Byte>)
    requires UFillContext(zImg, ndv, stride, store, sz, |s0|, cells) && row < zImg.height
    requires buffer[..] == PartlyScattered(s0, cells, zImg.width, zImg.height, sz, stride, row, 0)
    modifies buffer
    ensures buffer[..] == PartlyScattered(s0, cells, zImg.width, zImg.height, sz, stride, row, zImg.width)
  {
    var w, h := zImg.width, zImg.height;
    var off: nat := row * stride;
    ghost var rowStart := off;
    for col := 0 to w
      invariant off == rowStart + col * sz
      invariant buffer.Length == |s0|
      invariant buffer[..] == PartlyScattered(s0, cells, w, h, sz, stride, row, col)
    {
      UFillElement(zImg, ndv, stride, store, sz, buffer, row, col, off, cells, s0);
      off := off + sz;
    }
  }

  /** One element of `Lerc1ImgUFill`: pixel (`row`, `col`) goes to byte
      `off` of the buffer. */
  method UFillElement(zImg: Lerc1Image, ndv: real, stride: nat, store: real -> seq<Byte>, sz: nat, buffer: array<Byte>,
                      row: nat, col: nat, off: nat, ghost cells: seq<seq<Byte>>, ghost s0: seq<Byte>)
    requires UFillContext(zImg, ndv, stride, store, sz, |s0|, cells)
    requires row < zImg.height && col < zImg.width
    requires off == row * stride + col * sz
    requires buffer[..] == PartlyScattered(s0, cells, zImg.width, zImg.height, sz, stride, row, col)
    modifies buffer
    ensures buffer[..] == PartlyScattered(s0, cells, zImg.width, zImg.height, sz, stride, row, col + 1)
    ensures off + sz == row * stride + (col + 1) * sz
  {
    MulSucc(col, sz);
    ghost var k: nat := row * zImg.width + col;
    var v := if zImg.IsValid(row, col) then store(zImg.Get(row, col)) else store(ndv);
    UFillCellAt(zImg.Data(), store, ndv, sz, row, col, k);
    assert v == cells[k];
    ScatterStepAt(s0, cells, zImg.width, zImg.height, sz, stride, row, col, off, k);
    PutBytes(buffer, off, v);
  }

  /** The bytes of cell (`row`, `col`), at row-major index `k`. */
  lemma UFillCellAt(d: Lerc1Data, store: real -> seq<Byte>, ndv: real, sz: nat, row: nat, col: nat, k: nat)
    requires d.WellFormed() && (forall x :: |store(x)| == sz)
    requires row < d.height && col < d.width && k == row * d.width + col
    ensures k < d.width * d.height && k / 8 < |d.maskBits|
    ensures k < |UFillCells(d, store, ndv, sz)|
    ensures UFillCells(d, store, ndv, sz)[k] == if ValidIn(d.maskBits, k) then store(d.values[k]) else store(ndv)
  {
    CellBit(d.width, d.height, row, col);
  }

  /** Byte `i` of element `c` of row `r`, which is pixel `k`, lands at byte
      `p == r * stride + c * sz + i` of the output: a byte of the pixel's
      value if it is valid, of the no-data value otherwise. */
  lemma {:induction false} UFillPixel(d: Lerc1Data, store: real -> seq<Byte>, ndv: real, sz: nat, stride: nat, s: seq<Byte>,
                                      r: nat, c: nat, i: nat, k: nat, p: nat)
    requires d.WellFormed() && sz > 0 && (forall x :: |store(x)| == sz)
    requires Fits(|s|, d.width, d.height, sz, stride)
    requires r < d.height && c < d.width && i < sz
    requires k == r * d.width + c && p == r * stride + c * sz + i
    ensures k < d.width * d.height && k / 8 < |d.maskBits| && p < |s|
    ensures |store(ndv)| == sz && |store(d.values[k])| == sz
    ensures Scatter(s, UFillCells(d, store, ndv, sz), d.width, d.height, sz, stride)[p]
         == if ValidIn(d.maskBits, k) then store(d.values[k])[i] else store(ndv)[i]
  {
    var cells := UFillCells(d, store, ndv, sz);
    UFillCellAt(d, store, ndv, sz, r, c, k);
    ScatterCell(s, cells, d.width, d.height, sz, stride, r, c, i, k, p);
  }

  // ---------------------------------------------------------------------
  // lerc_stride_decode and lerc_encode
  // ---------------------------------------------------------------------

  /** The six types the LERC1 wrapper converts to and from. */
  predicate IsLercType(dt: DataType) {
    dt == DtByte || dt == DtUInt16 || dt == DtInt16 || dt == DtUInt32 || dt == DtInt32 || dt == DtFloat32
  }

  /** `store(dt, x)` lays out `static_cast<T>(x)` in the `TypeWidth(dt)`
      bytes of the type `T` that `dt` names. */
  ghost predicate StoresTypes(store: (DataType, real) -> seq<Byte>) {
    forall dt, x :: IsLercType(dt) ==> |store(dt, x)| == TypeWidth(dt)
  }

  /** The line stride a decode uses: the caller's, or a tight row. */
  function DecodeStride(r: Raster, lineStride: SizeT): SizeT {
    if lineStride == 0 then GetTypeSize(r.dt, r.size.x) else lineStride
  }

  /** Whether the tile decodes to an image of the raster's size. */
  predicate DecodesToSize(r: Raster, src: seq<Byte>, read: seq<Byte> -> Option<DecodedTile>) {
    r.size.c == 1 && CheckV1(src) == Accepted && read(src).Some?
    && read(src).value.height == r.size.y && read(src).value.width == r.size.x
  }

  /** `lerc_stride_decode`. `read` stands for `Lerc1Image::read`, which
      either yields an image or fails. The checks run in order, and no
      byte of the buffer is written unless all of them pass. */
  method LercStrideDecode(params: CodecParams, src: seq<Byte>, buffer: array<Byte>,
                          read: seq<Byte> -> Option<DecodedTile>, store: (DataType, real) -> seq<Byte>)
    returns (err: Option<string>)
    requires StoresTypes(store)
    requires DecodesToSize(params.raster, src, read) && IsLercType(params.raster.dt) ==>
      Fits(buffer.Length, params.raster.size.x, params.raster.size.y, TypeWidth(params.raster.dt),
           DecodeStride(params.raster, params.lineStride))
    modifies params`lineStride, buffer
    ensures var r := params.raster;
      && (r.size.c != 1 ==> err == Some("Lerc1 multi-band is not supported"))
      && (r.size.c == 1 && CheckV1(src) != Accepted ==> err == Some("Not a Lerc1 tile"))
      && (r.size.c == 1 && CheckV1(src) == Accepted && read(src).None? ==> err == Some("Error during LERC decompression"))
      && ((r.size.c == 1 && CheckV1(src) == Accepted && read(src).Some? && !DecodesToSize(r, src, read))
          ==> err == Some("Image received has the wrong size"))
      && (DecodesToSize(r, src, read) ==> err == None)
    ensures params.lineStride ==
      if params.raster.size.c == 1 && CheckV1(src) == Accepted then DecodeStride(params.raster, old(params.lineStride))
      else old(params.lineStride)
    ensures var r := params.raster;
      if DecodesToSize(r, src, read) && IsLercType(r.dt) then
        var d := read(src).value;
        && (forall x :: |store(r.dt, x)| == TypeWidth(r.dt))
        && buffer[..] == Scatter(old(buffer[..]), UFillCells(d, x => store(r.dt, x), r.ndv, TypeWidth(r.dt)),
                                 d.width, d.height, TypeWidth(r.dt), params.lineStride)
      else buffer[..] == old(buffer[..])
  {
    var rsize := params.raster.size;
    if rsize.c != 1 {
      return Some("Lerc1 multi-band is not supported");
    }
    if CheckV1(src) != Accepted {
      return Some("Not a Lerc1 tile");
    }
    if params.lineStride == 0 {
      params.lineStride := GetTypeSize(params.raster.dt, rsize.x);
    }
    err := FillFromTile(params.raster, params.lineStride, src, buffer, read, store);
  }

  /** The part of `lerc_stride_decode` after the checks on the raw tile:
      read it into a `Lerc1Image`, check its size and copy it out at
      `stride` bytes per row. */
  method FillFromTile(r: Raster, stride: SizeT, src: seq<Byte>, buffer: array<Byte>,
                      read: seq<Byte> -> Option<DecodedTile>, store: (DataType, real) -> seq<Byte>)
    returns (err: Option<string>)
    requires StoresTypes(store)
    requires read(src).Some? && read(src).value.height == r.size.y && read(src).value.width == r.size.x && IsLercType(r.dt) ==>
      Fits(buffer.Length, r.size.x, r.size.y, TypeWidth(r.dt), stride)
    modifies buffer
    ensures read(src).None? ==> err == Some("Error during LERC decompression")
    ensures read(src).Some? && (read(src).value.height != r.size.y || read(src).value.width != r.size.x) ==>
      err == Some("Image received has the wrong size")
    ensures read(src).Some? && read(src).value.height == r.size.y && read(src).value.width == r.size.x ==> err == None
    ensures
      if read(src).Some? && read(src).value.height == r.size.y && read(src).value.width == r.size.x && IsLercType(r.dt) then
        var d := read(src).value;
        && (forall x :: |store(r.dt, x)| == TypeWidth(r.dt))
        && buffer[..] == Scatter(old(buffer[..]), UFillCells(d, x => store(r.dt, x), r.ndv, TypeWidth(r.dt)),
                                 d.width, d.height, TypeWidth(r.dt), stride)
      else buffer[..] == old(buffer[..])
  {
    var zImg := new Lerc1Image();
    var decoded := read(src);
    if decoded.None? {
      return Some("Error during LERC decompression");
    }
    zImg.Assign(decoded.value);
    if zImg.height != r.size.y || zImg.width != r.size.x {
      return Some("Image received has the wrong size");
    }
    var dt := r.dt;
    if IsLercType(dt) {
      Lerc1ImgUFill(zImg, r.ndv, stride, x => store(dt, x), TypeWidth(dt), buffer);
    }
    return None;
  }

  /** `lerc_encode`. `write` stands for `Lerc1Image::write` at the given
      precision: it yields the encoded bytes or fails. `src` holds the
      source values already converted to `float`. */
  method LercEncode(params: LercParams, src: seq<real>, dst: StorageManager,
                    write: (Lerc1Data, real) -> Option<seq<Byte>>)
    returns (err: Option<string>)
    requires var r := params.codec.raster;
      IsLercType(r.dt) ==> r.size.x * r.size.y <= IntMax && r.size.x * r.size.y <= |src|
    requires dst.size <= |dst.buffer|
    modifies dst
    ensures var r := params.codec.raster;
      if !IsLercType(r.dt) then
        && err == Some("Unsupported data type for LERC1 encode")
        && dst.buffer == old(dst.buffer) && dst.size == old(dst.size)
      else
        match write(FilledImage(src, r.ndv, r.size.x, r.size.y), params.prec)
        case None =>
          err == Some("Error during LERC1 compression")
          && dst.buffer == old(dst.buffer) && dst.size == old(dst.size)
        case Some(out) =>
          && dst.buffer == Overwrite(old(dst.buffer), 0, out[..Min(|out|, |old(dst.buffer)|)])
          && if |out| > old(dst.size) then
               err == Some("Output buffer overflow") && dst.size == old(dst.size)
             else
               err == None && dst.size == |out|
  {
    var r := params.codec.raster;
    if !IsLercType(r.dt) {
      return Some("Unsupported data type for LERC1 encode");
    }
    var zImg := new Lerc1Image();
    var w, h := r.size.x, r.size.y;
    Lerc1ImgFill(zImg, src, r.ndv, w, h);
    assert Resized([], MaskSize(w * h), 0 as bv8) == seq(MaskSize(w * h), _ => 0);
    assert zImg.Data() == FilledImage(src, r.ndv, w, h);
    var encoded := write(zImg.Data(), params.prec);
    if encoded.None? {
      return Some("Error during LERC1 compression");
    }
    var out := encoded.value;
    dst.buffer := Overwrite(dst.buffer, 0, out[..Min(|out|, |dst.buffer|)]);
    var pd := |out|;
    if pd > dst.size {
      return Some("Output buffer overflow");
    }
    dst.size := pd;
    return None;
  }
}
