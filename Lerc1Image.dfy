/** The in-memory LERC1 raster: a row-major array of values and a bit mask
    with one validity bit per pixel, stored most significant bit first. */
module Lerc1Image {
  import opened Common

  // ---------------------------------------------------------------------
  // Mask bytes and bit addressing
  // ---------------------------------------------------------------------

  /** Bytes of a mask of `n` pixels: `1 + (n - 1) / 8` in C `int` arithmetic. */
  function MaskSize(n: int): int {
    1 + CDiv(n - 1, 8)
  }

  /** The mask size is the number of bytes needed for `n` bits, and one
      byte for an empty mask. */
  lemma {:induction false} MaskSizeIsCeil(n: nat)
    ensures n == 0 ==> MaskSize(n) == 1
    ensures n >= 1 ==> 8 * (MaskSize(n) - 1) < n <= 8 * MaskSize(n)
    ensures MaskSize(n) >= 1
  {
    if n >= 1 {
      var q := (n - 1) / 8;
      assert n - 1 == 8 * q + (n - 1) % 8;
    }
  }

  /** Every pixel of a mask of `n` pixels lives in one of its bytes. */
  lemma MaskCovers(n: nat, k: nat)
    requires k < n
    ensures k / 8 < MaskSize(n)
  {
    MaskSizeIsCeil(n);
    DivBounds(k, 8, MaskSize(n));
  }

  /** The bit of pixel `k` inside byte `k >> 3`: `0x80 >> (k & 7)`. */
  function Bit(k: nat): bv8 {
    0x80 >> (k % 8)
  }

  /** `IsValid`: whether the bit of pixel `k` is set. */
  predicate ValidIn(bits: seq<bv8>, k: nat)
    requires k / 8 < |bits|
  {
    bits[k / 8] & Bit(k) != 0
  }

  /** `Set(k, v)`: `SetValid` ors the bit in, `SetInvalid` ands it out. */
  function WithBit(bits: seq<bv8>, k: nat, v: bool): (r: seq<bv8>)
    requires k / 8 < |bits|
    ensures |r| == |bits|
  {
    bits[k / 8 := if v then bits[k / 8] | Bit(k) else bits[k / 8] & !Bit(k)]
  }

  /** The eight bit masks pick eight different bits of a byte. */
  lemma BitsOfByte(b: bv8, i: nat, j: nat, v: bool)
    requires i < 8 && j < 8
    ensures var b' := if v then b | (0x80 >> i) else b & !(0x80 >> i);
      (b' & (0x80 >> j) != 0) == if i == j then v else b & (0x80 >> j) != 0
  {
  }

  /** After `Set(k, v)` pixel `k` reads `v` and every other pixel is as it was. */
  lemma {:induction false} WithBitEffect(bits: seq<bv8>, k: nat, v: bool, j: nat)
    requires k / 8 < |bits| && j / 8 < |bits|
    ensures ValidIn(WithBit(bits, k, v), j) == if j == k then v else ValidIn(bits, j)
  {
    if j / 8 == k / 8 {
      BitsOfByte(bits[k / 8], k % 8, j % 8, v);
      if j % 8 == k % 8 {
        DivModUnique(j, 8, k / 8, k % 8);
      }
    }
  }

  /** Validity bit of every pixel of an all-zero mask is clear. */
  lemma ZeroMaskInvalid(size: nat, j: nat)
    requires j / 8 < size
    ensures !ValidIn(seq(size, _ => 0 as bv8), j)
  {
  }

  // ---------------------------------------------------------------------
  // BitMaskV1
  // ---------------------------------------------------------------------

  /** `BitMaskV1`: a byte vector holding one bit per pixel. */
  class BitMaskV1 {
    var nRows: int
    var nCols: int
    var bits: seq<bv8>

    /** The vector holds `size()` bytes for dimensions whose pixel count
        fits a C `int`. */
    predicate Valid()
      reads this
    {
      0 <= nRows && 0 <= nCols && nCols * nRows <= IntMax && |bits| == Size()
    }

    constructor()
      ensures nRows == 0 && nCols == 0 && bits == []
    {
      nRows, nCols, bits := 0, 0, [];
    }

    /** `size()`: the mask bytes for the current dimensions. */
    function Size(): int
      reads this
    {
      MaskSize(nCols * nRows)
    }

    /** `IsValid(k)`: `bits[k >> 3] & Bit(k) != 0`. */
    function IsValid(k: nat): bool
      reads this
      requires k / 8 < |bits|
    {
      ValidIn(bits, k)
    }

    method SetValid(k: nat)
      requires k / 8 < |bits|
      modifies this`bits
      ensures bits == old(bits)[k / 8 := old(bits)[k / 8] | Bit(k)]
    {
      bits := bits[k / 8 := bits[k / 8] | Bit(k)];
    }

    method SetInvalid(k: nat)
      requires k / 8 < |bits|
      modifies this`bits
      ensures bits == old(bits)[k / 8 := old(bits)[k / 8] & !Bit(k)]
    {
      bits := bits[k / 8 := bits[k / 8] & !Bit(k)];
    }

    /** `Set(k, v)`: pixel `k` becomes `v`; see `WithBitEffect`. */
    method Set(k: nat, v: bool)
      requires k / 8 < |bits|
      modifies this`bits
      ensures bits == WithBit(old(bits), k, v)
      ensures Valid() <==> old(Valid())
    {
      if v {
        SetValid(k);
      } else {
        SetInvalid(k);
      }
    }

    /** `resize(nCols, nRows)`: stores the dimensions and resizes the byte
        vector to `size()`, keeping its prefix and zero-filling the rest. */
    method Resize(cols: int, rows: int)
      requires 0 <= cols && 0 <= rows && cols * rows <= IntMax
      modifies this
      ensures nCols == cols && nRows == rows
      ensures bits == Resized(old(bits), MaskSize(cols * rows), 0)
      ensures Valid()
    {
      nRows := rows;
      nCols := cols;
      MaskSizeIsCeil(cols * rows);
      bits := Resized(bits, Size(), 0);
    }
  }

  // ---------------------------------------------------------------------
  // Lerc1Image
  // ---------------------------------------------------------------------

  /** A LERC1 image as plain values: what `Lerc1Image::read` produces and
      `Lerc1Image::write` consumes. */
  datatype Lerc1Data = Lerc1Data(width: int, height: int, values: seq<real>, maskBits: seq<bv8>)
  {
    /** Dimensions, values and mask agree, as after `resize`. */
    predicate WellFormed() {
      0 <= width && 0 <= height && width * height <= IntMax
      && |values| == width * height && |maskBits| == MaskSize(width * height)
    }
  }

  /** A decoded tile always has consistent dimensions. */
  type DecodedTile = d: Lerc1Data | d.WellFormed() witness Lerc1Data(0, 0, [], [0])

  class Lerc1Image {
    var width: int
    var height: int
    var values: seq<real>
    const mask: BitMaskV1

    /** The value vector has `getSize()` elements and the mask has the
        image's dimensions. */
    predicate Valid()
      reads this, mask
    {
      0 <= width && 0 <= height && width * height <= IntMax
      && |values| == width * height
      && mask.Valid() && mask.nCols == width && mask.nRows == height
    }

    constructor()
      ensures width == 0 && height == 0 && values == []
      ensures fresh(mask) && mask.nRows == 0 && mask.nCols == 0 && mask.bits == []
    {
      width, height, values := 0, 0, [];
      mask := new BitMaskV1();
    }

    /** `getSize()`. */
    function GetSize(): int
      reads this
    {
      width * height
    }

    /** The image as values. */
    function Data(): (d: Lerc1Data)
      reads this, mask
      ensures Valid() ==> d.WellFormed()
    {
      Lerc1Data(width, height, values, mask.bits)
    }

    /** `setsize(w, h)`: sets the dimensions, resizes the values to `w * h`
        (zero-filling) and reports success; the mask is not touched. */
    method SetSize(w: int, h: int) returns (ok: bool)
      requires 0 <= w && 0 <= h && w * h <= IntMax
      modifies this`width, this`height, this`values
      ensures ok
      ensures width == w && height == h && GetSize() == w * h
      ensures values == Resized(old(values), w * h, 0.0)
    {
      width := w;
      height := h;
      values := Resized(values, GetSize(), 0.0);
      ok := true;
    }

    /** `resize(w, h)`: `setsize` and then the mask to the same dimensions. */
    method Resize(w: int, h: int)
      requires 0 <= w && 0 <= h && w * h <= IntMax
      modifies this, mask
      ensures width == w && height == h && GetSize() == w * h
      ensures values == Resized(old(values), w * h, 0.0)
      ensures mask.bits == Resized(old(mask.bits), MaskSize(w * h), 0)
      ensures Valid()
    {
      var _ := SetSize(w, h);
      mask.Resize(width, height);
    }

    /** The const `operator()(row, col)`: `values[row * width + col]`. */
    function Get(row: nat, col: nat): (v: real)
      reads this
      requires row < height && col < width && |values| == width * height
    {
      RowMajorInRange(row, col, width, height);
      values[row * width + col]
    }

    /** Assignment through the non-const `operator()(row, col)`. */
    method Put(row: nat, col: nat, v: real)
      requires row < height && col < width && |values| == width * height
      modifies this`values
      ensures |values| == |old(values)| && row * width + col < |values|
      ensures values == old(values)[row * width + col := v]
    {
      RowMajorInRange(row, col, width, height);
      values := values[row * width + col := v];
    }

    /** `IsValid(row, col)`: the mask bit at the same row-major index. */
    function IsValid(row: nat, col: nat): bool
      reads this, mask
      requires Valid() && row < height && col < width
    {
      RowMajorInRange(row, col, width, height);
      MaskCovers(width * height, row * width + col);
      mask.IsValid(row * width + col)
    }

    /** `SetMask(row, col, v)`: `mask.Set` at the row-major index. */
    method SetMask(row: nat, col: nat, v: bool)
      requires Valid() && row < height && col < width
      modifies mask`bits
      ensures row * width + col < width * height
      ensures (row * width + col) / 8 < |old(mask.bits)|
      ensures mask.bits == WithBit(old(mask.bits), row * width + col, v)
      ensures Valid()
    {
      RowMajorInRange(row, col, width, height);
      MaskCovers(width * height, row * width + col);
      mask.Set(row * width + col, v);
    }

    /** The state `read` leaves behind when it succeeds. */
    method Assign(d: DecodedTile)
      modifies this, mask
      ensures Data() == d && Valid()
    {
      width, height, values := d.width, d.height, d.values;
      mask.nCols, mask.nRows, mask.bits := d.width, d.height, d.maskBits;
    }
  }

  /** The bit of cell (`row`, `col`) of a `w` by `h` image lies inside its mask. */
  lemma CellBit(w: nat, h: nat, row: nat, col: nat)
    requires row < h && col < w
    ensures row * w + col < w * h && (row * w + col) / 8 < MaskSize(w * h)
  {
    RowMajorInRange(row, col, w, h);
    MaskCovers(w * h, row * w + col);
  }

  /** Pixel (`r2`, `c2`), at row-major index `j`, after `SetMask(row, col, v)`
      wrote index `k`: `v` at the cell written and unchanged everywhere else. */
  lemma {:induction false} SetMaskEffect(bits: seq<bv8>, w: nat, h: nat, row: nat, col: nat, v: bool, r2: nat, c2: nat, k: nat, j: nat)
    requires |bits| == MaskSize(w * h)
    requires row < h && col < w && r2 < h && c2 < w
    requires k == row * w + col && j == r2 * w + c2
    ensures k < w * h && j < w * h && k / 8 < |bits| && j / 8 < |bits|
    ensures ValidIn(WithBit(bits, k, v), j) == if r2 == row && c2 == col then v else ValidIn(bits, j)
  {
    CellBit(w, h, row, col);
    CellBit(w, h, r2, c2);
    RowMajorInjective(row, col, r2, c2, w);
    WithBitEffect(bits, k, v, j);
  }
}
