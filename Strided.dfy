/** The strided layout every decoder writes: `h` rows of `w` cells of `sz`
    bytes each, row `r` starting at byte `r * stride` of the caller's
    buffer. A byte that belongs to no cell keeps its old value. */
module Strided {
  import opened Common

  /** The rows fit: no row runs into the next and the last row ends inside
      a buffer of `len` bytes. */
  predicate Fits(len: nat, w: nat, h: nat, sz: nat, stride: nat) {
    w * sz <= stride && (h > 0 ==> (h - 1) * stride + w * sz <= len)
  }

  /** `cells` holds the `w * h` cell contents in row-major order. */
  predicate CellsOk(cells: seq<seq<Byte>>, w: nat, h: nat, sz: nat) {
    |cells| == w * h && forall k :: 0 <= k < |cells| ==> |cells[k]| == sz
  }

  /** Writes `b` over the bytes at `off ..`. */
  function Overwrite(s: seq<Byte>, off: nat, b: seq<Byte>): (r: seq<Byte>)
    requires off + |b| <= |s|
    ensures |r| == |s|
    ensures forall p :: 0 <= p < |s| ==> r[p] == if off <= p < off + |b| then b[p - off] else s[p]
  {
    s[..off] + b + s[off + |b|..]
  }

  /** The column of byte `q` of a row, and the byte within that cell. */
  lemma CellOfOffset(q: nat, sz: nat, w: nat)
    requires sz > 0 && q < w * sz
    ensures q / sz < w
  {
    DivBounds(q, sz, w);
  }

  /** Offset `r * stride + q` is byte `q` of row `r`. */
  lemma RowOfOffset(r: nat, q: nat, stride: nat)
    requires q < stride
    ensures (r * stride + q) / stride == r && (r * stride + q) % stride == q
  {
    DivModUnique(r * stride + q, stride, r, q);
  }

  /** The value of byte `p` once every cell is written. */
  function ScatteredByte(s: seq<Byte>, cells: seq<seq<Byte>>, w: nat, h: nat, sz: nat, stride: nat, p: nat): Byte
    requires p < |s| && sz > 0 && CellsOk(cells, w, h, sz)
  {
    if stride == 0 then s[p]
    else
      var r, q := p / stride, p % stride;
      if r < h && q < w * sz then
        CellOfOffset(q, sz, w);
        RowMajorInRange(r, q / sz, w, h);
        cells[r * w + q / sz][q % sz]
      else s[p]
  }

  /** Whether byte `p` has been visited once rows before `row` and the first
      `col` cells of row `row` are written (gap bytes of earlier rows count
      as visited: visiting them changes nothing). */
  predicate Visited(p: nat, stride: nat, sz: nat, row: nat, col: nat) {
    stride > 0 && (p / stride < row || (p / stride == row && p % stride < col * sz))
  }

  /** The buffer part way through the writes. */
  function PartlyScattered(s: seq<Byte>, cells: seq<seq<Byte>>, w: nat, h: nat, sz: nat, stride: nat, row: nat, col: nat): (r: seq<Byte>)
    requires sz > 0 && CellsOk(cells, w, h, sz)
    ensures |r| == |s|
  {
    seq(|s|, p requires 0 <= p < |s| =>
      if Visited(p, stride, sz, row, col) then ScatteredByte(s, cells, w, h, sz, stride, p) else s[p])
  }

  /** The buffer after every cell is written. */
  function Scatter(s: seq<Byte>, cells: seq<seq<Byte>>, w: nat, h: nat, sz: nat, stride: nat): (r: seq<Byte>)
    requires sz > 0 && CellsOk(cells, w, h, sz)
    ensures |r| == |s|
  {
    seq(|s|, p requires 0 <= p < |s| => ScatteredByte(s, cells, w, h, sz, stride, p))
  }

  lemma ScatterStart(s: seq<Byte>, cells: seq<seq<Byte>>, w: nat, h: nat, sz: nat, stride: nat)
    requires sz > 0 && CellsOk(cells, w, h, sz)
    ensures PartlyScattered(s, cells, w, h, sz, stride, 0, 0) == s
  {
  }

  /** Writing cell (`row`, `col`) at `row * stride + col * sz` advances the
      partial state by one cell. */
  lemma ScatterStep(s: seq<Byte>, cells: seq<seq<Byte>>, w: nat, h: nat, sz: nat, stride: nat, row: nat, col: nat)
    requires sz > 0 && CellsOk(cells, w, h, sz) && Fits(|s|, w, h, sz, stride)
    requires row < h && col < w
    ensures row * stride + col * sz + sz <= |s|
    ensures Overwrite(PartlyScattered(s, cells, w, h, sz, stride, row, col), row * stride + col * sz, cells[row * w + col])
         == PartlyScattered(s, cells, w, h, sz, stride, row, col + 1)
  {
    var off := row * stride + col * sz;
    MulLeft(col + 1, w, sz);
    MulLeft(row, h - 1, stride);
    RowMajorInRange(row, col, w, h);
    var before := PartlyScattered(s, cells, w, h, sz, stride, row, col);
    var after := PartlyScattered(s, cells, w, h, sz, stride, row, col + 1);
    var o := Overwrite(before, off, cells[row * w + col]);
    forall p | 0 <= p < |s| ensures o[p] == after[p] {
      if off <= p < off + sz {
        StepInsideCell(s, cells, w, h, sz, stride, row, col, p);
      } else {
        StepOutsideCell(stride, sz, row, col, p);
      }
    }
  }

  /** `ScatterStep` for a cell whose offset `off` and index `k` the caller
      keeps track of. */
  lemma ScatterStepAt(s: seq<Byte>, cells: seq<seq<Byte>>, w: nat, h: nat, sz: nat, stride: nat, row: nat, col: nat, off: nat, k: nat)
    requires sz > 0 && CellsOk(cells, w, h, sz) && Fits(|s|, w, h, sz, stride)
    requires row < h && col < w && off == row * stride + col * sz && k == row * w + col
    ensures off + sz <= |s| && k < |cells|
    ensures Overwrite(PartlyScattered(s, cells, w, h, sz, stride, row, col), off, cells[k])
         == PartlyScattered(s, cells, w, h, sz, stride, row, col + 1)
  {
    RowMajorInRange(row, col, w, h);
    ScatterStep(s, cells, w, h, sz, stride, row, col);
  }

  lemma StepInsideCell(s: seq<Byte>, cells: seq<seq<Byte>>, w: nat, h: nat, sz: nat, stride: nat, row: nat, col: nat, p: nat)
    requires sz > 0 && CellsOk(cells, w, h, sz) && Fits(|s|, w, h, sz, stride)
    requires row < h && col < w
    requires row * stride + col * sz <= p < row * stride + col * sz + sz && p < |s|
    ensures Visited(p, stride, sz, row, col + 1) && !Visited(p, stride, sz, row, col)
    ensures row * w + col < |cells|
    ensures ScatteredByte(s, cells, w, h, sz, stride, p) == cells[row * w + col][p - (row * stride + col * sz)]
  {
    CellPosition(row, col, p - (row * stride + col * sz), w, sz, stride);
    RowMajorInRange(row, col, w, h);
  }

  /** Where byte `i` of cell (`row`, `col`) sits in the row and in the cell. */
  lemma CellPosition(row: nat, col: nat, i: nat, w: nat, sz: nat, stride: nat)
    requires col < w && i < sz && w * sz <= stride
    ensures col * sz + i < w * sz && col * sz + i < stride
    ensures (row * stride + col * sz + i) / stride == row
    ensures (row * stride + col * sz + i) % stride == col * sz + i
    ensures (col * sz + i) / sz == col && (col * sz + i) % sz == i
    ensures (col * sz + i) < (col + 1) * sz
  {
    MulLeft(col + 1, w, sz);
    RowOfOffset(row, col * sz + i, stride);
    DivModUnique(col * sz + i, sz, col, i);
  }

  lemma StepOutsideCell(stride: nat, sz: nat, row: nat, col: nat, p: nat)
    requires !(row * stride + col * sz <= p < row * stride + col * sz + sz)
    ensures Visited(p, stride, sz, row, col + 1) == Visited(p, stride, sz, row, col)
  {
    if stride > 0 {
      var r, q := p / stride, p % stride;
      assert p == r * stride + q;
      if r == row && col * sz <= q < (col + 1) * sz {
        assert col * sz <= q < col * sz + sz;
      }
    }
  }

  /** Once every cell of `row` is written the gap bytes after them count as
      visited too. */
  lemma ScatterRowDone(s: seq<Byte>, cells: seq<seq<Byte>>, w: nat, h: nat, sz: nat, stride: nat, row: nat)
    requires sz > 0 && CellsOk(cells, w, h, sz) && Fits(|s|, w, h, sz, stride)
    ensures PartlyScattered(s, cells, w, h, sz, stride, row, w) == PartlyScattered(s, cells, w, h, sz, stride, row + 1, 0)
  {
    var a := PartlyScattered(s, cells, w, h, sz, stride, row, w);
    var b := PartlyScattered(s, cells, w, h, sz, stride, row + 1, 0);
    forall p | 0 <= p < |s| ensures a[p] == b[p] {
      if stride > 0 && p / stride == row && p % stride >= w * sz {
        assert b[p] == s[p];
      }
    }
  }

  lemma ScatterEnd(s: seq<Byte>, cells: seq<seq<Byte>>, w: nat, h: nat, sz: nat, stride: nat)
    requires sz > 0 && CellsOk(cells, w, h, sz)
    ensures PartlyScattered(s, cells, w, h, sz, stride, h, 0) == Scatter(s, cells, w, h, sz, stride)
  {
    var a := PartlyScattered(s, cells, w, h, sz, stride, h, 0);
    var b := Scatter(s, cells, w, h, sz, stride);
    forall p | 0 <= p < |s| ensures a[p] == b[p] {
      if stride > 0 && p / stride >= h {
        assert b[p] == s[p];
      }
    }
  }

  /** Byte `i` of cell (`r`, `c`), the cell at row-major index `k`, lands
      at `p == r * stride + c * sz + i`. */
  lemma {:induction false} ScatterCell(s: seq<Byte>, cells: seq<seq<Byte>>, w: nat, h: nat, sz: nat, stride: nat,
                                       r: nat, c: nat, i: nat, k: nat, p: nat)
    requires sz > 0 && CellsOk(cells, w, h, sz) && Fits(|s|, w, h, sz, stride)
    requires r < h && c < w && i < sz
    requires k == r * w + c && p == r * stride + c * sz + i
    ensures k < |cells| && p < |s|
    ensures Scatter(s, cells, w, h, sz, stride)[p] == cells[k][i]
  {
    RowMajorInRange(r, c, w, h);
    MulLeft(r, h - 1, stride);
    CellPosition(r, c, i, w, sz, stride);
    var q: nat := c * sz + i;
    assert p / stride == r && p % stride == q;
    assert q / sz == c && q % sz == i;
  }

  /** The bytes of a row after its `w * sz` cell bytes are not touched. */
  lemma {:induction false} ScatterGap(s: seq<Byte>, cells: seq<seq<Byte>>, w: nat, h: nat, sz: nat, stride: nat, r: nat, j: nat)
    requires sz > 0 && CellsOk(cells, w, h, sz)
    requires w * sz <= j < stride && r * stride + j < |s|
    ensures Scatter(s, cells, w, h, sz, stride)[r * stride + j] == s[r * stride + j]
  {
    RowOfOffset(r, j, stride);
  }

  /** Nothing at or after row `h` is touched. */
  lemma {:induction false} ScatterBeyond(s: seq<Byte>, cells: seq<seq<Byte>>, w: nat, h: nat, sz: nat, stride: nat, p: nat)
    requires sz > 0 && CellsOk(cells, w, h, sz)
    requires h * stride <= p < |s|
    ensures Scatter(s, cells, w, h, sz, stride)[p] == s[p]
  {
    if stride > 0 {
      DivBounds(p, stride, h);
    }
  }

  /** Writes bytes `b` at offset `off` of the buffer. */
  method PutBytes(buffer: array<Byte>, off: nat, b: seq<Byte>)
    requires off + |b| <= buffer.Length
    modifies buffer
    ensures buffer[..] == Overwrite(old(buffer[..]), off, b)
  {
    for i := 0 to |b|
      invariant buffer[..] == Overwrite(old(buffer[..]), off, b[..i])
    {
      buffer[off + i] := b[i];
      assert b[..i + 1] == b[..i] + [b[i]];
    }
    assert b[..|b|] == b;
  }
}
