/** The JPEG side of the codec: the in-memory source cursor libjpeg reads
    through, the handler for the Zen APP3 marker segment that carries the
    zero mask, the warning filter, the zero-pixel scan that builds the
    mask on encode, and the glue of `jpeg8_stride_decode` and
    `jpeg8_encode` around the opaque libjpeg steps. */
module Jpeg8 {
  import opened Common
  import opened IcdCodecs
  import opened Strided

  const Two31: int := 0x8000_0000

  /** A `size_t` or `unsigned` value converted to a 32-bit `int`, keeping
      the low 32 bits as two's complement does. */
  function CInt(x: nat): (r: int)
    ensures -Two31 <= r < Two31 && r <= x
    ensures (r - x) % Two32 == 0
    ensures x < Two31 ==> r == x
  {
    var t := x % Two32;
    var q := x / Two32;
    assert x == Two32 * q + t;
    var r := if t < Two31 then t else t - Two32;
    DivModUnique(r - x, Two32, if t < Two31 then -q else -q - 1, 0);
    r
  }

  /** A signed value converted to `size_t`: modulo 2^64. */
  function ToSizeT(x: int): (r: SizeT)
    requires -Two64 < x < Two64
    ensures x >= 0 ==> r == x
    ensures x < 0 ==> r == Two64 + x
  {
    if x >= 0 then x else Two64 + x
  }

  /** How many times `for (int i = 0; i < n; i++)` runs. */
  function Trips(n: int): nat {
    if n < 0 then 0 else n
  }

  // ---------------------------------------------------------------------
  // The source cursor and skip_input_data_dec
  // ---------------------------------------------------------------------

  /** The cursor of a `jpeg_source_mgr`: `next_input_byte` as an offset
      into the in-memory JPEG, and `bytes_in_buffer`. */
  datatype Cursor = Cursor(next: int, remaining: int)

  /** The cursor points into `data` and counts exactly the bytes after it. */
  predicate CursorOk(data: seq<Byte>, c: Cursor) {
    0 <= c.next && 0 <= c.remaining && c.next + c.remaining == |data|
  }

  /** The source manager the decoder sets up over the whole input. */
  class SourceManager {
    const data: seq<Byte>
    var next: int
    var remaining: int

    /** An object in memory is smaller than 2^63 bytes. */
    predicate Valid()
      reads this
    {
      CursorOk(data, Cursor(next, remaining)) && |data| < Two63
    }

    constructor (d: seq<Byte>)
      requires |d| < Two63
      ensures data == d && next == 0 && remaining == |d| && Valid()
    {
      data, next, remaining := d, 0, |d|;
    }

    function Position(): Cursor
      reads this
    {
      Cursor(next, remaining)
    }
  }

  /** The bytes `skip_input_data_dec(l)` consumes: `l`, clamped to what is
      left; a negative `long` converts to a huge `size_t`, so it consumes
      everything. */
  function SkipAmount(l: int, remaining: nat): (k: nat)
    requires -Two63 <= l < Two63 && remaining < Two63
    ensures k <= remaining
    ensures l >= 0 ==> k == Min(l, remaining)
    ensures l < 0 ==> k == remaining
  {
    if ToSizeT(l) > remaining then remaining else l
  }

  /** `skip_input_data_dec`: advances the cursor by the clamped amount. */
  method SkipInputData(src: SourceManager, l: int)
    requires src.Valid() && -Two63 <= l < Two63
    modifies src`next, src`remaining
    ensures src.Valid()
    ensures src.next == old(src.next) + SkipAmount(l, old(src.remaining))
    ensures src.remaining == old(src.remaining) - SkipAmount(l, old(src.remaining))
  {
    var k := l;
    if ToSizeT(k) > src.remaining {
      k := src.remaining;
    }
    src.remaining := src.remaining - k;
    src.next := src.next + k;
  }

  // ---------------------------------------------------------------------
  // zenChunkHandler
  // ---------------------------------------------------------------------

  /** `"Zen"` with its terminating NUL: the `CHUNK_NAME_SIZE` (4) bytes of
      the signature. */
  const ZenName: seq<Byte> := [0x5A, 0x65, 0x6E, 0]

  /** How `strcmp(p, "Zen")` ends: equal, different, or reading past the
      end of the input while the bytes still agree. */
  datatype Compare = Match | Mismatch | OverRead

  /** `strcmp` from byte `i` of the signature on: it stops at the first
      byte that differs, or after the NUL. */
  function CompareZenFrom(data: seq<Byte>, p: nat, i: nat): (r: Compare)
    requires i <= 4 && (i > 0 ==> p + i <= |data|)
    ensures r == Match <==> p + 4 <= |data| && data[p + i..p + 4] == ZenName[i..]
    ensures r == OverRead <==> p + 4 > |data| && forall j :: p + i <= j < |data| ==> data[j] == ZenName[j - p]
    decreases 4 - i
  {
    if i == 4 then Match
    else if p + i >= |data| then OverRead
    else if data[p + i] != ZenName[i] then Mismatch
    else CompareZenFrom(data, p, i + 1)
  }

  function CompareZen(data: seq<Byte>, p: nat): (r: Compare)
    ensures r == Match <==> p + 4 <= |data| && data[p..p + 4] == ZenName
    ensures r == OverRead <==> p + 4 > |data| && forall j :: p <= j < |data| ==> data[j] == ZenName[j - p]
  {
    CompareZenFrom(data, p, 0)
  }

  /** The handle's `zenChunk`: a null pointer or an offset into the input,
      and a size. */
  datatype ChunkRef = ChunkRef(start: Option<int>, size: SizeT)

  const NoChunk: ChunkRef := ChunkRef(None, 0)

  /** How a marker handler returns: normally, through `ERREXIT` with
      `JERR_CANT_SUSPEND`, or after reading bytes beyond the input. */
  datatype HandlerExit = Handled | CantSuspend | ReadsPastEnd

  /** A handler's outcome: how it returned, the cursor, the handle's chunk. */
  datatype App3Effect = App3Effect(exit: HandlerExit, cursor: Cursor, zen: ChunkRef)

  /** The declared segment length is refused: fewer than two bytes to read
      it from, a length below its own two bytes, or more than is left. */
  predicate LengthRefused(data: seq<Byte>, c: Cursor)
    requires CursorOk(data, c)
  {
    c.remaining < 2 || ReadBeU16(data, c.next) < 2 || ReadBeU16(data, c.next) > c.remaining
  }

  /** `zenChunkHandler`, entered with the cursor on the two length bytes
      of an APP3 segment (section B.1.1.4 of ITU-T T.81: the length counts
      itself). A segment whose payload starts with `"Zen\0"` is recorded in
      the handle as the bytes after the signature; any other segment is
      skipped. */
  function App3(data: seq<Byte>, c: Cursor, zen: ChunkRef): (e: App3Effect)
    requires CursorOk(data, c) && |data| < Two63
    ensures c.remaining < 2 ==> e == App3Effect(CantSuspend, c, zen)
    ensures e.exit == CantSuspend <==> LengthRefused(data, c)
    ensures e.exit == ReadsPastEnd <==> !LengthRefused(data, c) && CompareZen(data, c.next + 2) == OverRead
    ensures e.exit == Handled ==> CursorOk(data, e.cursor) && e.cursor.next == c.next + ReadBeU16(data, c.next)
    ensures e.exit == Handled ==>
      e.zen == if CompareZen(data, c.next + 2) == Match
               then ChunkRef(Some(c.next + 6), ToSizeT(ReadBeU16(data, c.next) - 6))
               else zen
    ensures e.exit != Handled ==> e.zen == zen
  {
    if c.remaining < 2 then App3Effect(CantSuspend, c, zen)
    else
      var len := ReadBeU16(data, c.next) - 2;
      var p, rem := c.next + 2, c.remaining - 2;
      if rem < ToSizeT(len) then App3Effect(CantSuspend, Cursor(p, rem), zen)
      else
        match CompareZen(data, p)
        case OverRead => App3Effect(ReadsPastEnd, Cursor(p, rem), zen)
        case Mismatch => App3Effect(Handled, Cursor(p + len, rem - len), zen)
        case Match =>
          // `len` may now be negative: stored in the `size_t` it wraps, and
          // subtracting it from `bytes_in_buffer` adds it back
          var rest := len - 4;
          App3Effect(Handled, Cursor(p + 4 + rest, rem - 4 - rest), ChunkRef(Some(p + 4), ToSizeT(rest)))
  }

  /** `JPGHandle`, less the `setjmp` buffer: the message buffer the error
      manager writes into and the Zen chunk reference. */
  class JpgHandle {
    var message: string
    var zenChunk: ChunkRef

    /** After `memset(&jh, 0, sizeof(jh))`. */
    constructor ()
      ensures message == "" && zenChunk == NoChunk
    {
      message, zenChunk := "", NoChunk;
    }
  }

  /** `zenChunkHandler` on the decoder's source manager and handle. */
  method ZenChunkHandler(src: SourceManager, jh: JpgHandle) returns (exit: HandlerExit)
    requires src.Valid()
    modifies src`next, src`remaining, jh`zenChunk
    ensures App3Effect(exit, src.Position(), jh.zenChunk) == App3(src.data, old(src.Position()), old(jh.zenChunk))
  {
    if src.remaining < 2 {
      return CantSuspend;
    }
    var len: int := src.data[src.next] as int * 256;
    len := len + src.data[src.next + 1];
    src.next := src.next + 2;
    src.remaining := src.remaining - 2;
    len := len - 2;
    if src.remaining < ToSizeT(len) {
      return CantSuspend;
    }
    var cmp := CompareZen(src.data, src.next);
    if cmp == OverRead {
      return ReadsPastEnd;
    }
    if cmp == Mismatch {
      src.remaining := src.remaining - len;
      src.next := src.next + len;
      return Handled;
    }
    src.remaining := src.remaining - 4;
    src.next := src.next + 4;
    len := len - 4;
    jh.zenChunk := ChunkRef(Some(src.next), ToSizeT(len));
    src.remaining := src.remaining - len;
    src.next := src.next + len;
    return Handled;
  }

  /** `zenChunkHandler` as evidently intended: the signature is looked for
      only inside a segment long enough to hold it. */
  function App3Fixed(data: seq<Byte>, c: Cursor, zen: ChunkRef): (e: App3Effect)
    requires CursorOk(data, c) && |data| < Two63
    ensures e.exit == CantSuspend <==> LengthRefused(data, c)
    ensures e.exit != ReadsPastEnd
    ensures e.exit == Handled ==> CursorOk(data, e.cursor) && e.cursor.next == c.next + ReadBeU16(data, c.next)
    ensures e.exit == Handled && e.zen != zen ==>
      && e.zen.start == Some(c.next + 6)
      && e.zen.start.value + e.zen.size == e.cursor.next
      && CompareZen(data, c.next + 2) == Match
    ensures e.exit != Handled ==> e.zen == zen
  {
    if c.remaining < 2 then App3Effect(CantSuspend, c, zen)
    else
      var len := ReadBeU16(data, c.next) - 2;
      var p, rem := c.next + 2, c.remaining - 2;
      if rem < ToSizeT(len) then App3Effect(CantSuspend, Cursor(p, rem), zen)
      else if len >= 4 && data[p..p + 4] == ZenName then
        App3Effect(Handled, Cursor(p + len, rem - len), ChunkRef(Some(p + 4), len - 4))
      else App3Effect(Handled, Cursor(p + len, rem - len), zen)
  }

  /** On every segment that can hold the signature the fix changes nothing. */
  lemma FixedAgreesOnLongSegments(data: seq<Byte>, c: Cursor, zen: ChunkRef)
    requires CursorOk(data, c) && |data| < Two63
    requires c.remaining >= 2 && ReadBeU16(data, c.next) >= 6
    ensures App3Fixed(data, c, zen) == App3(data, c, zen)
  {
  }

  /** A five-byte APP3 segment holding `"Zen"`, whose terminating `0` is
      the first byte after the segment. */
  const ShortZenSegment: seq<Byte> := [0x00, 0x05, 0x5A, 0x65, 0x6E, 0x00, 0xFF, 0xD9]

  /** As written, the signature is matched across the end of the segment,
      and the recorded chunk starts after the segment with a size that has
      wrapped to 2^64 - 1. */
  lemma ShortSegmentWraps()
    ensures App3(ShortZenSegment, Cursor(0, 8), NoChunk)
         == App3Effect(Handled, Cursor(5, 3), ChunkRef(Some(6), Two64 - 1))
  {
    assert ShortZenSegment[2..6] == ZenName;
  }

  /** The fixed handler skips the same segment and records nothing. */
  lemma ShortSegmentSkipped()
    ensures App3Fixed(ShortZenSegment, Cursor(0, 8), NoChunk) == App3Effect(Handled, Cursor(5, 3), NoChunk)
  {
  }

  // ---------------------------------------------------------------------
  // emitMessage
  // ---------------------------------------------------------------------

  /** The error manager's warning count and the handle's message buffer. */
  datatype WarnState = WarnState(numWarnings: int, message: string)

  /** `jpeg_error_mgr`, reduced to the warning counter. */
  class ErrorManager {
    var numWarnings: int

    constructor ()
      ensures numWarnings == 0
    {
      numWarnings := 0;
    }
  }

  /** One call of `emitMessage(level)` whose formatted text would be
      `text`, keeping the message while the count before the call is at
      most `keep`: trace messages (level above 0) are ignored, every
      warning is counted. */
  function EmitStep(w: WarnState, level: int, text: string, keep: int): (r: WarnState)
    ensures level > 0 ==> r == w
    ensures level <= 0 ==> r.numWarnings == w.numWarnings + 1
    ensures r.message == if level <= 0 && w.numWarnings <= keep then text else w.message
  {
    if level > 0 then w
    else if w.numWarnings <= keep then WarnState(w.numWarnings + 1, text)
    else WarnState(w.numWarnings + 1, w.message)
  }

  /** `emitMessage` as written: `num_warnings++ > 1` returns early only
      from the third warning on. */
  method EmitMessage(err: ErrorManager, jh: JpgHandle, level: int, text: string)
    modifies err`numWarnings, jh`message
    ensures WarnState(err.numWarnings, jh.message) == EmitStep(WarnState(old(err.numWarnings), old(jh.message)), level, text, 1)
  {
    if level > 0 {
      return;
    }
    var before := err.numWarnings;
    err.numWarnings := err.numWarnings + 1;
    if before > 1 {
      return;
    }
    jh.message := text;
  }

  /** `emitMessage` keeping only the first warning, as its comment says. */
  method EmitMessageFirst(err: ErrorManager, jh: JpgHandle, level: int, text: string)
    modifies err`numWarnings, jh`message
    ensures WarnState(err.numWarnings, jh.message) == EmitStep(WarnState(old(err.numWarnings), old(jh.message)), level, text, 0)
  {
    if level > 0 {
      return;
    }
    var before := err.numWarnings;
    err.numWarnings := err.numWarnings + 1;
    if before > 0 {
      return;
    }
    jh.message := text;
  }

  /** The state after a sequence of `(level, text)` messages. */
  function EmitAll(w: WarnState, msgs: seq<(int, string)>, keep: int): WarnState
    decreases |msgs|
  {
    if msgs == [] then w
    else
      var last := msgs[|msgs| - 1];
      EmitStep(EmitAll(w, msgs[..|msgs| - 1], keep), last.0, last.1, keep)
  }

  /** The texts of the warnings among the messages, in order. */
  function Warnings(msgs: seq<(int, string)>): (t: seq<string>)
    ensures |t| <= |msgs|
    decreases |msgs|
  {
    if msgs == [] then []
    else
      var last := msgs[|msgs| - 1];
      Warnings(msgs[..|msgs| - 1]) + if last.0 <= 0 then [last.1] else []
  }

  /** From a fresh error manager every warning is counted, and the message
      left is the text of warning number `min(n, keep + 1)` of the `n`
      warnings, or empty when there was none. */
  lemma {:induction false} EmitAllKeeps(msgs: seq<(int, string)>, keep: nat)
    ensures EmitAll(WarnState(0, ""), msgs, keep).numWarnings == |Warnings(msgs)|
    ensures var t := Warnings(msgs);
      EmitAll(WarnState(0, ""), msgs, keep).message == if t == [] then "" else t[Min(|t|, keep + 1) - 1]
    decreases |msgs|
  {
    if msgs != [] {
      var init := msgs[..|msgs| - 1];
      EmitAllKeeps(init, keep);
      var t0 := Warnings(init);
      var last := msgs[|msgs| - 1];
      if last.0 <= 0 {
        assert Warnings(msgs) == t0 + [last.1];
      } else {
        assert Warnings(msgs) == t0;
      }
    }
  }

  /** Keeping from count 0 on stores the first warning. */
  lemma FirstWarningKept(msgs: seq<(int, string)>)
    requires Warnings(msgs) != []
    ensures EmitAll(WarnState(0, ""), msgs, 0).message == Warnings(msgs)[0]
  {
    EmitAllKeeps(msgs, 0);
  }

  /** As written, a second warning replaces the first. */
  lemma SecondWarningOverwrites()
    ensures EmitAll(WarnState(0, ""), [(0, "first"), (0, "second")], 1).message == "second"
    ensures EmitAll(WarnState(0, ""), [(0, "first"), (0, "second")], 0).message == "first"
  {
    var m: seq<(int, string)> := [(0, "first"), (0, "second")];
    assert m[..1] == [(0, "first")];
    assert m[..1][..0] == [];
  }

  // ---------------------------------------------------------------------
  // nzeros and update_mask
  // ---------------------------------------------------------------------

  /** Pixel (`y`, `x`) of a buffer of `bands`-sample pixels with rows
      `stride` bytes apart lies inside the buffer and has every sample 0. */
  predicate ZeroAt(s: seq<Byte>, bands: nat, stride: nat, y: nat, x: nat) {
    var off := y * stride + x * bands;
    off + bands <= |s| && SamplesZero(s, off, off + bands)
  }

  /** Bytes `lo ..< hi` are all 0. */
  predicate SamplesZero(s: seq<Byte>, lo: nat, hi: nat)
    requires lo <= hi <= |s|
  {
    forall j :: lo <= j < hi ==> s[j] == 0
  }

  /** `h` rows of `w` pixels, `stride` bytes apart, fit in `len` bytes. */
  predicate Inside(len: nat, w: nat, h: nat, bands: nat, stride: nat) {
    h == 0 || (h - 1) * stride + w * bands <= len
  }

  lemma PixelInside(len: nat, w: nat, h: nat, bands: nat, stride: nat, y: nat, x: nat)
    requires Inside(len, w, h, bands, stride) && y < h && x < w
    ensures y * stride + x * bands + bands <= len
  {
    MulLeft(y, h - 1, stride);
    MulLeft(x + 1, w, bands);
    MulSucc(x, bands);
  }

  /** All-zero pixels among the first `x` pixels of row `y`. */
  function RowZeros(s: seq<Byte>, bands: nat, stride: nat, y: nat, x: nat): nat
    decreases x
  {
    if x == 0 then 0
    else RowZeros(s, bands, stride, y, x - 1) + if ZeroAt(s, bands, stride, y, x - 1) then 1 else 0
  }

  /** All-zero pixels in the first `y` rows of `w` pixels. */
  function Zeros(s: seq<Byte>, w: nat, bands: nat, stride: nat, y: nat): nat
    decreases y
  {
    if y == 0 then 0
    else Zeros(s, w, bands, stride, y - 1) + RowZeros(s, bands, stride, y - 1, w)
  }

  /** A row counts at most its pixels, and none exactly when none of them
      is all-zero. */
  lemma {:induction false} RowZerosNone(s: seq<Byte>, bands: nat, stride: nat, y: nat, x: nat)
    ensures RowZeros(s, bands, stride, y, x) <= x
    ensures RowZeros(s, bands, stride, y, x) == 0 <==> forall c :: 0 <= c < x ==> !ZeroAt(s, bands, stride, y, c)
    decreases x
  {
    if x > 0 {
      RowZerosNone(s, bands, stride, y, x - 1);
    }
  }

  /** The count is at most the number of pixels, and zero exactly when no
      pixel is all-zero. */
  lemma {:induction false} ZerosNone(s: seq<Byte>, w: nat, bands: nat, stride: nat, y: nat)
    ensures Zeros(s, w, bands, stride, y) <= y * w
    ensures Zeros(s, w, bands, stride, y) == 0 <==>
      forall r, c :: 0 <= r < y && 0 <= c < w ==> !ZeroAt(s, bands, stride, r, c)
    decreases y
  {
    if y > 0 {
      ZerosNone(s, w, bands, stride, y - 1);
      RowZerosNone(s, bands, stride, y - 1, w);
      MulSucc(y - 1, w);
    }
  }

  /** The inner `for (c ...) zero &= (s[c + x * bands] == 0)`. */
  method PixelIsZero(s: seq<Byte>, off: nat, bands: nat) returns (zero: bool)
    requires off + bands <= |s|
    ensures zero == SamplesZero(s, off, off + bands)
  {
    zero := true;
    for c := 0 to bands
      invariant zero == SamplesZero(s, off, off + c)
    {
      zero := zero && s[off + c] == 0;
    }
  }

  /** `nzeros`: the all-zero pixels of the raster's `x` by `y` pixels of
      `c` bands, rows `line_stride` bytes apart; the sizes are converted to
      `int` first. */
  method NZeros(s: seq<Byte>, raster: Raster, lineStride: SizeT) returns (n: nat)
    requires Inside(|s|, Trips(CInt(raster.size.x)), Trips(CInt(raster.size.y)), Trips(CInt(raster.size.c)), lineStride)
    ensures n == Zeros(s, Trips(CInt(raster.size.x)), Trips(CInt(raster.size.c)), lineStride, Trips(CInt(raster.size.y)))
  {
    var w, h, bands := Trips(CInt(raster.size.x)), Trips(CInt(raster.size.y)), Trips(CInt(raster.size.c));
    n := 0;
    var row: nat := 0;
    for y := 0 to h
      invariant row == y * lineStride
      invariant n == Zeros(s, w, bands, lineStride, y)
    {
      var k := CountRow(s, w, h, bands, lineStride, y, row);
      n := n + k;
      MulSucc(y, lineStride);
      row := row + lineStride;
    }
  }

  /** The loop over the pixels of row `y`, which starts at byte `row`. */
  method CountRow(s: seq<Byte>, w: nat, h: nat, bands: nat, stride: nat, y: nat, row: nat) returns (k: nat)
    requires Inside(|s|, w, h, bands, stride) && y < h && row == y * stride
    ensures k == RowZeros(s, bands, stride, y, w)
  {
    k := 0;
    for x := 0 to w
      invariant k == RowZeros(s, bands, stride, y, x)
    {
      PixelInside(|s|, w, h, bands, stride, y, x);
      var zero := PixelIsZero(s, row + x * bands, bands);
      if zero {
        k := k + 1;
      }
    }
  }

  /** `BitMask`, whose implementation is not part of this model: one
      validity flag per pixel in row-major order, all set on construction.
      Only the operations `update_mask` uses are modelled. */
  class BitMask {
    const width: nat
    const height: nat
    var valid: seq<bool>

    predicate Valid()
      reads this
    {
      |valid| == width * height
    }

    /** `BitMask(w, h)`: a full mask. */
    constructor (w: nat, h: nat)
      ensures width == w && height == h && valid == seq(w * h, _ => true) && Valid()
    {
      width, height := w, h;
      valid := seq(w * h, _ => true);
    }

    /** `clear(x, y)`: pixel (`y`, `x`) becomes invalid. */
    method Clear(x: nat, y: nat)
      requires Valid() && x < width && y < height
      modifies this`valid
      ensures y * width + x < |old(valid)|
      ensures valid == old(valid)[y * width + x := false] && Valid()
    {
      RowMajorInRange(y, x, width, height);
      valid := valid[y * width + x := false];
    }
  }

  /** The flags after the first `x` pixels of row `y` are scanned: each
      all-zero pixel cleared. */
  function ClearedRow(m: seq<bool>, s: seq<Byte>, w: nat, bands: nat, stride: nat, y: nat, x: nat): (r: seq<bool>)
    ensures |r| == |m|
    decreases x
  {
    if x == 0 then m
    else
      var m' := ClearedRow(m, s, w, bands, stride, y, x - 1);
      if ZeroAt(s, bands, stride, y, x - 1) && y * w + x - 1 < |m'| then m'[y * w + x - 1 := false] else m'
  }

  /** The flags after the first `y` rows are scanned. */
  function ClearedRows(m: seq<bool>, s: seq<Byte>, w: nat, bands: nat, stride: nat, y: nat): (r: seq<bool>)
    ensures |r| == |m|
    decreases y
  {
    if y == 0 then m
    else ClearedRow(ClearedRows(m, s, w, bands, stride, y - 1), s, w, bands, stride, y - 1, w)
  }

  lemma {:induction false} ClearedRowAt(m: seq<bool>, s: seq<Byte>, w: nat, h: nat, bands: nat, stride: nat, y: nat, x: nat, r: nat, c: nat)
    requires |m| == w * h && y < h && x <= w && r < h && c < w
    ensures r * w + c < |m|
    ensures ClearedRow(m, s, w, bands, stride, y, x)[r * w + c]
         == (m[r * w + c] && !(r == y && c < x && ZeroAt(s, bands, stride, r, c)))
    decreases x
  {
    RowMajorInRange(r, c, w, h);
    if x > 0 {
      ClearedRowAt(m, s, w, h, bands, stride, y, x - 1, r, c);
      RowMajorInRange(y, x - 1, w, h);
      RowMajorInjective(y, x - 1, r, c, w);
    }
  }

  lemma {:induction false} ClearedRowsAt(m: seq<bool>, s: seq<Byte>, w: nat, h: nat, bands: nat, stride: nat, y: nat, r: nat, c: nat)
    requires |m| == w * h && y <= h && r < h && c < w
    ensures r * w + c < |m|
    ensures ClearedRows(m, s, w, bands, stride, y)[r * w + c]
         == (m[r * w + c] && !(r < y && ZeroAt(s, bands, stride, r, c)))
    decreases y
  {
    RowMajorInRange(r, c, w, h);
    if y > 0 {
      ClearedRowsAt(m, s, w, h, bands, stride, y - 1, r, c);
      ClearedRowAt(ClearedRows(m, s, w, bands, stride, y - 1), s, w, h, bands, stride, y - 1, w, r, c);
    }
  }

  /** Once every row is scanned, a pixel's flag is cleared exactly when the
      pixel is all-zero, and kept as it was otherwise. */
  lemma UpdateMaskEffect(m: seq<bool>, s: seq<Byte>, w: nat, h: nat, bands: nat, stride: nat, r: nat, c: nat)
    requires |m| == w * h && r < h && c < w
    ensures r * w + c < |m|
    ensures ClearedRows(m, s, w, bands, stride, h)[r * w + c] == (m[r * w + c] && !ZeroAt(s, bands, stride, r, c))
  {
    ClearedRowsAt(m, s, w, h, bands, stride, h, r, c);
  }

  /** `update_mask`: scans the mask's `width` by `height` pixels of the
      buffer, clears the flag of every all-zero pixel and returns how many
      there were, the count `nzeros` gives for the same dimensions. */
  method UpdateMask(mask: BitMask, s: seq<Byte>, bandsOf: SizeT, lineStride: SizeT) returns (n: nat)
    requires mask.Valid() && mask.width < Two31 && mask.height < Two31
    requires Inside(|s|, Trips(CInt(mask.width)), Trips(CInt(mask.height)), Trips(CInt(bandsOf)), lineStride)
    modifies mask`valid
    ensures mask.Valid()
    ensures mask.valid == ClearedRows(old(mask.valid), s, Trips(CInt(mask.width)), Trips(CInt(bandsOf)), lineStride, Trips(CInt(mask.height)))
    ensures n == Zeros(s, Trips(CInt(mask.width)), Trips(CInt(bandsOf)), lineStride, Trips(CInt(mask.height)))
  {
    var w, h, bands := Trips(CInt(mask.width)), Trips(CInt(mask.height)), Trips(CInt(bandsOf));
    assert w == mask.width && h == mask.height;
    ghost var m0 := mask.valid;
    n := 0;
    var row: nat := 0;
    for y := 0 to h
      invariant row == y * lineStride && mask.Valid()
      invariant mask.valid == ClearedRows(m0, s, w, bands, lineStride, y)
      invariant n == Zeros(s, w, bands, lineStride, y)
    {
      var k := UpdateRow(mask, s, w, h, bands, lineStride, y, row);
      n := n + k;
      row := row + lineStride;
    }
  }

  /** The loop over the pixels of row `y` of `update_mask`. */
  method UpdateRow(mask: BitMask, s: seq<Byte>, w: nat, h: nat, bands: nat, stride: nat, y: nat, row: nat) returns (k: nat)
    requires mask.Valid() && Inside(|s|, w, h, bands, stride) && y < h && row == y * stride
    requires w == mask.width && h == mask.height
    modifies mask`valid
    ensures mask.Valid()
    ensures mask.valid == ClearedRow(old(mask.valid), s, w, bands, stride, y, w)
    ensures k == RowZeros(s, bands, stride, y, w)
    ensures row + stride == (y + 1) * stride
  {
    MulSucc(y, stride);
    ghost var m0 := mask.valid;
    k := 0;
    for x := 0 to w
      invariant mask.Valid()
      invariant mask.valid == ClearedRow(m0, s, w, bands, stride, y, x)
      invariant k == RowZeros(s, bands, stride, y, x)
    {
      PixelInside(|s|, w, h, bands, stride, y, x);
      var zero := PixelIsZero(s, row + x * bands, bands);
      if zero {
        mask.Clear(x, y);
        k := k + 1;
      }
    }
  }

  // ---------------------------------------------------------------------
  // jpeg8_stride_decode
  // ---------------------------------------------------------------------

  /** What `jpeg_read_header` reports about the image. */
  datatype JpegHeader = JpegHeader(width: int, height: int, precision: int, multiScan: bool, arithCode: bool)

  /** How `jpeg_read_header` ends: through `errorExit` with its message,
      or with the header, the Zen chunk the APP3 handler left in the
      handle, and the message buffer, which a warning may have filled. */
  datatype HeaderOutcome = HeaderFatal(fatal: string) | HeaderOk(header: JpegHeader, zen: ChunkRef, message: string)

  /** How the scanline loop ends: the rows libjpeg delivered, the message
      buffer (empty unless a warning was stored in it), and the message of
      `errorExit` if that ended the loop. */
  datatype ScanOutcome = ScanOutcome(rows: seq<seq<Byte>>, message: string, fatal: Option<string>)

  /** The image is one this decoder handles for the raster. */
  predicate Decodable(r: Raster, hd: JpegHeader) {
    (r.size.c == 1 || r.size.c == 3) && !hd.multiScan && !hd.arithCode && hd.precision == 8
    && hd.width == r.size.x && hd.height == r.size.y
  }

  /** The message buffer after the checks that follow `jpeg_read_header`.
      Every failed check overwrites it, so the last failure wins. */
  function HeaderChecks(r: Raster, hd: JpegHeader, message: string): (m: string)
    ensures m == "" <==> message == "" && Decodable(r, hd)
    ensures (hd.width != r.size.x || hd.height != r.size.y) ==> m == "Wrong JPEG size on input"
    ensures m in {message, "JPEG with wrong number of components", "Unsupported JPEG type",
                  "JPEG with more than 8 bits of data", "Wrong JPEG size on input"}
  {
    var m1 := if !(r.size.c == 1 || r.size.c == 3) then "JPEG with wrong number of components" else message;
    var m2 := if hd.multiScan || hd.arithCode then "Unsupported JPEG type" else m1;
    var m3 := if hd.precision != 8 then "JPEG with more than 8 bits of data" else m2;
    if hd.width != r.size.x || hd.height != r.size.y then "Wrong JPEG size on input" else m3
  }

  /** The stride the decoder writes rows at: the caller's, or `c * x`. */
  function JpegStride(r: Raster, lineStride: SizeT): SizeT {
    if lineStride == 0 then SizeMul(r.size.c, r.size.x) else lineStride
  }

  /** The buffer after rows of `rowLen` bytes are written `stride` apart. */
  function RowsWritten(s: seq<Byte>, rows: seq<seq<Byte>>, rowLen: nat, stride: nat): (r: seq<Byte>)
    requires CellsOk(rows, 1, |rows|, rowLen)
    ensures |r| == |s|
  {
    if rowLen == 0 then s else Scatter(s, rows, 1, |rows|, rowLen, stride)
  }

  /** Row `r` of the output starts at byte `r * line_stride`; the rest of
      the buffer is untouched. */
  method WriteRows(buffer: array<Byte>, rows: seq<seq<Byte>>, rowLen: nat, stride: nat, h: nat)
    requires CellsOk(rows, 1, |rows|, rowLen) && |rows| <= h && Fits(buffer.Length, 1, h, rowLen, stride)
    modifies buffer
    ensures buffer[..] == RowsWritten(old(buffer[..]), rows, rowLen, stride)
  {
    if rowLen == 0 {
      return;
    }
    ghost var s0 := buffer[..];
    if |rows| > 0 {
      MulLeft(|rows| - 1, h - 1, stride);
    }
    ScatterStart(s0, rows, 1, |rows|, rowLen, stride);
    for r := 0 to |rows|
      invariant buffer.Length == |s0|
      invariant buffer[..] == PartlyScattered(s0, rows, 1, |rows|, rowLen, stride, r, 0)
    {
      ScatterStep(s0, rows, 1, |rows|, rowLen, stride, r, 0);
      PutBytes(buffer, r * stride + 0 * rowLen, rows[r * 1 + 0]);
      ScatterRowDone(s0, rows, 1, |rows|, rowLen, stride, r);
    }
    ScatterEnd(s0, rows, 1, |rows|, rowLen, stride);
  }

  /** `BitMap2D<> bm(x, y)`: the full mask of `x` by `y` pixels. */
  function FullMask(w: nat, h: nat): seq<bool> {
    seq(w * h, _ => true)
  }

  /** The decode gets past the data type and header checks and starts the
      scanline loop. */
  predicate Scans(r: Raster, src: seq<Byte>, readHeader: seq<Byte> -> HeaderOutcome) {
    GetTypeSize(r.dt, 1) == DtByte && readHeader(src).HeaderOk?
    && HeaderChecks(r, readHeader(src).header, readHeader(src).message) == ""
  }

  /** Rows libjpeg delivers hold `c * x` bytes, and there are `y` of them
      unless `errorExit` cut the loop short. */
  predicate RowsOk(sc: ScanOutcome, rowLen: nat, h: nat) {
    CellsOk(sc.rows, 1, |sc.rows|, rowLen) && |sc.rows| <= h && (sc.fatal.None? ==> |sc.rows| == h)
  }

  /** `jpeg8_stride_decode`. `readHeader` and `scan` are the libjpeg steps;
      `loadMask` is `BitMap2D::load` through the RLE packer (given the
      input and the chunk reference) and `applyMask` is `apply_mask`,
      which yields the new buffer contents and its count. */
  method Jpeg8StrideDecode(params: CodecParams, src: seq<Byte>, buffer: array<Byte>,
                           readHeader: seq<Byte> -> HeaderOutcome,
                           scan: (seq<Byte>, JpegHeader) -> ScanOutcome,
                           loadMask: (seq<Byte>, ChunkRef, nat, nat) -> Option<seq<bool>>,
                           applyMask: (seq<bool>, seq<Byte>, int, int) -> (seq<Byte>, int))
    returns (err: Option<string>)
    requires Scans(params.raster, src, readHeader) ==>
      var rs := params.raster.size;
      && RowsOk(scan(src, readHeader(src).header), rs.c * rs.x, rs.y)
      && Fits(buffer.Length, 1, rs.y, rs.c * rs.x, JpegStride(params.raster, params.lineStride))
    modifies params`errorMessage, params`modified, buffer
    ensures params.errorMessage == if err.Some? then err.value else ""
    ensures GetTypeSize(params.raster.dt, 1) != DtByte ==>
      err == Some("JPEG8 decode called with wrong datatype")
    ensures GetTypeSize(params.raster.dt, 1) == DtByte && readHeader(src).HeaderFatal? ==>
      err == Some(readHeader(src).fatal)
    ensures GetTypeSize(params.raster.dt, 1) == DtByte && readHeader(src).HeaderOk? && !Scans(params.raster, src, readHeader) ==>
      err == Some(HeaderChecks(params.raster, readHeader(src).header, readHeader(src).message))
    ensures !Scans(params.raster, src, readHeader) ==>
      buffer[..] == old(buffer[..]) && params.modified == old(params.modified)
    ensures Scans(params.raster, src, readHeader) ==>
      var rs := params.raster.size;
      var hdr := readHeader(src);
      var sc := scan(src, hdr.header);
      var stride := JpegStride(params.raster, params.lineStride);
      var written := RowsWritten(old(buffer[..]), sc.rows, rs.c * rs.x, stride);
      if sc.fatal.Some? then
        err == sc.fatal && buffer[..] == written && params.modified == old(params.modified)
      else if sc.message != "" then
        err == Some(sc.message) && buffer[..] == written && params.modified == old(params.modified)
      else if hdr.zen.start.None? then
        err == None && buffer[..] == written && !params.modified
      else if hdr.zen.size != 0 && loadMask(src, hdr.zen, rs.x % Two32, rs.y % Two32).None? then
        err == Some("Error decoding Zen mask") && buffer[..] == written && !params.modified
      else
        var mask := if hdr.zen.size == 0 then FullMask(rs.x % Two32, rs.y % Two32)
                    else loadMask(src, hdr.zen, rs.x % Two32, rs.y % Two32).value;
        var applied := applyMask(mask, written, CInt(rs.c), CInt(stride));
        && err == None
        && buffer[..] == Overwrite(written, 0, applied.0[..Min(|applied.0|, |written|)])
        && params.modified == (applied.1 != 0)
  {
    params.errorMessage := "";
    if GetTypeSize(params.raster.dt, 1) != DtByte {
      params.errorMessage := "JPEG8 decode called with wrong datatype";
      return Some(params.errorMessage);
    }
    var hdr := readHeader(src);
    if hdr.HeaderFatal? {
      params.errorMessage := hdr.fatal;
      return Some(hdr.fatal);
    }
    var rsize := params.raster.size;
    var info := hdr.header;
    CheckHeader(params, info, hdr.message);
    var lineStride := params.lineStride;
    if lineStride == 0 {
      lineStride := SizeMul(rsize.c, rsize.x);
    }
    if params.errorMessage == "" {
      var sc := scan(src, info);
      WriteRows(buffer, sc.rows, rsize.c * rsize.x, lineStride, rsize.y);
      params.errorMessage := sc.message;
      if sc.fatal.Some? {
        params.errorMessage := sc.fatal.value;
        return sc.fatal;
      }
    }
    if params.errorMessage != "" {
      return Some(params.errorMessage);
    }
    err := ApplyZen(params, src, buffer, hdr.zen, rsize, lineStride, loadMask, applyMask);
  }

  /** The checks that follow `jpeg_read_header`, each storing its message
      over what the header left in the buffer. */
  method CheckHeader(params: CodecParams, info: JpegHeader, message: string)
    modifies params`errorMessage
    ensures params.errorMessage == HeaderChecks(params.raster, info, message)
  {
    var rsize := params.raster.size;
    params.errorMessage := message;
    if !(rsize.c == 1 || rsize.c == 3) {
      params.errorMessage := "JPEG with wrong number of components";
    }
    if info.multiScan || info.arithCode {
      params.errorMessage := "Unsupported JPEG type";
    }
    if info.precision != 8 {
      params.errorMessage := "JPEG with more than 8 bits of data";
    }
    if info.width != rsize.x || info.height != rsize.y {
      params.errorMessage := "Wrong JPEG size on input";
    }
  }

  /** The end of `jpeg8_stride_decode` once the scan has succeeded: with a
      Zen chunk, the mask it holds (or the full mask for an empty chunk) is
      applied to the decoded buffer. */
  method ApplyZen(params: CodecParams, src: seq<Byte>, buffer: array<Byte>, zen: ChunkRef, rsize: Sz5, lineStride: SizeT,
                  loadMask: (seq<Byte>, ChunkRef, nat, nat) -> Option<seq<bool>>,
                  applyMask: (seq<bool>, seq<Byte>, int, int) -> (seq<Byte>, int))
    returns (err: Option<string>)
    requires params.errorMessage == ""
    modifies params`errorMessage, params`modified, buffer
    ensures params.errorMessage == if err.Some? then err.value else ""
    ensures
      if zen.start.None? then
        err == None && buffer[..] == old(buffer[..]) && !params.modified
      else if zen.size != 0 && loadMask(src, zen, rsize.x % Two32, rsize.y % Two32).None? then
        err == Some("Error decoding Zen mask") && buffer[..] == old(buffer[..]) && !params.modified
      else
        var mask := if zen.size == 0 then FullMask(rsize.x % Two32, rsize.y % Two32)
                    else loadMask(src, zen, rsize.x % Two32, rsize.y % Two32).value;
        var applied := applyMask(mask, old(buffer[..]), CInt(rsize.c), CInt(lineStride));
        && err == None
        && buffer[..] == Overwrite(old(buffer[..]), 0, applied.0[..Min(|applied.0|, buffer.Length)])
        && params.modified == (applied.1 != 0)
  {
    params.modified := false;
    if zen.start.Some? {
      var bm := FullMask(rsize.x % Two32, rsize.y % Two32);
      if zen.size != 0 {
        var loaded := loadMask(src, zen, rsize.x % Two32, rsize.y % Two32);
        if loaded.None? {
          params.errorMessage := "Error decoding Zen mask";
          return Some(params.errorMessage);
        }
        bm := loaded.value;
      }
      var applied := applyMask(bm, buffer[..], CInt(rsize.c), CInt(lineStride));
      var out := applied.0[..Min(|applied.0|, buffer.Length)];
      PutBytes(buffer, 0, out);
      params.modified := applied.1 != 0;
    }
    return None;
  }

  // ---------------------------------------------------------------------
  // The Zen payload of jpeg8_encode
  // ---------------------------------------------------------------------

  /** The mask `jpeg8_encode` builds: a full `x` by `y` mask with every
      all-zero pixel cleared. */
  function ZeroMask(s: seq<Byte>, r: Raster, lineStride: SizeT): (m: seq<bool>)
    ensures |m| == r.size.x * r.size.y
  {
    ClearedRows(FullMask(r.size.x, r.size.y), s, r.size.x, Trips(CInt(r.size.c)), lineStride, r.size.y)
  }

  /** A flag of the zero mask is clear exactly on an all-zero pixel. */
  lemma ZeroMaskAt(s: seq<Byte>, r: Raster, lineStride: SizeT, y: nat, x: nat, k: nat)
    requires y < r.size.y && x < r.size.x && k == y * r.size.x + x
    ensures k < |ZeroMask(s, r, lineStride)|
    ensures ZeroMask(s, r, lineStride)[k] == !ZeroAt(s, Trips(CInt(r.size.c)), lineStride, y, x)
  {
    var w, h := r.size.x, r.size.y;
    var full := FullMask(w, h);
    UpdateMaskEffect(full, s, w, h, Trips(CInt(r.size.c)), lineStride, y, x);
    assert full[k];
  }

  /** The all-zero pixels of the source image, as `nzeros` counts them. */
  function ZeroPixels(s: seq<Byte>, r: Raster, lineStride: SizeT): nat {
    Zeros(s, Trips(CInt(r.size.x)), Trips(CInt(r.size.c)), lineStride, Trips(CInt(r.size.y)))
  }

  /** The sizes `jpeg8_encode` scans fit an `int`, and the scanned rows
      lie inside the source image. */
  predicate EncodeScanOk(s: seq<Byte>, r: Raster, lineStride: SizeT) {
    r.size.x < Two31 && r.size.y < Two31
    && Inside(|s|, r.size.x, r.size.y, Trips(CInt(r.size.c)), lineStride)
  }

  /** `store(bits, capacity)` is `mask.store` through the RLE packer: the
      bytes it leaves at the start of the chunk, their count being the
      chunk size it sets. */
  method StoreZenMask(s: seq<Byte>, r: Raster, lineStride: SizeT, maskBytes: nat,
                      store: (seq<bool>, nat) -> seq<Byte>) returns (stored: seq<Byte>)
    requires EncodeScanOk(s, r, lineStride)
    ensures stored == store(ZeroMask(s, r, lineStride), 2 * maskBytes)
  {
    var w, h := r.size.x % Two32, r.size.y % Two32;
    DivModUnique(r.size.x, Two32, 0, r.size.x);
    DivModUnique(r.size.y, Two32, 0, r.size.y);
    assert w == r.size.x && h == r.size.y;
    var mask := new BitMask(w, h);
    assert Trips(CInt(mask.width)) == w && Trips(CInt(mask.height)) == h;
    var _ := UpdateMask(mask, s, r.size.c, lineStride);
    stored := store(mask.valid, 2 * maskBytes);
  }

  /** The APP3 payload `jpeg8_encode` writes, as written: empty when no
      pixel is all-zero, `"Zen\0"` and the stored mask otherwise.
      `maskBytes` is `mask.size()`; the chunk region is resized to twice
      that, which the stored mask must fit in. */
  method ZenPayload(s: seq<Byte>, r: Raster, lineStride: SizeT, maskBytes: nat,
                    store: (seq<bool>, nat) -> seq<Byte>) returns (payload: seq<Byte>)
    requires EncodeScanOk(s, r, lineStride)
    requires |store(ZeroMask(s, r, lineStride), 2 * maskBytes)| <= 2 * maskBytes
    ensures ZeroPixels(s, r, lineStride) == 0 ==> payload == []
    ensures ZeroPixels(s, r, lineStride) > 0 ==> payload == ZenName + store(ZeroMask(s, r, lineStride), 2 * maskBytes)
  {
    var maskbuff := ZenName;
    var size := 0;
    var n := NZeros(s, r, lineStride);
    if n > 0 {
      var stored := StoreZenMask(s, r, lineStride, maskBytes, store);
      maskbuff := Overwrite(Resized(maskbuff, 2 * maskBytes + 4, 0), 4, stored);
      size := |stored| + 4;
    }
    payload := maskbuff[..size];
  }

  /** The payload as the comment and the decoder expect it: `"Zen\0"`
      alone when no pixel is all-zero. */
  method ZenPayloadFixed(s: seq<Byte>, r: Raster, lineStride: SizeT, maskBytes: nat,
                         store: (seq<bool>, nat) -> seq<Byte>) returns (payload: seq<Byte>)
    requires EncodeScanOk(s, r, lineStride)
    requires |store(ZeroMask(s, r, lineStride), 2 * maskBytes)| <= 2 * maskBytes
    ensures ZeroPixels(s, r, lineStride) == 0 ==> payload == ZenName
    ensures ZeroPixels(s, r, lineStride) > 0 ==> payload == ZenName + store(ZeroMask(s, r, lineStride), 2 * maskBytes)
  {
    var maskbuff := ZenName;
    var size := 4;
    var n := NZeros(s, r, lineStride);
    if n > 0 {
      var stored := StoreZenMask(s, r, lineStride, maskBytes, store);
      maskbuff := Overwrite(Resized(maskbuff, 2 * maskBytes + 4, 0), 4, stored);
      size := |stored| + 4;
    }
    payload := maskbuff[..size];
  }

  /** An empty payload is written exactly when no pixel is all-zero. */
  lemma EmptyPayloadMeansNoZeros(s: seq<Byte>, r: Raster, lineStride: SizeT)
    requires EncodeScanOk(s, r, lineStride)
    ensures ZeroPixels(s, r, lineStride) == 0 <==>
      forall y, x :: 0 <= y < r.size.y && 0 <= x < r.size.x ==> !ZeroAt(s, Trips(CInt(r.size.c)), lineStride, y, x)
  {
    ZerosNone(s, r.size.x, Trips(CInt(r.size.c)), lineStride, r.size.y);
  }

  /** The marker segment `jpeg_write_marker` emits after the `FF E3`
      marker: the length, counting its own two bytes, then the payload. */
  function App3Segment(payload: seq<Byte>): (seg: seq<Byte>)
    requires |payload| + 2 < Two16
    ensures |seg| == |payload| + 2
  {
    BeBytes16(|payload| + 2) + payload
  }

  /** The decoder's handler, run on a Zen segment the encoder wrote,
      records exactly the stored mask bytes and resumes after the segment. */
  lemma {:induction false} ZenSegmentRoundTrip(pre: seq<Byte>, stored: seq<Byte>, post: seq<Byte>)
    requires |stored| + 6 < Two16 && |pre| + |stored| + 6 + |post| < Two63
    ensures var data := pre + App3Segment(ZenName + stored) + post;
      && App3(data, Cursor(|pre|, |data| - |pre|), NoChunk)
         == App3Effect(Handled, Cursor(|pre| + 6 + |stored|, |post|), ChunkRef(Some(|pre| + 6), |stored|))
      && data[|pre| + 6..|pre| + 6 + |stored|] == stored
  {
    var seg := App3Segment(ZenName + stored);
    var data := pre + seg + post;
    var p := |pre|;
    assert data[p] == seg[0] && data[p + 1] == seg[1];
    assert ReadBeU16(data, p) == |stored| + 6;
    assert data[p + 2..p + 6] == ZenName;
    assert data[p + 6..p + 6 + |stored|] == stored;
  }

  /** An empty payload, followed by the next marker's `0xFF`, is skipped by
      the decoder's handler: no Zen chunk is seen. */
  lemma {:induction false} EmptySegmentSkipped(pre: seq<Byte>, post: seq<Byte>)
    requires |post| >= 1 && post[0] == 0xFF && |pre| + 2 + |post| < Two63
    ensures var data := pre + App3Segment([]) + post;
      App3(data, Cursor(|pre|, |data| - |pre|), NoChunk) == App3Effect(Handled, Cursor(|pre| + 2, |post|), NoChunk)
  {
    var data := pre + App3Segment([]) + post;
    var p := |pre|;
    assert data[p] == 0 && data[p + 1] == 2 && data[p + 2] == 0xFF;
    assert ReadBeU16(data, p) == 2;
  }
}
