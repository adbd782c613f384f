/** The raster descriptor contract shared by every codec and the format
    dispatcher that routes a compressed buffer by its 4-byte magic number. */
module IcdCodecs {
  import opened Common

  // ---------------------------------------------------------------------
  // Pixel data types (copied from GDAL's numbering, floats last)
  // ---------------------------------------------------------------------

  /** A C enum value: the named constants below, or any other int. */
  type DataType = int

  const DtUnknown: DataType := 0
  const DtByte: DataType := 1
  const DtChar: DataType := 1
  const DtUInt16: DataType := 2
  const DtInt16: DataType := 3
  const DtShort: DataType := 3
  const DtUInt32: DataType := 4
  const DtInt32: DataType := 5
  const DtInt: DataType := 5
  const DtFloat32: DataType := 6
  const DtFloat: DataType := 6
  const DtFloat64: DataType := 7
  const DtDouble: DataType := 7

  predicate IsKnownType(dt: DataType) {
    DtByte <= dt <= DtFloat64
  }

  /** The aliases name the same values, and every integer type is ordered
      before the first floating point type. */
  lemma DataTypeAliases()
    ensures DtChar == DtByte && DtShort == DtInt16 && DtInt == DtInt32
    ensures DtFloat == DtFloat32 && DtDouble == DtFloat64
    ensures DtByte < DtUInt16 < DtInt16 < DtUInt32 < DtInt32 < DtFloat < DtFloat64
  {
  }

  /** Width in bytes of one value of a known type. */
  function TypeWidth(dt: DataType): (w: nat)
    requires IsKnownType(dt)
    ensures w in {1, 2, 4, 8}
  {
    if dt == DtByte then 1
    else if dt == DtUInt16 || dt == DtInt16 then 2
    else if dt == DtFloat64 then 8
    else 4
  }

  /** `getTypeSize`: the byte size of `n` values of type `dt`, in size_t
      arithmetic; all ones for an unknown type. */
  function GetTypeSize(dt: DataType, n: SizeT): (r: SizeT)
    ensures dt == DtByte ==> r == n
    ensures dt == DtUInt16 || dt == DtInt16 ==> r == WrapSize(2 * n)
    ensures dt == DtUInt32 || dt == DtInt32 || dt == DtFloat32 ==> r == WrapSize(4 * n)
    ensures dt == DtFloat64 ==> r == WrapSize(8 * n)
    ensures !IsKnownType(dt) ==> r == SizeMax
  {
    if dt == DtByte then n
    else if dt == DtUInt16 || dt == DtInt16 then WrapSize(2 * n)
    else if dt == DtUInt32 || dt == DtInt32 || dt == DtFloat32 then WrapSize(4 * n)
    else if dt == DtFloat64 then WrapSize(8 * n)
    else SizeMax
  }

  /** Without wrap-around the size is the value count times the type width,
      so it is positive exactly when there is at least one value. */
  lemma TypeSizeExact(dt: DataType, n: SizeT)
    requires IsKnownType(dt) && 8 * n < Two64
    ensures GetTypeSize(dt, n) == TypeWidth(dt) * n
    ensures GetTypeSize(dt, n) >= n
    ensures GetTypeSize(dt, n) > 0 <==> n > 0
  {
  }

  // ---------------------------------------------------------------------
  // getDT: data type by (case-insensitive) name
  // ---------------------------------------------------------------------

  /** `std::tolower` in the C locale */
  function LowerChar(c: char): char {
    if 'A' <= c <= 'Z' then (c as int + 32) as char else c
  }

  function UpperChar(c: char): char {
    if 'a' <= c <= 'z' then (c as int - 32) as char else c
  }

  function Lower(s: string): (r: string)
    ensures |r| == |s|
    ensures forall i :: 0 <= i < |s| ==> r[i] == LowerChar(s[i])
  {
    seq(|s|, i requires 0 <= i < |s| => LowerChar(s[i]))
  }

  function Upper(s: string): (r: string)
    ensures |r| == |s|
    ensures forall i :: 0 <= i < |s| ==> r[i] == UpperChar(s[i])
  {
    seq(|s|, i requires 0 <= i < |s| => UpperChar(s[i]))
  }

  /** The names `getDT` recognises, already lower-cased. */
  const RecognisedTypeNames: set<string> :=
    {"uint16", "int16", "short", "uint32", "int", "int32", "long", "float", "float32", "double", "float64"}

  /** The comparison chain of `getDT` on a lower-cased name. */
  function TypeOfLowerName(s: string): DataType {
    if s == "uint16" then DtUInt16
    else if s == "int16" || s == "short" then DtInt16
    else if s == "uint32" then DtUInt32
    else if s == "int" || s == "int32" || s == "long" then DtInt32
    else if s == "float" || s == "float32" then DtFloat32
    else if s == "double" || s == "float64" then DtFloat64
    else DtByte
  }

  /** What `getDT` returns for a name; `None` is the null pointer. */
  function TypeByName(name: Option<string>): (dt: DataType)
    ensures IsKnownType(dt)
    ensures name.None? ==> dt == DtByte
    ensures name.Some? ==> (dt != DtByte <==> Lower(name.value) in RecognisedTypeNames)
  {
    if name.None? then DtByte else TypeOfLowerName(Lower(name.value))
  }

  /** `getDT`: copies the name, lower-cases the copy in place, then compares. */
  method GetDT(name: Option<string>) returns (dt: DataType)
    ensures dt == TypeByName(name)
  {
    if name.None? {
      return DtByte;
    }
    var src := name.value;
    var s := new char[|src|](i requires 0 <= i < |src| => src[i]);
    for i := 0 to s.Length
      invariant s[..i] == Lower(src[..i])
      invariant s[i..] == src[i..]
    {
      s[i] := LowerChar(s[i]);
      assert s[..i + 1] == s[..i] + [LowerChar(src[i])];
    }
    assert src[..s.Length] == src;
    var lowered := s[..];
    assert lowered == Lower(src);
    dt := TypeOfLowerName(lowered);
  }

  lemma {:induction false} LowerOfUpper(s: string)
    ensures Lower(Upper(s)) == Lower(s)
  {
    forall i | 0 <= i < |s| ensures Lower(Upper(s))[i] == Lower(s)[i] {
      var c := s[i];
      assert Upper(s)[i] == UpperChar(c);
    }
  }

  /** Matching is case-insensitive. */
  lemma TypeByNameIgnoresCase(s: string)
    ensures TypeByName(Some(Upper(s))) == TypeByName(Some(s))
  {
    LowerOfUpper(s);
  }

  // ---------------------------------------------------------------------
  // Image formats and their names
  // ---------------------------------------------------------------------

  type ImgType = x: int | 0 <= x <= 5

  const ImgAny: ImgType := 0
  const ImgJpeg: ImgType := 1
  const ImgPng: ImgType := 2
  const ImgLerc: ImgType := 3
  const ImgQb3: ImgType := 4
  const ImgUnknown: ImgType := 5

  /** `IMG_NAMES`, indexed by format */
  const ImgNames: seq<string> := ["image/*", "image/jpeg", "image/png", "raster/lerc", "image/qb3", ""]

  /** `getFMT`: tries the names of IMG_ANY to IMG_QB3 in order and returns the
      first match; the empty name of IMG_UNKNOWN is never tried. */
  method GetFMT(name: string) returns (f: ImgType)
    ensures f < ImgUnknown ==> ImgNames[f] == name
    ensures f == ImgUnknown <==> forall i :: ImgAny <= i < ImgUnknown ==> ImgNames[i] != name
    ensures forall i :: ImgAny <= i < ImgUnknown ==> (name == ImgNames[i] <==> f == i)
    ensures name == "" ==> f == ImgUnknown
  {
    var i: ImgType := ImgAny;
    while i < ImgUnknown
      invariant forall j :: ImgAny <= j < i ==> ImgNames[j] != name
    {
      if name == ImgNames[i] {
        return i;
      }
      i := i + 1;
    }
    return ImgUnknown;
  }

  // ---------------------------------------------------------------------
  // Signatures: the first four bytes read as a little-endian uint32
  // ---------------------------------------------------------------------

  const PngSig: U32 := 0x474e5089
  const JpegSig: U32 := 0xe0ffd8ff
  const Jpeg1Sig: U32 := 0xe1ffd8ff
  const LercSig: U32 := 0x5a746e43
  const Qb3Sig: U32 := 0x80334251

  /** Each constant is the little-endian reading of a fixed byte prefix:
      PNG (section 5.2 of ISO/IEC 15948), JPEG SOI followed by APP0 or APP1,
      and the ASCII "CntZ" that starts a LERC1 blob.  The QB3 constant is the
      same in both endianness branches, so here it matches "QB3" then 0x80. */
  lemma SignatureBytes()
    ensures PngSig == LeValue(0x89, 0x50, 0x4E, 0x47)
    ensures JpegSig == LeValue(0xFF, 0xD8, 0xFF, 0xE0)
    ensures Jpeg1Sig == LeValue(0xFF, 0xD8, 0xFF, 0xE1)
    ensures LercSig == LeValue(0x43, 0x6E, 0x74, 0x5A)
    ensures Qb3Sig == LeValue(0x51, 0x42, 0x33, 0x80)
    ensures |{PngSig, JpegSig, Jpeg1Sig, LercSig, Qb3Sig}| == 5
  {
  }

  /** The format a signature selects (the case labels of the dispatch switch). */
  function FormatOfSignature(sig: U32): (f: ImgType)
    ensures f != ImgAny
    ensures f == ImgJpeg <==> sig == JpegSig || sig == Jpeg1Sig
    ensures f == ImgPng <==> sig == PngSig
    ensures f == ImgLerc <==> sig == LercSig
    ensures f == ImgQb3 <==> sig == Qb3Sig
  {
    if sig == JpegSig || sig == Jpeg1Sig then ImgJpeg
    else if sig == PngSig then ImgPng
    else if sig == LercSig then ImgLerc
    else if sig == Qb3Sig then ImgQb3
    else ImgUnknown
  }

  // ---------------------------------------------------------------------
  // Raster descriptor
  // ---------------------------------------------------------------------

  datatype Sz5 = Sz5(x: SizeT, y: SizeT, z: SizeT, c: SizeT, l: SizeT) {
    /** `sz5::operator==`: all five fields agree */
    predicate Equals(other: Sz5): (r: bool)
      ensures r <==> this == other
    {
      x == other.x && y == other.y && z == other.z && c == other.c && l == other.l
    }

    /** `sz5::operator!=`: the negation of `==` */
    predicate NotEquals(other: Sz5): (r: bool)
      ensures r <==> this != other
    {
      !Equals(other)
    }
  }

  /** `Raster`; the doubles are reals (rounding is not modelled). */
  datatype Raster = Raster(
    size: Sz5,
    ndv: real, min: real, max: real, res: real,
    hasNdv: int, hasMin: int, hasMax: int,
    dt: DataType,
    format: ImgType)

  /** `storage_manager`: a caller-owned byte buffer and the size that is
      meaningful in it. An encoder receives the capacity in `size` and
      leaves the encoded length there. */
  class StorageManager {
    var buffer: seq<Byte>
    var size: SizeT

    constructor (b: seq<Byte>, n: SizeT)
      ensures buffer == b && size == n
    {
      buffer, size := b, n;
    }
  }

  /** Bytes in one tightly packed row: `getTypeSize(dt, x * c)`. */
  function RowBytes(r: Raster): SizeT {
    GetTypeSize(r.dt, SizeMul(r.size.x, r.size.c))
  }

  /** Bytes in the whole decoded raster: `getTypeSize(dt, x * y * c)`. */
  function BufferBytes(r: Raster): SizeT {
    GetTypeSize(r.dt, SizeMul(SizeMul(r.size.x, r.size.y), r.size.c))
  }

  lemma MulMonotone(x: nat, y: nat, c: nat)
    requires c >= 1
    ensures x * y >= 0 && (x * y) * c >= x * y
  {
  }

  /** For a known type and sizes that do not wrap, the decode buffer is
      exactly `y` tightly packed rows, and a non-empty row has a nonzero
      stride. */
  lemma BufferIsRowsTimesStride(r: Raster)
    requires IsKnownType(r.dt)
    requires 8 * (r.size.x * r.size.y * r.size.c) < Two64
    requires 8 * (r.size.x * r.size.c) < Two64
    ensures BufferBytes(r) == RowBytes(r) * r.size.y
    ensures r.size.x * r.size.c > 0 ==> RowBytes(r) > 0
  {
    var x: int, y: int, c: int := r.size.x, r.size.y, r.size.c;
    var k := x * c;
    var b := k * y;
    assert b == x * y * c;
    if c == 0 {
      assert SizeMul(SizeMul(x, y), c) == 0;
      assert k == 0;
    } else {
      var a := x * y;
      MulMonotone(x, y, c);
      assert a * c == b;
      assert SizeMul(x, y) == a;
      assert SizeMul(a, c) == b;
      assert SizeMul(x, c) == k;
      TypeSizeExact(r.dt, b);
      TypeSizeExact(r.dt, k);
      ScaleProduct(TypeWidth(r.dt), k, y);
    }
  }

  lemma ScaleProduct(w: int, k: int, y: int)
    ensures w * (k * y) == (w * k) * y
  {
  }

  /** `codec_params`: what every decoder receives. */
  class CodecParams {
    var raster: Raster
    /** Line size in bytes for decoding */
    var lineStride: SizeT
    var errorMessage: string
    /** Set when special data handling took place (the JPEG zero mask) */
    var modified: bool

    constructor (r: Raster)
      ensures raster == r && lineStride == RowBytes(r)
      ensures errorMessage == "" && !modified
    {
      raster := r;
      lineStride := 0;
      errorMessage := "";
      modified := false;
      new;
      Reset();
    }

    /** `reset`: recompute the default stride after the raster changed. */
    method Reset()
      modifies this`lineStride
      ensures lineStride == RowBytes(raster)
    {
      lineStride := GetTypeSize(raster.dt, SizeMul(raster.size.x, raster.size.c));
    }

    /** `get_buffer_size`: for a known type and sizes that do not wrap,
        `y` rows of the default stride. */
    function GetBufferSize(): (n: SizeT)
      reads this
      ensures (IsKnownType(raster.dt) && 8 * (raster.size.x * raster.size.y * raster.size.c) < Two64
               && 8 * (raster.size.x * raster.size.c) < Two64) ==> n == RowBytes(raster) * raster.size.y
    {
      if IsKnownType(raster.dt) && 8 * (raster.size.x * raster.size.y * raster.size.c) < Two64
         && 8 * (raster.size.x * raster.size.c) < Two64
      then BufferIsRowsTimesStride(raster); BufferBytes(raster)
      else BufferBytes(raster)
    }
  }

  /** LERC precision: half the resolution, raised to at least 0.5 for the
      integer types, so that integer data is lossless. */
  function LercPrecision(res: real, dt: DataType): (prec: real)
    ensures prec >= res / 2.0
    ensures dt < DtFloat ==> prec >= 0.5
    ensures dt >= DtFloat ==> prec == res / 2.0
    ensures prec == res / 2.0 || (dt < DtFloat && prec == 0.5)
  {
    if dt < DtFloat && res / 2.0 < 0.5 then 0.5 else res / 2.0
  }

  /** `lerc_params`: the common parameters plus the precision. */
  class LercParams {
    const codec: CodecParams
    /** half of the quantization step */
    var prec: real

    constructor (r: Raster)
      ensures fresh(codec)
      ensures codec.raster == r && codec.lineStride == RowBytes(r)
      ensures codec.errorMessage == "" && !codec.modified
      ensures prec == LercPrecision(r.res, r.dt)
    {
      codec := new CodecParams(r);
      prec := r.res / 2.0;
      new;
      if r.dt < DtFloat && prec < 0.5 {
        prec := 0.5;
      }
    }
  }

  // ---------------------------------------------------------------------
  // Dispatch
  // ---------------------------------------------------------------------

  /** What a per-format peek reports: the raster it filled in, and an
      error message or none. */
  datatype PeekResult = PeekResult(raster: Raster, error: Option<string>)

  /** `image_peek`: refuses a buffer shorter than the signature before
      reading it, then routes by signature. `peek` stands for the per-format
      header readers. */
  function ImagePeek(src: seq<Byte>, raster: Raster, peek: (ImgType, seq<Byte>, Raster) -> PeekResult): (r: PeekResult)
    ensures r.error.None? ==> |src| >= 4 && FormatOfSignature(ReadLeU32(src, 0)) != ImgUnknown
    ensures |src| < 4 || FormatOfSignature(ReadLeU32(src, 0)) == ImgUnknown ==> r.raster == raster && r.error.Some?
  {
    if |src| < 4 then PeekResult(raster, Some("Input buffer too small"))
    else
      var f := FormatOfSignature(ReadLeU32(src, 0));
      if f == ImgUnknown then PeekResult(raster, Some("Unknown format")) else peek(f, src, raster)
  }

  /** The magic numbers seen as the bytes that start the buffer: a buffer
      is handed to a format's reader exactly when it starts with that
      format's prefix, and any other prefix is an unknown format. */
  lemma {:induction false} PeekByMagic(src: seq<Byte>, raster: Raster, peek: (ImgType, seq<Byte>, Raster) -> PeekResult)
    requires |src| >= 4
    ensures var f := FormatOfSignature(ReadLeU32(src, 0));
      && (f == ImgJpeg <==> src[..4] == [0xFF, 0xD8, 0xFF, 0xE0] || src[..4] == [0xFF, 0xD8, 0xFF, 0xE1])
      && (f == ImgPng <==> src[..4] == [0x89, 0x50, 0x4E, 0x47])
      && (f == ImgLerc <==> src[..4] == [0x43, 0x6E, 0x74, 0x5A])
      && (f == ImgQb3 <==> src[..4] == [0x51, 0x42, 0x33, 0x80])
      && (f == ImgUnknown ==> ImagePeek(src, raster, peek) == PeekResult(raster, Some("Unknown format")))
      && (f != ImgUnknown ==> ImagePeek(src, raster, peek) == peek(f, src, raster))
  {
    var v := ReadLeU32(src, 0);
    assert LeBytes(v) == src[..4];
    SignatureBytes();
    LeValueBytes(0xFF, 0xD8, 0xFF, 0xE0);
    LeValueBytes(0xFF, 0xD8, 0xFF, 0xE1);
    LeValueBytes(0x89, 0x50, 0x4E, 0x47);
    LeValueBytes(0x43, 0x6E, 0x74, 0x5A);
    LeValueBytes(0x51, 0x42, 0x33, 0x80);
    LeRoundTrip(v);
  }

  /** `Raster::init` */
  function RasterInit(raster: Raster, src: seq<Byte>, peek: (ImgType, seq<Byte>, Raster) -> PeekResult): PeekResult {
    ImagePeek(src, raster, peek)
  }

  /** A buffer shorter than a signature is refused before any per-format
      reader is consulted: the answer is the same whatever they would do. */
  lemma ShortBufferNeverRouted(src: seq<Byte>, raster: Raster, p1: (ImgType, seq<Byte>, Raster) -> PeekResult, p2: (ImgType, seq<Byte>, Raster) -> PeekResult)
    requires |src| < 4
    ensures ImagePeek(src, raster, p1) == ImagePeek(src, raster, p2)
    ensures ImagePeek(src, raster, p1).error == Some("Input buffer too small")
  {
  }

  /** `stride_decode`: reads the signature (with no length check, hence the
      requires), sets `raster.format` to the detected format before handing
      over to that format's decoder, and keeps IMG_UNKNOWN otherwise.
      `decode` stands for the per-format stride decoders. */
  method StrideDecode(params: CodecParams, src: seq<Byte>, decode: (ImgType, Raster, seq<Byte>) -> Option<string>)
    returns (err: Option<string>)
    requires |src| >= 4
    modifies params`raster
    ensures var f := FormatOfSignature(ReadLeU32(src, 0));
      && params.raster == old(params.raster).(format := f)
      && err == if f == ImgUnknown then Some("Decode requested for unknown format")
                else decode(f, params.raster, src)
  {
    var sig := ReadLeU32(src, 0);
    params.raster := params.raster.(format := ImgUnknown);
    if sig == JpegSig || sig == Jpeg1Sig {
      params.raster := params.raster.(format := ImgJpeg);
      err := decode(ImgJpeg, params.raster, src);
    } else if sig == PngSig {
      params.raster := params.raster.(format := ImgPng);
      err := decode(ImgPng, params.raster, src);
    } else if sig == LercSig {
      params.raster := params.raster.(format := ImgLerc);
      err := decode(ImgLerc, params.raster, src);
    } else if sig == Qb3Sig {
      params.raster := params.raster.(format := ImgQb3);
      err := decode(ImgQb3, params.raster, src);
    } else {
      err := Some("Decode requested for unknown format");
    }
  }
}
