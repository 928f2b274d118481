/**
 * Image headers: the mime-type table, the width/height readers for PNG, GIF
 * and JPEG byte arrays, and the guards at the top of resolveImageSrc. Bytes
 * are Kotlin's signed bytes; Kotlin's 32-bit Int operations are written out
 * where the readers use them.
 */
module Images {
  import opened Wrappers

  /** A Kotlin Byte: signed, two's complement. */
  newtype Byte = x: int | -128 <= x < 128

  /** `b.toInt() and 0xFF`: the byte read as unsigned. */
  function Unsigned(b: Byte): (r: int)
    ensures 0 <= r < 256
    ensures (r - b as int) % 256 == 0
    ensures b >= 0 ==> r == b as int
  {
    if b < 0 then b as int + 256 else b as int
  }

  datatype ImageType = Avif | Webp | Apng | Png | Jpeg | Gif | Svg

  /** The entries in declaration order, which is the order fromMimeType searches. */
  const ENTRIES: seq<ImageType> := [Avif, Webp, Apng, Png, Jpeg, Gif, Svg]

  function MimeType(t: ImageType): string {
    match t
    case Avif => "image/avif"
    case Webp => "image/webp"
    case Apng => "image/apng"
    case Png => "image/png"
    case Jpeg => "image/jpeg"
    case Gif => "image/gif"
    case Svg => "image/svg+xml"
  }

  /** The first entry of `ts` whose mime type is `m`. */
  function Find(ts: seq<ImageType>, m: string): (r: Option<ImageType>)
    ensures r.None? <==> forall k :: 0 <= k < |ts| ==> MimeType(ts[k]) != m
    ensures r.Some? ==> exists k :: 0 <= k < |ts| && ts[k] == r.value && MimeType(ts[k]) == m
                                     && forall j :: 0 <= j < k ==> MimeType(ts[j]) != m
  {
    if |ts| == 0 then None
    else if MimeType(ts[0]) == m then Some(ts[0])
    else
      var r := Find(ts[1..], m);
      assert forall k :: 1 <= k < |ts| ==> ts[k] == ts[1..][k - 1];
      r
  }

  /** fromMimeType: the entry carrying this mime type, if any. */
  function FromMimeType(m: string): (r: Option<ImageType>)
    ensures r.Some? ==> MimeType(r.value) == m
    ensures r.None? <==> forall t: ImageType :: MimeType(t) != m
  {
    EntriesCoverAll(m);
    Find(ENTRIES, m)
  }

  lemma EntriesCoverAll(m: string)
    ensures (forall k :: 0 <= k < |ENTRIES| ==> MimeType(ENTRIES[k]) != m) <==> forall t: ImageType :: MimeType(t) != m
  {
    if forall k :: 0 <= k < |ENTRIES| ==> MimeType(ENTRIES[k]) != m {
      forall t: ImageType ensures MimeType(t) != m {
        var k := EntryIndex(t);
        assert MimeType(ENTRIES[k]) != m;
      }
    }
  }

  function EntryIndex(t: ImageType): (k: nat)
    ensures k < |ENTRIES| && ENTRIES[k] == t
  {
    match t
    case Avif => 0
    case Webp => 1
    case Apng => 2
    case Png => 3
    case Jpeg => 4
    case Gif => 5
    case Svg => 6
  }

  /** Every type is found again from its own mime type. */
  lemma FromMimeTypeRoundTrip(t: ImageType)
    ensures FromMimeType(MimeType(t)) == Some(t)
  {
    var r := FromMimeType(MimeType(t));
    assert r.Some?;
    MimeTypeInjective(r.value, t);
  }

  lemma MimeTypeInjective(s: ImageType, t: ImageType)
    requires MimeType(s) == MimeType(t)
    ensures s == t
  {
  }

  /** ALLOWED_IMAGE_TYPES. */
  const ALLOWED_IMAGE_TYPES: seq<ImageType> := [Png, Apng, Jpeg, Gif, Svg]

  /** Of the seven types, AVIF and WebP are the ones not allowed. */
  lemma AllowedTypes(t: ImageType)
    ensures t in ALLOWED_IMAGE_TYPES <==> !t.Avif? && !t.Webp?
  {
  }

  datatype ImageData = ImageData(width: int, height: int, blob: seq<Byte>)

  /** The exceptions the readers can throw. */
  datatype ImageError =
    | InvalidJpeg            // IllegalArgumentException("Invalid JPEG data")
    | IndexOutOfBounds       // a read past the end of the array
    | SourceNotProvided      // IllegalArgumentException: null or blank src
    | NotAbsoluteUrl         // IllegalArgumentException: neither http nor data:
    | InvalidDataUri         // IllegalArgumentException from parseDataUri

  // ---------------------------------------------------------------------------
  // PNG
  // ---------------------------------------------------------------------------

  /** parsePNG: width from byte 18, height from byte 22, each read as unsigned. */
  function ParsePng(buf: seq<Byte>): (r: Result<ImageData, ImageError>)
    ensures r.Ok? <==> |buf| >= 23
    ensures r.Err? ==> r.error == IndexOutOfBounds
    ensures r.Ok? ==> r.value.blob == buf && 0 <= r.value.width < 256 && 0 <= r.value.height < 256
  {
    if |buf| <= 22 then Err(IndexOutOfBounds)
    else Ok(ImageData(Unsigned(buf[18]), Unsigned(buf[22]), buf))
  }

  /** A big-endian unsigned number, as the PNG IHDR chunk stores width and height. */
  function BigEndian(bs: seq<Byte>): (r: nat)
  {
    if |bs| == 0 then 0 else BigEndian(bs[..|bs| - 1]) * 256 + Unsigned(bs[|bs| - 1])
  }

  lemma BigEndian4(bs: seq<Byte>)
    requires |bs| == 4
    ensures BigEndian(bs) == ((Unsigned(bs[0]) * 256 + Unsigned(bs[1])) * 256 + Unsigned(bs[2])) * 256 + Unsigned(bs[3])
  {
    assert bs[..3][..2][..1] == [bs[0]] && bs[..3][..2][..1][..0] == [];
    assert BigEndian(bs[..1]) == Unsigned(bs[0]);
    assert bs[..3][..2] == bs[..2] && BigEndian(bs[..2]) == Unsigned(bs[0]) * 256 + Unsigned(bs[1]);
    assert bs[..3] == bs[..3] && BigEndian(bs[..3]) == BigEndian(bs[..2]) * 256 + Unsigned(bs[2]);
  }

  /**
   * The PNG reader takes the second-lowest byte of each 4-byte IHDR field
   * (the width at bytes 16-19, the height at 20-23, big-endian).
   */
  lemma PngReadsOneByteOfIhdr(buf: seq<Byte>)
    requires |buf| >= 24
    ensures ParsePng(buf).value.width == (BigEndian(buf[16..20]) / 256) % 256
    ensures ParsePng(buf).value.height == (BigEndian(buf[20..24]) / 256) % 256
  {
    BigEndian4(buf[16..20]);
    BigEndian4(buf[20..24]);
    SecondByte(Unsigned(buf[16]), Unsigned(buf[17]), Unsigned(buf[18]), Unsigned(buf[19]));
    SecondByte(Unsigned(buf[20]), Unsigned(buf[21]), Unsigned(buf[22]), Unsigned(buf[23]));
  }

  lemma SecondByte(a: int, b: int, c: int, d: int)
    requires 0 <= a < 256 && 0 <= b < 256 && 0 <= c < 256 && 0 <= d < 256
    ensures ((((a * 256 + b) * 256 + c) * 256 + d) / 256) % 256 == c
  {
    var n := ((a * 256 + b) * 256 + c) * 256 + d;
    assert n == (((a * 256 + b) * 256 + c)) * 256 + d;
    assert n / 256 == (a * 256 + b) * 256 + c;
  }

  /** A 100-pixel-wide PNG reads as width 0. */
  lemma PngNarrowImage()
    ensures var buf := seq(24, k => if k == 19 then 100 as Byte else 0 as Byte);
            BigEndian(buf[16..20]) == 100 && ParsePng(buf).value.width == 0
  {
    var buf := seq(24, k => if k == 19 then 100 as Byte else 0 as Byte);
    BigEndian4(buf[16..20]);
  }

  /** The reading the PNG specification gives: both IHDR fields whole. */
  function ParsePngIhdr(buf: seq<Byte>): (r: Result<ImageData, ImageError>)
    ensures r.Ok? <==> |buf| >= 24
    ensures r.Ok? ==> r.value.blob == buf && r.value.width < 0x1_0000_0000 && r.value.height < 0x1_0000_0000
  {
    if |buf| < 24 then Err(IndexOutOfBounds)
    else
      BigEndian4(buf[16..20]);
      BigEndian4(buf[20..24]);
      Ok(ImageData(BigEndian(buf[16..20]), BigEndian(buf[20..24]), buf))
  }

  /** The whole-field reader agrees with parsePNG on the byte parsePNG reads. */
  lemma PngIhdrRefines(buf: seq<Byte>)
    requires |buf| >= 24
    ensures ParsePng(buf).value.width == (ParsePngIhdr(buf).value.width / 256) % 256
    ensures ParsePng(buf).value.height == (ParsePngIhdr(buf).value.height / 256) % 256
  {
    PngReadsOneByteOfIhdr(buf);
  }

  // ---------------------------------------------------------------------------
  // Kotlin Int bit operations
  // ---------------------------------------------------------------------------

  const TWO_POW_32: int := 0x1_0000_0000

  predicate IsInt32(x: int) {
    -0x8000_0000 <= x < 0x8000_0000
  }

  function Pow2(n: nat): (r: nat)
    ensures r >= 1
  {
    if n == 0 then 1 else 2 * Pow2(n - 1)
  }

  /** The 32 bits of a Kotlin Int, read as unsigned. */
  function ToBits(x: int): (u: int)
    requires IsInt32(x)
    ensures 0 <= u < TWO_POW_32 && (u - x) % TWO_POW_32 == 0
  {
    if x < 0 then x + TWO_POW_32 else x
  }

  /** The Kotlin Int with these 32 bits. */
  function FromBits(u: int): (x: int)
    requires 0 <= u < TWO_POW_32
    ensures IsInt32(x) && ToBits(x) == u
  {
    if u >= 0x8000_0000 then u - TWO_POW_32 else u
  }

  /** Bitwise or of the low `n` bits of two naturals. */
  function OrBits(a: nat, b: nat, n: nat): (r: nat)
    ensures r < Pow2(n)
    decreases n
  {
    if n == 0 then 0
    else (if a % 2 == 1 || b % 2 == 1 then 1 else 0) + 2 * OrBits(a / 2, b / 2, n - 1)
  }

  /** Kotlin's `x or y` on Int. */
  function Or(x: int, y: int): (r: int)
    requires IsInt32(x) && IsInt32(y)
    ensures IsInt32(r)
  {
    Pow2Facts();
    FromBits(OrBits(ToBits(x), ToBits(y), 32))
  }

  /** Kotlin's `x shl 8` on Int, dropping the bits shifted out. */
  function Shl8(x: int): (r: int)
    requires IsInt32(x)
    ensures IsInt32(r)
  {
    FromBits((ToBits(x) * 256) % TWO_POW_32)
  }

  lemma {:induction false} Pow2Add(a: nat, b: nat)
    ensures Pow2(a + b) == Pow2(a) * Pow2(b)
  {
    if a > 0 {
      Pow2Add(a - 1, b);
    }
  }

  lemma Pow2Facts()
    ensures Pow2(8) == 256 && Pow2(24) == 0x100_0000 && Pow2(32) == TWO_POW_32
  {
    assert Pow2(2) == 4;
    Pow2Add(2, 2);
    Pow2Add(4, 4);
    Pow2Add(8, 8);
    Pow2Add(16, 8);
    Pow2Add(16, 16);
  }

  /** `h` shifted above `l` by a factor `p`: the number whose low part is `l` and high part `h`. */
  function Place(h: nat, p: nat, l: nat): nat {
    h * p + l
  }

  /** The bits of `h * 2P + l` past the lowest are those of `h * P + l / 2`. */
  lemma Halve(h: nat, l: nat, p: nat, big: nat)
    requires big == 2 * p
    ensures Place(h, big, l) % 2 == l % 2
    ensures Place(h, big, l) / 2 == Place(h, p, l / 2)
  {
    assert h * big + l == 2 * (h * p + l / 2) + l % 2;
  }

  /** One step of OrBits: the lowest bit, then the rest shifted down. */
  lemma OrStep(a: nat, b: nat, n: nat)
    requires n > 0
    ensures OrBits(a, b, n) == (if a % 2 == 1 || b % 2 == 1 then 1 else 0) + 2 * OrBits(a / 2, b / 2, n - 1)
  {
  }

  /** Or-ing with zero keeps the low `n` bits. */
  lemma {:induction false} OrZero(a: nat, n: nat)
    requires a < Pow2(n)
    ensures OrBits(a, 0, n) == a
  {
    if n > 0 {
      OrZero(a / 2, n - 1);
    }
  }

  /** Or-ing into all ones gives all ones. */
  lemma {:induction false} OrOnes(b: nat, n: nat)
    ensures OrBits(Pow2(n) - 1, b, n) == Pow2(n) - 1
  {
    if n > 0 {
      var p := Pow2(n - 1);
      OddHalf(p);
      assert OrBits(Pow2(n) - 1, b, n) == 1 + 2 * OrBits(p - 1, b / 2, n - 1);
      OrOnes(b / 2, n - 1);
    }
  }

  lemma OddHalf(p: nat)
    requires p >= 1
    ensures (2 * p - 1) % 2 == 1 && (2 * p - 1) / 2 == p - 1
  {
  }

  /** Or works on the low `k` bits and on the rest independently. */
  lemma {:induction false} OrSplit(ah: nat, al: nat, bh: nat, bl: nat, k: nat, n: nat)
    requires k <= n && al < Pow2(k) && bl < Pow2(k)
    ensures OrBits(Place(ah, Pow2(k), al), Place(bh, Pow2(k), bl), n) == OrBits(al, bl, k) + Pow2(k) * OrBits(ah, bh, n - k)
  {
    if k > 0 {
      var p, big := Pow2(k - 1), Pow2(k);
      assert big == 2 * p;
      var a, b := Place(ah, big, al), Place(bh, big, bl);
      Halve(ah, al, p, big);
      Halve(bh, bl, p, big);
      OrStep(a, b, n);
      OrSplit(ah, al / 2, bh, bl / 2, k - 1, n - 1);
      OrStep(al, bl, k);
      var lowBit := if al % 2 == 1 || bl % 2 == 1 then 1 else 0;
      var x, y := OrBits(ah, bh, n - k), OrBits(al / 2, bl / 2, k - 1);
      Combine(OrBits(a, b, n), lowBit, y, p, big, x, OrBits(Place(ah, p, al / 2), Place(bh, p, bl / 2), n - 1));
    } else {
      OrSplitBase(ah, al, bh, bl, k, n);
    }
  }

  lemma OrSplitBase(ah: nat, al: nat, bh: nat, bl: nat, k: nat, n: nat)
    requires k == 0 && al < Pow2(k) && bl < Pow2(k)
    ensures OrBits(Place(ah, Pow2(k), al), Place(bh, Pow2(k), bl), n) == OrBits(al, bl, k) + Pow2(k) * OrBits(ah, bh, n - k)
  {
    assert Pow2(k) == 1 && al == 0 && bl == 0;
  }

  lemma Combine(o: int, w: int, y: int, p: int, big: int, x: int, r: int)
    requires o == w + 2 * r && r == y + p * x && big == 2 * p
    ensures o == (w + 2 * y) + big * x
  {
  }

  /** Shifting a sign-extended byte left by 8 multiplies it by 256; its low 8 bits are then zero. */
  lemma ShiftedByte(hi: Byte)
    ensures Shl8(hi as int) == 256 * hi as int
    ensures ToBits(Shl8(hi as int)) % 256 == 0
  {
    var u := ToBits(hi as int);
    if hi < 0 {
      assert u * 256 == 256 * hi as int + TWO_POW_32 * 256;
      assert (u * 256) % TWO_POW_32 == 256 * hi as int + TWO_POW_32;
    } else {
      assert (u * 256) % TWO_POW_32 == 256 * hi as int;
    }
  }

  /** `lo or (hi shl 8)` on sign-extended bytes, in closed form. */
  lemma ByteWord(lo: Byte, hi: Byte)
    ensures Or(lo as int, Shl8(hi as int)) == if lo < 0 then lo as int else lo as int + 256 * hi as int
  {
    if lo < 0 {
      ByteWordNegative(lo, hi);
    } else {
      ByteWordPositive(lo, hi);
    }
  }

  lemma ByteWordNegative(lo: Byte, hi: Byte)
    requires lo < 0
    ensures Or(lo as int, Shl8(hi as int)) == lo as int
  {
    var b := HighBits(hi);
    NegativeLow(lo, b / 256);
    OrValue(lo as int, Shl8(hi as int), lo as int);
  }

  /** An Int whose bits are the or of the bits of `x` and `y` is `x or y`. */
  lemma OrValue(x: int, y: int, v: int)
    requires IsInt32(x) && IsInt32(y) && IsInt32(v)
    requires OrBits(ToBits(x), ToBits(y), 32) == ToBits(v)
    ensures Or(x, y) == v
  {
    Pow2Facts();
    assert FromBits(ToBits(v)) == v;
  }

  lemma ByteWordPositive(lo: Byte, hi: Byte)
    requires lo >= 0
    ensures Or(lo as int, Shl8(hi as int)) == lo as int + 256 * hi as int
  {
    var b := HighBits(hi);
    PositiveLow(lo, b / 256);
    WordBits(lo, hi, b);
    OrValue(lo as int, Shl8(hi as int), lo as int + 256 * hi as int);
  }

  /** The bits of a shifted byte: a multiple of 256 below 2^32. */
  lemma HighBits(hi: Byte) returns (b: nat)
    ensures b == ToBits(Shl8(hi as int)) && b == (b / 256) * 256 && b / 256 < 0x100_0000
    ensures b == ToBits(256 * hi as int)
  {
    ShiftedByte(hi);
    b := ToBits(Shl8(hi as int));
  }

  lemma WordBits(lo: Byte, hi: Byte, b: int)
    requires lo >= 0 && b == ToBits(256 * hi as int)
    ensures lo as int + b == ToBits(lo as int + 256 * hi as int)
  {
  }

  /** A non-negative low byte fills the eight bits the shifted high byte leaves clear. */
  lemma PositiveLow(lo: Byte, bh: nat)
    requires lo >= 0 && bh < 0x100_0000
    ensures OrBits(ToBits(lo as int), bh * 256, 32) == lo as int + 256 * bh
  {
    Pow2Facts();
    var al := lo as int;
    OrSplit(0, al, bh, 0, 8, 32);
    OrZero(al, 8);
    OrZeroLeft(bh, 24);
    assert Place(0, Pow2(8), al) == ToBits(lo as int) && Place(bh, Pow2(8), 0) == bh * 256;
  }

  lemma NegativeLow(lo: Byte, bh: nat)
    requires lo < 0 && bh < 0x100_0000
    ensures Pow2(8) == 256 && Pow2(24) == 0x100_0000 && Pow2(32) == TWO_POW_32
    ensures OrBits(ToBits(lo as int), bh * 256, 32) == ToBits(lo as int)
  {
    Pow2Facts();
    var al := lo as int + 256;
    OrSplit(Pow2(24) - 1, al, bh, 0, 8, 32);
    OrZero(al, 8);
    OrOnes(bh, 24);
    assert Place(Pow2(24) - 1, Pow2(8), al) == ToBits(lo as int) && Place(bh, Pow2(8), 0) == bh * 256;
  }

  lemma {:induction false} OrZeroLeft(b: nat, n: nat)
    requires b < Pow2(n)
    ensures OrBits(0, b, n) == b
  {
    if n > 0 {
      OrZeroLeft(b / 2, n - 1);
    }
  }

  // ---------------------------------------------------------------------------
  // GIF
  // ---------------------------------------------------------------------------

  /** `buf[lo].toInt() or (buf[hi].toInt() shl 8)`. */
  function GifField(lo: Byte, hi: Byte): (r: int)
    ensures r == if lo < 0 then lo as int else lo as int + 256 * hi as int
  {
    ByteWord(lo, hi);
    Or(lo as int, Shl8(hi as int))
  }

  /** parseGIF: width from bytes 6-7, height from bytes 8-9, each byte sign-extended before the or. */
  function ParseGif(buf: seq<Byte>): (r: Result<ImageData, ImageError>)
    ensures r.Ok? <==> |buf| >= 10
    ensures r.Err? ==> r.error == IndexOutOfBounds
  {
    if |buf| < 10 then Err(IndexOutOfBounds)
    else Ok(ImageData(GifField(buf[6], buf[7]), GifField(buf[8], buf[9]), buf))
  }

  /** Little-endian 16-bit, the Logical Screen Width and Height layout of GIF89a. */
  function LittleEndian16(lo: Byte, hi: Byte): (r: int)
    ensures 0 <= r < 0x1_0000
  {
    Unsigned(lo) + 256 * Unsigned(hi)
  }

  /**
   * The GIF reader in closed form: a low byte of 0x80 or more is
   * sign-extended and its ones cover the high byte, so the field is that
   * negative byte; otherwise the field is the low byte plus 256 times the
   * signed high byte.
   */
  lemma GifFieldClosedForm(buf: seq<Byte>)
    requires |buf| >= 10
    ensures var d := ParseGif(buf).value;
            && d.blob == buf
            && d.width == (if buf[6] < 0 then buf[6] as int else buf[6] as int + 256 * buf[7] as int)
            && d.height == (if buf[8] < 0 then buf[8] as int else buf[8] as int + 256 * buf[9] as int)
  {
    ByteWord(buf[6], buf[7]);
    ByteWord(buf[8], buf[9]);
  }

  /** When no byte has its top bit set, parseGIF reads both fields little-endian. */
  lemma GifAgreesBelow0x80(buf: seq<Byte>)
    requires |buf| >= 10 && buf[6] >= 0 && buf[7] >= 0 && buf[8] >= 0 && buf[9] >= 0
    ensures ParseGif(buf).value.width == LittleEndian16(buf[6], buf[7])
    ensures ParseGif(buf).value.height == LittleEndian16(buf[8], buf[9])
  {
    GifFieldClosedForm(buf);
  }

  /** A GIF 200 pixels wide (byte 6 is 0xC8) reads as width -56. */
  lemma GifWideImage()
    ensures var buf := seq(10, k => if k == 6 then -56 as Byte else 0 as Byte);
            LittleEndian16(buf[6], buf[7]) == 200 && ParseGif(buf).value.width == -56
  {
    var buf := seq(10, k => if k == 6 then -56 as Byte else 0 as Byte);
    GifFieldClosedForm(buf);
  }

  /** parseGIF reading each field as an unsigned little-endian 16-bit number. */
  function ParseGifUnsigned(buf: seq<Byte>): (r: Result<ImageData, ImageError>)
    ensures r.Ok? <==> |buf| >= 10
    ensures r.Ok? ==> 0 <= r.value.width < 0x1_0000 && 0 <= r.value.height < 0x1_0000
  {
    if |buf| < 10 then Err(IndexOutOfBounds)
    else Ok(ImageData(LittleEndian16(buf[6], buf[7]), LittleEndian16(buf[8], buf[9]), buf))
  }

  /** The unsigned reader agrees with parseGIF exactly where parseGIF is right. */
  lemma GifUnsignedRefines(buf: seq<Byte>)
    requires |buf| >= 10 && buf[6] >= 0 && buf[7] >= 0 && buf[8] >= 0 && buf[9] >= 0
    ensures ParseGifUnsigned(buf) == ParseGif(buf)
  {
    GifAgreesBelow0x80(buf);
    var u, g := ParseGifUnsigned(buf).value, ParseGif(buf).value;
    assert u.width == g.width && u.height == g.height && u.blob == g.blob;
  }

  // ---------------------------------------------------------------------------
  // JPEG
  // ---------------------------------------------------------------------------

  /** The marker bytes 0xC0, 0xC1, 0xC2 as Kotlin signed bytes: start of frame (SOF0-SOF2) in ITU-T T.81. */
  predicate IsSof(b: Byte) {
    b == -64 || b == -63 || b == -62
  }

  lemma SofMarkers(b: Byte)
    ensures IsSof(b) <==> 0xC0 <= Unsigned(b) <= 0xC2
  {
  }

  /**
   * The scan loop of parseJPEG from `offset` on: read a one-byte segment
   * length i, fail when it exceeds the array's length, look at the byte
   * i + 1 further on, and either read the frame size there or move on by
   * i + 2.
   */
  function ScanJpeg(buf: seq<Byte>, offset: nat): (r: Result<ImageData, ImageError>)
    ensures r.Ok? ==> r.value.blob == buf && 0 <= r.value.width < 256 && 0 <= r.value.height < 256
    decreases |buf| - offset
  {
    if offset >= |buf| then Err(InvalidJpeg)
    else
      var i := Unsigned(buf[offset]);
      if i > |buf| then Err(InvalidJpeg)
      else if i + 1 + offset >= |buf| then Err(IndexOutOfBounds)
      else if IsSof(buf[i + 1 + offset]) then
        if i + 7 + offset >= |buf| then Err(IndexOutOfBounds)
        else Ok(ImageData(Unsigned(buf[i + 7 + offset]), Unsigned(buf[i + 5 + offset]), buf))
      else ScanJpeg(buf, offset + i + 2)
  }

  /** parseJPEG: the scan starts past the four magic bytes. */
  function ParseJpeg(buf: seq<Byte>): Result<ImageData, ImageError> {
    ScanJpeg(buf, 4)
  }

  /** parseJPEG as the loop the source runs. */
  method ParseJpegLoop(buf: seq<Byte>) returns (r: Result<ImageData, ImageError>)
    ensures r == ParseJpeg(buf)
  {
    var offset := 4;
    var len := |buf|;
    while offset < len
      invariant offset >= 4
      invariant ScanJpeg(buf, offset) == ScanJpeg(buf, 4)
      decreases len - offset
    {
      var i := Unsigned(buf[offset]);
      if i > len {
        return Err(InvalidJpeg);
      }
      if i + 1 + offset >= len {
        return Err(IndexOutOfBounds);
      }
      var next := buf[i + 1 + offset];
      if IsSof(next) {
        if i + 7 + offset >= len {
          return Err(IndexOutOfBounds);
        }
        return Ok(ImageData(Unsigned(buf[i + 7 + offset]), Unsigned(buf[i + 5 + offset]), buf));
      }
      offset := offset + i + 2;
    }
    return Err(InvalidJpeg);
  }

  /**
   * A successful scan stopped at a start-of-frame marker at or past the
   * starting offset: the height is the byte four past the marker and the
   * width the byte six past it.
   */
  lemma {:induction false} JpegSizeFromSof(buf: seq<Byte>, offset: nat)
    requires ScanJpeg(buf, offset).Ok?
    ensures exists m :: offset < m && m + 6 < |buf| && IsSof(buf[m])
                        && ScanJpeg(buf, offset).value.height == Unsigned(buf[m + 4])
                        && ScanJpeg(buf, offset).value.width == Unsigned(buf[m + 6])
    decreases |buf| - offset
  {
    var i := Unsigned(buf[offset]);
    if IsSof(buf[i + 1 + offset]) {
      var m := i + 1 + offset;
      assert m + 6 < |buf| && IsSof(buf[m]);
    } else {
      JpegSizeFromSof(buf, offset + i + 2);
    }
  }

  /** Without a start-of-frame byte past the starting offset, the scan fails. */
  lemma {:induction false} JpegWithoutSofFails(buf: seq<Byte>, offset: nat)
    requires forall m :: offset < m < |buf| ==> !IsSof(buf[m])
    ensures ScanJpeg(buf, offset).Err?
    decreases |buf| - offset
  {
    if offset < |buf| {
      var i := Unsigned(buf[offset]);
      if i <= |buf| && i + 1 + offset < |buf| {
        assert !IsSof(buf[i + 1 + offset]);
        JpegWithoutSofFails(buf, offset + i + 2);
      }
    }
  }

  /** A segment length byte larger than the array always fails, wherever the scan stands. */
  lemma JpegLengthTooLarge(buf: seq<Byte>, offset: nat)
    requires offset < |buf| && Unsigned(buf[offset]) > |buf|
    ensures ScanJpeg(buf, offset) == Err(InvalidJpeg)
  {
  }

  // ---------------------------------------------------------------------------
  // resolveImageSrc
  // ---------------------------------------------------------------------------

  /** Kotlin's Char.isWhitespace: the Unicode space separators and the ASCII controls Java counts as whitespace. */
  predicate IsWhitespace(c: char) {
    var n := c as int;
    || (0x09 <= n <= 0x0D) || (0x1C <= n <= 0x20)
    || n == 0xA0 || n == 0x1680 || (0x2000 <= n <= 0x200A)
    || n == 0x2028 || n == 0x2029 || n == 0x202F || n == 0x205F || n == 0x3000
  }

  /** isBlank: empty or whitespace only. */
  predicate IsBlank(s: string) {
    forall k :: 0 <= k < |s| ==> IsWhitespace(s[k])
  }

  predicate StartsWith(s: string, prefix: string) {
    |prefix| <= |s| && s[..|prefix|] == prefix
  }

  /**
   * resolveImageSrc: the guards on `src`, then the data-URI parse (whose
   * regex is the parameter `dataUriMatches`), then the GIF reader on an
   * empty array, which reads past its end (the unsigned reader fails there
   * exactly as parseGIF does). No source yields an image.
   */
  function ResolveImageSrc(src: Option<string>, dataUriMatches: string -> bool): (r: Result<ImageData, ImageError>)
    ensures r.Err?
    ensures r.error == SourceNotProvided <==> src.None? || IsBlank(src.value)
    ensures r.error == NotAbsoluteUrl <==>
              src.Some? && !IsBlank(src.value) && !StartsWith(src.value, "http") && !StartsWith(src.value, "data:")
    ensures (src.Some? && StartsWith(src.value, "http")) ==> r.error == IndexOutOfBounds
  {
    PrefixedNotBlank(src);
    HttpIsNotData(src);
    if src.None? || IsBlank(src.value) then Err(SourceNotProvided)
    else
      var s := src.value;
      if !StartsWith(s, "http") && !StartsWith(s, "data:") then Err(NotAbsoluteUrl)
      else if StartsWith(s, "data:") && !dataUriMatches(s) then Err(InvalidDataUri)
      else ParseGifUnsigned([])
  }

  /** A source with one of the two accepted prefixes is not blank. */
  lemma PrefixedNotBlank(src: Option<string>)
    ensures (src.Some? && (StartsWith(src.value, "http") || StartsWith(src.value, "data:"))) ==> !IsBlank(src.value)
  {
    if src.Some? && (StartsWith(src.value, "http") || StartsWith(src.value, "data:")) {
      assert !IsWhitespace(src.value[0]);
    }
  }

  /** No source carries both prefixes. */
  lemma HttpIsNotData(src: Option<string>)
    ensures (src.Some? && StartsWith(src.value, "http")) ==> !StartsWith(src.value, "data:")
  {
    if src.Some? && StartsWith(src.value, "http") {
      assert src.value[0] == 'h';
    }
  }

  /** A data URI gets past the guards exactly as far as the data-URI parse lets it. */
  lemma DataUriOutcome(s: string, dataUriMatches: string -> bool)
    requires StartsWith(s, "data:")
    ensures ResolveImageSrc(Some(s), dataUriMatches).error == if dataUriMatches(s) then IndexOutOfBounds else InvalidDataUri
  {
    PrefixedNotBlank(Some(s));
  }
}
