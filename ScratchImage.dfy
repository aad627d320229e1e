/**
 * The bitmap decoder of a Scratch image resource (Greenfoot's Scratch
 * importer).  The bits of a Squeak Form arrive as a byte array compressed
 * with the scheme of Squeak's Bitmap compress:toByteArray:.  After a leading
 * total-length field, each code packs a word count and one of four ops
 * (skip, replicate one byte, replicate one word, copy words).  Each decoded
 * 32-bit word is unpacked into 32 / d pixels of d bits and written into a
 * w x h pixel buffer, through the palette when there is one.
 *
 * Java's 32-bit int arithmetic is modelled where the decoder relies on it:
 * Int32 wraps a value into the int range, Java's truncating / and % are
 * JavaDiv and JavaRem, >> on an int is floor division by a power of two,
 * and & with 0x3 or with a low-bit mask is Euclidean %.
 *
 * setBitmapEntry as written places pixel i of a word one column too far
 * right (EntryKeepsFirstColumn); the decoding functions take a flag that
 * selects the as-written or the corrected column, and the ScratchImage
 * class decodes with the corrected one (EntryFixedCells).
 */
module ScratchImage {
  import opened Arith
  import opened Strings

  type Byte = b: int | 0 <= b < 256

  const TWO31 := 0x8000_0000
  const TWO32 := 0x1_0000_0000

  /** The Java int with the low 32 bits of v. */
  function Int32(v: int): (r: int)
    ensures -TWO31 <= r < TWO31 && (r - v) % TWO32 == 0
    ensures 0 <= v < TWO31 ==> r == v
  {
    var u := v % TWO32;
    if u >= TWO31 then u - TWO32 else u
  }

  function Min(a: int, b: int): int
  {
    if a <= b then a else b
  }

  function Max(a: int, b: int): int
  {
    if a >= b then a else b
  }

  // ---------------------------------------------------------------------
  // The byte stream

  /** ByteArrayInputStream.read() at position p: the byte there, or -1 at the end. */
  function ByteAt(data: seq<Byte>, p: nat): (b: int)
    ensures -1 <= b < 256 && (b == -1 <==> p >= |data|)
  {
    if p < |data| then data[p] else -1
  }

  /** A ByteArrayInputStream over the compressed bits. */
  class ByteInput {
    const data: seq<Byte>
    var pos: nat

    predicate Valid()
      reads this
    {
      pos <= |data|
    }

    constructor (data: seq<Byte>)
      ensures this.data == data && pos == 0 && Valid()
    {
      this.data := data;
      pos := 0;
    }

    /** read(): the next byte, or -1 (and no move) at the end. */
    method Read() returns (b: int)
      requires Valid()
      modifies this
      ensures Valid() && b == ByteAt(data, old(pos)) && pos == Min(old(pos) + 1, |data|)
    {
      if pos < |data| {
        b := data[pos];
        pos := pos + 1;
      } else {
        b := -1;
      }
    }
  }

  // ---------------------------------------------------------------------
  // Words and count fields

  /**
   * x <<= 8; x |= b, for b a result of read().  The shifted value has its
   * low eight bits clear, so or-ing in a byte adds it; -1 has every bit set.
   */
  function ShiftIn(x: int, b: int): (r: int)
    requires -1 <= b < 256
  {
    if b == -1 then -1 else Int32(x * 256) + b
  }

  /** x after n rounds of x <<= 8; x |= read(), from x == 0 and the stream at p. */
  function Word(data: seq<Byte>, p: nat, n: nat): int
    requires n <= 4
  {
    if n == 0 then 0 else ShiftIn(Word(data, p, n - 1), ByteAt(data, p + n - 1))
  }

  /** The big-endian value of four bytes. */
  function BigEndian(b0: Byte, b1: Byte, b2: Byte, b3: Byte): int
  {
    b0 * 0x100_0000 + b1 * 0x1_0000 + b2 * 0x100 + b3
  }

  /** Four bytes read in full make the big-endian word, wrapped into an int. */
  lemma WordBigEndian(data: seq<Byte>, p: nat)
    requires p + 4 <= |data|
    ensures Word(data, p, 4) == Int32(BigEndian(data[p], data[p + 1], data[p + 2], data[p + 3]))
  {
    var b0: int, b1: int, b2: int, b3: int := data[p], data[p + 1], data[p + 2], data[p + 3];
    assert Word(data, p, 1) == b0;
    assert Word(data, p, 2) == b0 * 256 + b1;
    assert Word(data, p, 3) == (b0 * 256 + b1) * 256 + b2;
    var v3 := (b0 * 256 + b1) * 256 + b2;
    assert Word(data, p, 4) == Int32(v3 * 256) + b3;
    assert BigEndian(b0, b1, b2, b3) == v3 * 256 + b3;
  }

  /** A word cut short by the end of the stream reads as -1. */
  lemma WordTruncated(data: seq<Byte>, p: nat)
    requires p + 4 > |data|
    ensures Word(data, p, 4) == -1
  {
    var n: nat := if |data| <= p then 1 else |data| - p + 1;
    assert ByteAt(data, p + n - 1) == -1;
    var k := n;
    while k < 4
      invariant n <= k <= 4 && Word(data, p, k) == -1
    {
      k := k + 1;
    }
  }

  /**
   * decodeLen: the value of the count field at p and the position after it.
   * A first byte below 0xE0 is the value; 0xE0 to 0xFE carry the high five
   * bits of a two-byte value; 0xFF is followed by a four-byte value.
   */
  function DecodeLen(data: seq<Byte>, p: nat): (r: (int, nat))
    requires p <= |data|
    ensures r.1 <= |data| && (r.0 != -1 ==> p < r.1)
  {
    var first := ByteAt(data, p);
    if first == -1 then (-1, p)
    else if first == 0xFF then (Word(data, p + 1, 4), Min(p + 5, |data|))
    else if first >= 0xE0 then (ShiftIn(first % 0x20, ByteAt(data, p + 1)), Min(p + 2, |data|))
    else (first, p + 1)
  }

  /** A first byte below 0xE0 is the value itself, and one byte is read. */
  lemma DecodeLenOneByte(data: seq<Byte>, p: nat)
    requires p < |data| && data[p] < 0xE0
    ensures DecodeLen(data, p) == (data[p], p + 1)
  {
  }

  /** A first byte from 0xE0 to 0xFE gives a value below 0x2000 from two bytes. */
  lemma DecodeLenTwoBytes(data: seq<Byte>, p: nat)
    requires p + 2 <= |data| && 0xE0 <= data[p] < 0xFF
    ensures DecodeLen(data, p) == ((data[p] as int - 0xE0) * 0x100 + data[p + 1] as int, p + 2)
    ensures 0 <= DecodeLen(data, p).0 < 0x2000
  {
  }

  /** A first byte of 0xFF gives the next four bytes big-endian, five bytes read. */
  lemma DecodeLenFiveBytes(data: seq<Byte>, p: nat)
    requires p + 5 <= |data| && data[p] == 0xFF
    ensures DecodeLen(data, p) == (Int32(BigEndian(data[p + 1], data[p + 2], data[p + 3], data[p + 4])), p + 5)
  {
    WordBigEndian(data, p + 1);
  }

  /**
   * decodeLen gives -1 at the end of the stream, and also when the field is
   * cut short or is 0xFF followed by four 0xFF bytes (the int -1).
   */
  lemma DecodeLenMinusOne(data: seq<Byte>, p: nat)
    requires p <= |data|
    ensures DecodeLen(data, p).0 == -1 <==>
              p == |data| ||
              (0xE0 <= data[p] < 0xFF && p + 2 > |data|) ||
              (data[p] == 0xFF && (p + 5 > |data| || data[p + 1..p + 5] == [0xFF, 0xFF, 0xFF, 0xFF]))
  {
    if p < |data| && data[p] == 0xFF {
      if p + 5 > |data| {
        WordTruncated(data, p + 1);
      } else {
        WordBigEndian(data, p + 1);
        var s := data[p + 1..p + 5];
        assert s[0] == data[p + 1] && s[1] == data[p + 2] && s[2] == data[p + 3] && s[3] == data[p + 4];
      }
    }
  }

  /** A count field for a value from 0 to 2^31 - 1, in the shortest form decodeLen reads. */
  function EncodeLen(n: int): (r: seq<Byte>)
    requires 0 <= n < TWO31
    ensures 1 <= |r| <= 5
  {
    if n < 0xE0 then [n]
    else if n < 0x1F00 then [0xE0 + n / 0x100, n % 0x100]
    else [0xFF, n / 0x100_0000, n / 0x1_0000 % 0x100, n / 0x100 % 0x100, n % 0x100]
  }

  /** decodeLen reads back an encoded count and stops right after it. */
  lemma DecodeEncodeLen(n: int, rest: seq<Byte>)
    requires 0 <= n < TWO31
    ensures DecodeLen(EncodeLen(n) + rest, 0) == (n, |EncodeLen(n)|)
  {
    var e := EncodeLen(n);
    var data := e + rest;
    assert data[..|e|] == e;
    if n >= 0x1F00 {
      assert data[0] == 0xFF;
      assert data[1] == n / 0x100_0000 && data[2] == n / 0x1_0000 % 0x100;
      assert data[3] == n / 0x100 % 0x100 && data[4] == n % 0x100;
      DecodeLenFiveBytes(data, 0);
      ByteDigits(n);
    }
  }

  /** The four bytes of a value below 2^32, most significant first, give it back. */
  lemma ByteDigits(n: int)
    requires 0 <= n < TWO32
    ensures n / 0x100_0000 < 0x100
    ensures BigEndian(n / 0x100_0000, n / 0x1_0000 % 0x100, n / 0x100 % 0x100, n % 0x100) == n
  {
    var q1, r0 := n / 0x100, n % 0x100;
    var q2, r1 := q1 / 0x100, q1 % 0x100;
    var q3, r2 := q2 / 0x100, q2 % 0x100;
    assert n == q3 * 0x100_0000 + r2 * 0x1_0000 + r1 * 0x100 + r0;
    DivModUnique(n, q2, 0x1_0000);
    DivModUnique(n, q3, 0x100_0000);
  }

  /** ByteInput-level decodeLen, read by read(). */
  method ReadCount(input: ByteInput) returns (x: int)
    requires input.Valid()
    modifies input
    ensures input.Valid() && (x, input.pos) == DecodeLen(input.data, old(input.pos))
  {
    ghost var p := input.pos;
    var first := input.Read();
    if first == -1 {
      return -1;
    }
    if first == 0xFF {
      x := ReadWord(input);
    } else if first >= 0xE0 {
      x := first % 0x20;  // first & 0x1F
      var b := input.Read();
      x := ShiftIn(x, b);
    } else {
      x := first;
    }
  }

  /** The loop for (i = 0; i < 4; i++) { x <<= 8; x |= read(); } from x == 0. */
  method ReadWord(input: ByteInput) returns (x: int)
    requires input.Valid()
    modifies input
    ensures input.Valid() && x == Word(input.data, old(input.pos), 4) && input.pos == Min(old(input.pos) + 4, |input.data|)
  {
    ghost var p := input.pos;
    x := 0;
    for i := 0 to 4
      invariant input.Valid() && x == Word(input.data, p, i) && input.pos == Min(p + i, |input.data|)
    {
      var b := input.Read();
      assert b == ByteAt(input.data, p + i);
      x := ShiftIn(x, b);
    }
  }

  // ---------------------------------------------------------------------
  // Pixels

  /**
   * The fields of the image the decoder reads: width, height, depth in bits
   * per pixel, and the palette's colours as RGB values (None without one).
   */
  datatype Form = Form(w: int, h: int, d: int, palette: Option<seq<int>>)

  /** new BufferedImage(w, h, ...) throws unless w and h are positive. */
  predicate ValidForm(f: Form)
  {
    f.w >= 1 && f.h >= 1
  }

  function Pow2(n: nat): (r: nat)
    ensures r >= 1
  {
    if n == 0 then 1 else 2 * Pow2(n - 1)
  }

  /** Java's a / b, which truncates toward zero. */
  function JavaDiv(a: int, b: int): int
    requires b > 0
  {
    if a >= 0 then a / b else -((-a) / b)
  }

  /** Java's a % b, which takes the sign of a. */
  function JavaRem(a: int, b: int): int
    requires b > 0
  {
    a - JavaDiv(a, b) * b
  }

  /** 32 / d, the pixels in one word (d != 0; 32 is positive, so / agrees with Java's). */
  function PixelsPerWord(f: Form): int
    requires f.d != 0
  {
    32 / f.d
  }

  /** A word holds at least one pixel exactly when the depth is from 1 to 32. */
  lemma PixelsPerWordPositive(d: int)
    requires d != 0
    ensures 32 / d >= 1 <==> 1 <= d <= 32
  {
    var q, r := 32 / d, 32 % d;
    assert 32 == q * d + r && 0 <= r;
    if d > 0 {
      MulMono(q, 0, d);
      MulMono(1, q, d);
    } else {
      MulMono(1, q, -d);
      assert q * d == -(q * -d);
    }
  }

  /** (w + (pixelsPerWord - 1)) / pixelsPerWord, the words in one row. */
  function RealWidth(f: Form): (rw: int)
    requires ValidForm(f) && f.d != 0 && PixelsPerWord(f) >= 1
    ensures rw >= 1
  {
    var ppw := PixelsPerWord(f);
    (f.w + (ppw - 1)) / ppw
  }

  /** d == 32 ? val : val & ((1 << d) - 1): the low d bits, as a non-negative value. */
  function PixelIndex(v: int, d: int): int
    requires 1 <= d <= 32
  {
    if d == 32 then v else v % Pow2(d)
  }

  /** val >>= d: Java shifts an int by d % 32 places, keeping the sign, so by none when d == 32. */
  function Shifted(v: int, d: int): int
    requires 1 <= d <= 32
  {
    if d == 32 then v else v / Pow2(d)
  }

  /**
   * The column of pixel i of the word at pos: (pos % realWidth) *
   * pixelsPerWord + (pixelsPerWord - i) as written, and one column to the
   * left, pixelsPerWord - 1 - i, when fixed.
   */
  function PixelX(f: Form, pos: int, i: int, fixed: bool): int
    requires ValidForm(f) && 1 <= f.d <= 32
  {
    var ppw := PixelsPerWord(f);
    JavaRem(pos, RealWidth(f)) * ppw + (ppw - i - (if fixed then 1 else 0))
  }

  /** The row of the word at pos: pos / realWidth. */
  function PixelY(f: Form, pos: int): int
    requires ValidForm(f) && 1 <= f.d <= 32
  {
    JavaDiv(pos, RealWidth(f))
  }

  /** The RGB value written for a pixel: the palette entry, or the index itself. */
  function Colour(f: Form, index: int): int
    requires f.palette.Some? ==> 0 <= index < |f.palette.value|
  {
    if f.palette.Some? then f.palette.value[index] else index
  }

  /** The position of the pixel (x, y) in the row-major pixel buffer. */
  function Cell(f: Form, x: int, y: int): (c: int)
    requires ValidForm(f) && 0 <= x < f.w && 0 <= y < f.h
    ensures 0 <= c < f.w * f.h
  {
    MulMono(0, y, f.w);
    MulMono(y, f.h - 1, f.w);
    y * f.w + x
  }

  /**
   * The loop of setBitmapEntry(pos, val) from pixel i on, with v the value
   * of val after i shifts.  None is an exception: d == 0 (division by zero),
   * a pixel inside the guard x < w && y < h at a negative coordinate
   * (setRGB), or an index outside the palette.
   */
  function EntryLoop(f: Form, img: seq<int>, pos: int, v: int, i: nat, fixed: bool): (r: Option<seq<int>>)
    requires ValidForm(f) && |img| == f.w * f.h
    ensures r.Some? ==> |r.value| == |img|
    decreases if f.d == 0 then 0 else 32 / f.d - i
  {
    if f.d == 0 then None
    else if i >= PixelsPerWord(f) then Some(img)
    else
      PixelsPerWordPositive(f.d);
      var index := PixelIndex(v, f.d);
      var x := PixelX(f, pos, i, fixed);
      var y := PixelY(f, pos);
      if x < f.w && y < f.h then
        if x < 0 || y < 0 || (f.palette.Some? && !(0 <= index < |f.palette.value|)) then None
        else
          EntryLoop(f, img[Cell(f, x, y) := Colour(f, index)], pos, Shifted(v, f.d), i + 1, fixed)
      else EntryLoop(f, img, pos, Shifted(v, f.d), i + 1, fixed)
  }

  /**
   * setBitmapEntry(pos, val) on the pixel buffer img: as written, or with
   * the column corrected when fixed.
   */
  function Entry(f: Form, img: seq<int>, pos: int, val: int, fixed: bool): (r: Option<seq<int>>)
    requires ValidForm(f) && |img| == f.w * f.h
    ensures r.Some? ==> |r.value| == |img|
  {
    EntryLoop(f, img, pos, val, 0, fixed)
  }

  // ---------------------------------------------------------------------
  // The run-length codes

  /** (b << 24) | (b << 16) | (b << 8) | b for a result b of read(). */
  function Replicated(b: int): int
    requires -1 <= b < 256
  {
    if b == -1 then -1 else Int32(b * 0x0101_0101)
  }

  /** A byte replicated is the word with that byte in each of its four places. */
  lemma ReplicatedBytes(b: Byte)
    ensures Replicated(b) == Int32(BigEndian(b, b, b, b))
  {
  }

  /** The loop while (bitmapPos < end) setBitmapEntry(bitmapPos++, x). */
  function Fill(f: Form, img: seq<int>, from: int, end: int, x: int, fixed: bool): (r: Option<seq<int>>)
    requires ValidForm(f) && |img| == f.w * f.h
    ensures r.Some? ==> |r.value| == |img|
    decreases end - from
  {
    if from >= end then Some(img)
    else
      match Entry(f, img, from, x, fixed)
      case None => None
      case Some(next) => Fill(f, next, from + 1, end, x, fixed)
  }

  /** The op-3 loop: each entry from `from` up to `end` gets the next word read at p. */
  function CopyWords(f: Form, data: seq<Byte>, p: nat, img: seq<int>, from: int, end: int, fixed: bool): (r: Option<(seq<int>, nat)>)
    requires ValidForm(f) && |img| == f.w * f.h && p <= |data|
    ensures r.Some? ==> |r.value.0| == |img| && p <= r.value.1 <= |data|
    decreases end - from
  {
    if from >= end then Some((img, p))
    else
      match Entry(f, img, from, Word(data, p, 4), fixed)
      case None => None
      case Some(next) => CopyWords(f, data, Min(p + 4, |data|), next, from + 1, end, fixed)
  }

  /** The decoder's state between codes: pixels, stream position and word position. */
  datatype Cursor = Cursor(img: seq<int>, p: nat, bitmapPos: int)

  /**
   * One code rawN, read just before st.p: rawN >> 2 words, and the op in
   * rawN & 0x3 (0 skip, 1 replicate a byte, 2 replicate a word, 3 copy words).
   */
  function Code(f: Form, data: seq<Byte>, rawN: int, st: Cursor, fixed: bool): (r: Option<Cursor>)
    requires ValidForm(f) && |st.img| == f.w * f.h && st.p <= |data|
    ensures r.Some? ==> |r.value.img| == |st.img| && st.p <= r.value.p <= |data|
  {
    var wordCount := rawN / 4;
    var op := rawN % 4;
    var end := st.bitmapPos + wordCount;
    if op == 0 then Some(st.(bitmapPos := end))
    else if op == 1 || op == 2 then
      var x := if op == 1 then Replicated(ByteAt(data, st.p)) else Word(data, st.p, 4);
      var p := Min(st.p + (if op == 1 then 1 else 4), |data|);
      match Fill(f, st.img, st.bitmapPos, end, x, fixed)
      case None => None
      case Some(img) => Some(Cursor(img, p, Max(st.bitmapPos, end)))
    else
      match CopyWords(f, data, st.p, st.img, st.bitmapPos, end, fixed)
      case None => None
      case Some((img, p)) => Some(Cursor(img, p, Max(st.bitmapPos, end)))
  }

  /** The loop over the codes, until decodeLen gives -1. */
  function Runs(f: Form, data: seq<Byte>, st: Cursor, fixed: bool): (r: Option<seq<int>>)
    requires ValidForm(f) && |st.img| == f.w * f.h && st.p <= |data|
    ensures r.Some? ==> |r.value| == |st.img|
    decreases |data| - st.p
  {
    var (rawN, p) := DecodeLen(data, st.p);
    if rawN == -1 then Some(st.img)
    else
      match Code(f, data, rawN, st.(p := p), fixed)
      case None => None
      case Some(next) => Runs(f, data, next, fixed)
  }

  /** A w x h buffer of zero pixels, as a new BufferedImage holds. */
  function Blank(f: Form): (r: seq<int>)
    requires ValidForm(f)
    ensures |r| == f.w * f.h && forall k :: 0 <= k < |r| ==> r[k] == 0
  {
    MulMono(0, f.h, f.w);
    seq(f.w * f.h, _ => 0)
  }

  /**
   * resolve: the pixels decoded from bits after its leading length field,
   * or None on an exception (the image cannot be created unless it is at
   * least one pixel wide and high); fixed selects the corrected column.
   */
  function Decoded(f: Form, bits: seq<Byte>, fixed: bool): (r: Option<seq<int>>)
    ensures !ValidForm(f) ==> r.None?
    ensures r.Some? ==> |r.value| == f.w * f.h
  {
    if !ValidForm(f) then None else Runs(f, bits, Cursor(Blank(f), DecodeLen(bits, 0).1, 0), fixed)
  }

  // ---------------------------------------------------------------------
  // What the codes do

  /** op 3 reads one four-byte word for each entry it sets. */
  lemma {:induction false} CopyWordsReads(f: Form, data: seq<Byte>, p: nat, img: seq<int>, from: int, end: int, fixed: bool)
    requires ValidForm(f) && |img| == f.w * f.h && p <= |data|
    ensures var r := CopyWords(f, data, p, img, from, end, fixed);
            r.Some? ==> r.value.1 == Min(p + 4 * Max(end - from, 0), |data|)
    decreases end - from
  {
    if from < end {
      match Entry(f, img, from, Word(data, p, 4), fixed)
      case None =>
      case Some(next) =>
        CopyWordsReads(f, data, Min(p + 4, |data|), next, from + 1, end, fixed);
    }
  }

  /**
   * Each code moves the word position by its word count rawN >> 2 (ops 1 to
   * 3 never move it back: a negative count sets nothing), and reads no
   * further byte for op 0, one for op 1, four for op 2 and four per word for
   * op 3.
   */
  lemma CodeAdvances(f: Form, data: seq<Byte>, rawN: int, st: Cursor, fixed: bool)
    requires ValidForm(f) && |st.img| == f.w * f.h && st.p <= |data|
    ensures var r := Code(f, data, rawN, st, fixed);
            var wordCount := rawN / 4;
            r.Some? ==>
              r.value.bitmapPos == (if rawN % 4 == 0 || rawN >= 0 then st.bitmapPos + wordCount else st.bitmapPos) &&
              r.value.p == Min(st.p + [0, 1, 4, 4 * Max(wordCount, 0)][rawN % 4], |data|)
  {
    if rawN % 4 == 3 {
      CopyWordsReads(f, data, st.p, st.img, st.bitmapPos, st.bitmapPos + rawN / 4, fixed);
    }
  }

  /**
   * op 0 sets nothing; op 1 sets each word to the next byte in all four
   * places; op 2 sets each word to the next four bytes, big-endian.
   */
  lemma CodeOps(f: Form, data: seq<Byte>, rawN: int, st: Cursor, fixed: bool)
    requires ValidForm(f) && |st.img| == f.w * f.h && st.p <= |data|
    ensures var r := Code(f, data, rawN, st, fixed);
            var end := st.bitmapPos + rawN / 4;
            (rawN % 4 == 0 ==> r.Some? && r.value.img == st.img) &&
            (rawN % 4 == 1 && st.p < |data| ==>
               var b := data[st.p];
               var fill := Fill(f, st.img, st.bitmapPos, end, Int32(BigEndian(b, b, b, b)), fixed);
               r.Some? == fill.Some? && (r.Some? ==> r.value.img == fill.value)) &&
            (rawN % 4 == 2 && st.p + 4 <= |data| ==>
               var fill := Fill(f, st.img, st.bitmapPos, end, Int32(BigEndian(data[st.p], data[st.p + 1], data[st.p + 2], data[st.p + 3])), fixed);
               r.Some? == fill.Some? && (r.Some? ==> r.value.img == fill.value))
  {
    if rawN % 4 == 1 && st.p < |data| {
      ReplicatedBytes(data[st.p]);
    }
    if rawN % 4 == 2 && st.p + 4 <= |data| {
      WordBigEndian(data, st.p);
    }
  }

  // ---------------------------------------------------------------------
  // Where the pixels of a word go

  lemma CellInjective(f: Form, x1: int, y1: int, x2: int, y2: int)
    requires ValidForm(f) && 0 <= x1 < f.w && 0 <= x2 < f.w && 0 <= y1 < f.h && 0 <= y2 < f.h
    ensures Cell(f, x1, y1) == Cell(f, x2, y2) <==> x1 == x2 && y1 == y2
  {
    if Cell(f, x1, y1) == Cell(f, x2, y2) {
      DivModUnique(Cell(f, x1, y1), y1, f.w);
      DivModUnique(Cell(f, x2, y2), y2, f.w);
    }
  }

  /** The first column of the word's row segment: (pos % realWidth) * pixelsPerWord. */
  function WordColumn(f: Form, pos: int): int
    requires ValidForm(f) && 1 <= f.d <= 32
  {
    JavaRem(pos, RealWidth(f)) * PixelsPerWord(f)
  }

  /**
   * As written, pixel i of a word at pos >= 0 goes to column
   * WordColumn + pixelsPerWord - i, which is never 0: the first column of
   * the image is never set.
   */
  lemma {:induction false} EntryKeepsFirstColumn(f: Form, img: seq<int>, pos: int, v: int, i: nat, y: int)
    requires ValidForm(f) && |img| == f.w * f.h && 0 <= pos && 0 <= y < f.h
    ensures var r := EntryLoop(f, img, pos, v, i, false);
            r.Some? ==> r.value[Cell(f, 0, y)] == img[Cell(f, 0, y)]
    decreases if f.d == 0 then 0 else 32 / f.d - i
  {
    if f.d != 0 && i < PixelsPerWord(f) {
      PixelsPerWordPositive(f.d);
      var x := PixelX(f, pos, i, false);
      var yy := PixelY(f, pos);
      MulMono(0, JavaRem(pos, RealWidth(f)), PixelsPerWord(f));
      assert x >= 1;
      var next := Shifted(v, f.d);
      if x < f.w && yy < f.h && 0 <= yy && !(f.palette.Some? && !(0 <= PixelIndex(v, f.d) < |f.palette.value|)) {
        CellInjective(f, 0, y, x, yy);
        EntryKeepsFirstColumn(f, img[Cell(f, x, yy) := Colour(f, PixelIndex(v, f.d))], pos, next, i + 1, y);
      } else {
        EntryKeepsFirstColumn(f, img, pos, next, i + 1, y);
      }
    }
  }

  /** Setting the pixel (x, y) changes no other pixel. */
  lemma CellUpdate(f: Form, img: seq<int>, x: int, y: int, c: int)
    requires ValidForm(f) && |img| == f.w * f.h && 0 <= x < f.w && 0 <= y < f.h
    ensures forall xx, yy {:trigger Cell(f, xx, yy)} :: 0 <= xx < f.w && 0 <= yy < f.h ==>
              img[Cell(f, x, y) := c][Cell(f, xx, yy)] == if xx == x && yy == y then c else img[Cell(f, xx, yy)]
  {
    forall xx, yy | 0 <= xx < f.w && 0 <= yy < f.h
      ensures img[Cell(f, x, y) := c][Cell(f, xx, yy)] == if xx == x && yy == y then c else img[Cell(f, xx, yy)]
    {
      CellInjective(f, xx, yy, x, y);
    }
  }

  /** val after n rounds of val >>= d. */
  function ShiftN(v: int, d: int, n: nat): int
    requires 1 <= d <= 32
  {
    if n == 0 then v else Shifted(ShiftN(v, d, n - 1), d)
  }

  /** Every index the palette may be asked for lies inside it. */
  predicate PaletteCovers(f: Form)
    requires 1 <= f.d <= 32
  {
    f.palette.Some? ==> f.d < 32 && |f.palette.value| >= Pow2(f.d)
  }

  /** The colour of pixel i of the word val. */
  function PixelColour(f: Form, val: int, i: nat): int
    requires 1 <= f.d <= 32 && PaletteCovers(f)
  {
    Colour(f, PixelIndex(ShiftN(val, f.d, i), f.d))
  }

  /**
   * The pixels r holds after the corrected loop has placed the pixels i, i+1,
   * ... of the word val at pos into img: in the word's row, column x of the
   * segment [WordColumn, WordColumn + pixelsPerWord - i) that lies inside
   * the image is pixel WordColumn + pixelsPerWord - 1 - x of the word, its
   * first pixel in the highest bits; every other pixel is img's.
   */
  ghost predicate FixedWordCells(f: Form, img: seq<int>, pos: int, val: int, i: nat, r: seq<int>)
    requires ValidForm(f) && |img| == |r| == f.w * f.h && 1 <= f.d <= 32 && PaletteCovers(f)
  {
    var base, ppw, row := WordColumn(f, pos), PixelsPerWord(f), PixelY(f, pos);
    forall x, y {:trigger Cell(f, x, y)} :: 0 <= x < f.w && 0 <= y < f.h ==>
      r[Cell(f, x, y)] ==
        if y == row && base <= x < base + ppw - i then PixelColour(f, val, base + ppw - 1 - x)
        else img[Cell(f, x, y)]
  }

  /** Once every pixel is placed, nothing is left to place. */
  lemma FixedWordDone(f: Form, img: seq<int>, pos: int, val: int)
    requires ValidForm(f) && |img| == f.w * f.h && 1 <= f.d <= 32 && PaletteCovers(f)
    ensures FixedWordCells(f, img, pos, val, PixelsPerWord(f), img)
  {
  }

  /** Placing pixel i at column x inside the image extends what pixels i+1, ... placed. */
  lemma FixedWordPlaced(f: Form, img: seq<int>, pos: int, val: int, i: nat, r: seq<int>)
    requires ValidForm(f) && |img| == |r| == f.w * f.h && 1 <= f.d <= 32 && PaletteCovers(f)
    requires 0 <= pos && PixelY(f, pos) < f.h && i < PixelsPerWord(f)
    requires 0 <= PixelX(f, pos, i, true) < f.w
    requires FixedWordCells(f, img[Cell(f, PixelX(f, pos, i, true), PixelY(f, pos)) := PixelColour(f, val, i)], pos, val, i + 1, r)
    ensures FixedWordCells(f, img, pos, val, i, r)
  {
    var x, row := PixelX(f, pos, i, true), PixelY(f, pos);
    CellUpdate(f, img, x, row, PixelColour(f, val, i));
  }

  /** Pixel i at a column past the image's width places nothing. */
  lemma FixedWordClipped(f: Form, img: seq<int>, pos: int, val: int, i: nat, r: seq<int>)
    requires ValidForm(f) && |img| == |r| == f.w * f.h && 1 <= f.d <= 32 && PaletteCovers(f)
    requires i < PixelsPerWord(f) && PixelX(f, pos, i, true) >= f.w
    requires FixedWordCells(f, img, pos, val, i + 1, r)
    ensures FixedWordCells(f, img, pos, val, i, r)
  {
  }

  /** One round of the corrected loop: pixel i goes to column WordColumn + pixelsPerWord - 1 - i, if inside the image. */
  lemma EntryFixedStep(f: Form, img: seq<int>, pos: int, val: int, i: nat)
    requires ValidForm(f) && |img| == f.w * f.h && 1 <= f.d <= 32 && PaletteCovers(f)
    requires 0 <= pos && PixelY(f, pos) < f.h && i < PixelsPerWord(f)
    ensures var x, row := PixelX(f, pos, i, true), PixelY(f, pos);
            0 <= x &&
            EntryLoop(f, img, pos, ShiftN(val, f.d, i), i, true) ==
              if x < f.w then EntryLoop(f, img[Cell(f, x, row) := PixelColour(f, val, i)], pos, ShiftN(val, f.d, i + 1), i + 1, true)
              else EntryLoop(f, img, pos, ShiftN(val, f.d, i + 1), i + 1, true)
  {
    var x, row := PixelX(f, pos, i, true), PixelY(f, pos);
    assert 0 <= x by {
      MulMono(0, JavaRem(pos, RealWidth(f)), PixelsPerWord(f));
    }
    var v := ShiftN(val, f.d, i);
    var index := PixelIndex(v, f.d);
    assert f.palette.Some? ==> 0 <= index < |f.palette.value| by {
      if f.palette.Some? {
        assert 0 <= index < Pow2(f.d);
      }
    }
    assert ShiftN(val, f.d, i + 1) == Shifted(v, f.d);
    assert PixelColour(f, val, i) == Colour(f, index);
    if x < f.w {
      assert EntryLoop(f, img, pos, v, i, true) ==
        EntryLoop(f, img[Cell(f, x, row) := Colour(f, index)], pos, Shifted(v, f.d), i + 1, true);
    } else {
      assert EntryLoop(f, img, pos, v, i, true) == EntryLoop(f, img, pos, Shifted(v, f.d), i + 1, true);
    }
  }

  /**
   * With the column corrected to WordColumn + pixelsPerWord - 1 - i, a word
   * at pos >= 0 in a row of the image sets exactly the columns of its
   * segment that lie inside the image (from pixel i on, with v the value
   * after i shifts).
   */
  lemma {:induction false} EntryFixedFrom(f: Form, img: seq<int>, pos: int, val: int, i: nat)
    requires ValidForm(f) && |img| == f.w * f.h && 1 <= f.d <= 32 && PaletteCovers(f)
    requires 0 <= pos && PixelY(f, pos) < f.h && i <= PixelsPerWord(f)
    ensures var r := EntryLoop(f, img, pos, ShiftN(val, f.d, i), i, true);
            r.Some? && FixedWordCells(f, img, pos, val, i, r.value)
    decreases PixelsPerWord(f) - i
  {
    if i < PixelsPerWord(f) {
      EntryFixedStep(f, img, pos, val, i);
      var x, row := PixelX(f, pos, i, true), PixelY(f, pos);
      if x < f.w {
        var img' := img[Cell(f, x, row) := PixelColour(f, val, i)];
        EntryFixedFrom(f, img', pos, val, i + 1);
        FixedWordPlaced(f, img, pos, val, i, EntryLoop(f, img', pos, ShiftN(val, f.d, i + 1), i + 1, true).value);
      } else {
        EntryFixedFrom(f, img, pos, val, i + 1);
        FixedWordClipped(f, img, pos, val, i, EntryLoop(f, img, pos, ShiftN(val, f.d, i + 1), i + 1, true).value);
      }
    } else {
      FixedWordDone(f, img, pos, val);
    }
  }

  /** A whole word, corrected: see EntryFixedFrom. */
  lemma EntryFixedCells(f: Form, img: seq<int>, pos: int, val: int)
    requires ValidForm(f) && |img| == f.w * f.h && 1 <= f.d <= 32 && PaletteCovers(f)
    requires 0 <= pos && PixelY(f, pos) < f.h
    ensures var r := EntryLoop(f, img, pos, val, 0, true);
            var base, ppw, row := WordColumn(f, pos), PixelsPerWord(f), PixelY(f, pos);
            r.Some? &&
            forall x, y {:trigger Cell(f, x, y)} :: 0 <= x < f.w && 0 <= y < f.h ==>
              r.value[Cell(f, x, y)] ==
                if y == row && base <= x < base + ppw then PixelColour(f, val, base + ppw - 1 - x)
                else img[Cell(f, x, y)]
  {
    PixelsPerWordPositive(f.d);
    EntryFixedFrom(f, img, pos, val, 0);
  }

  // ---------------------------------------------------------------------
  // The image

  /** A Scratch image: its Form fields and the pixel buffer resolve fills. */
  class ScratchImage {
    const w: int
    const h: int
    const d: int
    /** The colours of the resolved palette reference, as RGB values. */
    const palette: Option<seq<int>>
    var img: array<int>

    function Fields(): Form
    {
      Form(w, h, d, palette)
    }

    predicate Valid()
      reads this
    {
      ValidForm(Fields()) && img.Length == w * h
    }

    constructor (w: int, h: int, d: int, palette: Option<seq<int>>)
      ensures Fields() == Form(w, h, d, palette)
    {
      this.w := w;
      this.h := h;
      this.d := d;
      this.palette := palette;
      img := new int[0];
    }

    /**
     * setBitmapEntry(pos, val), with the column corrected: ok is false where
     * the source throws.
     */
    method SetBitmapEntry(pos: int, val: int) returns (ok: bool)
      requires Valid()
      modifies img
      ensures var r := Entry(Fields(), old(img[..]), pos, val, true);
              ok == r.Some? && (ok ==> img[..] == r.value)
    {
      if d == 0 {
        return false;  // 32 / d throws
      }
      var pixelsPerWord := 32 / d;
      PixelsPerWordPositive(d);
      var v := val;
      var i: nat := 0;
      while i < pixelsPerWord
        invariant EntryLoop(Fields(), img[..], pos, v, i, true) == Entry(Fields(), old(img[..]), pos, val, true)
        decreases pixelsPerWord - i
      {
        ok := SetPixel(pos, v, i);
        if !ok {
          return;
        }
        v := Shifted(v, d);
        i := i + 1;
      }
      ok := true;
    }

    /** One round of the loop of setBitmapEntry: pixel i of the word at pos, from the shifted value v. */
    method SetPixel(pos: int, v: int, i: nat) returns (ok: bool)
      requires Valid() && 1 <= d && i < 32 / d
      modifies img
      ensures var r := EntryLoop(Fields(), old(img[..]), pos, v, i, true);
              if ok then r == EntryLoop(Fields(), img[..], pos, Shifted(v, d), i + 1, true) else r.None?
    {
      var pixelsPerWord := 32 / d;
      var index := if d == 32 then v else v % Pow2(d);
      var realWidth := (w + (pixelsPerWord - 1)) / pixelsPerWord;
      var x := JavaRem(pos, realWidth) * pixelsPerWord + (pixelsPerWord - 1 - i);
      var y := JavaDiv(pos, realWidth);
      assert x == PixelX(Fields(), pos, i, true) && y == PixelY(Fields(), pos) && index == PixelIndex(v, d);
      ok := true;
      if x < w && y < h {
        if x < 0 || y < 0 {
          return false;  // setRGB: coordinate out of bounds
        }
        var cell := Cell(Fields(), x, y);  // y * w + x
        if palette.Some? {
          if !(0 <= index < |palette.value|) {
            return false;  // palette[index] out of bounds
          }
          img[cell] := palette.value[index];
        } else {
          img[cell] := index;
        }
      }
    }

    /** while (bitmapPos < end) setBitmapEntry(bitmapPos++, x). */
    method FillEntries(from: int, end: int, x: int) returns (ok: bool)
      requires Valid()
      modifies img
      ensures var r := Fill(Fields(), old(img[..]), from, end, x, true);
              ok == r.Some? && (ok ==> img[..] == r.value)
    {
      var bitmapPos := from;
      while bitmapPos < end
        invariant Fill(Fields(), img[..], bitmapPos, end, x, true) == Fill(Fields(), old(img[..]), from, end, x, true)
        decreases end - bitmapPos
      {
        ok := SetBitmapEntry(bitmapPos, x);
        if !ok {
          return;
        }
        bitmapPos := bitmapPos + 1;
      }
      ok := true;
    }

    /** The op-3 loop: a word read from the stream for each entry up to end. */
    method CopyEntries(input: ByteInput, from: int, end: int) returns (ok: bool)
      requires Valid() && input.Valid()
      modifies img, input
      ensures input.Valid()
      ensures var r := CopyWords(Fields(), input.data, old(input.pos), old(img[..]), from, end, true);
              ok == r.Some? && (ok ==> img[..] == r.value.0 && input.pos == r.value.1)
    {
      var bitmapPos := from;
      while bitmapPos < end
        invariant input.Valid()
        invariant CopyWords(Fields(), input.data, input.pos, img[..], bitmapPos, end, true) ==
                  CopyWords(Fields(), input.data, old(input.pos), old(img[..]), from, end, true)
        decreases end - bitmapPos
      {
        var x := ReadWord(input);
        ok := SetBitmapEntry(bitmapPos, x);
        if !ok {
          return;
        }
        bitmapPos := bitmapPos + 1;
      }
      ok := true;
    }

    /** One code of resolve's loop, with the stream just after it. */
    method ApplyCode(input: ByteInput, rawN: int, bitmapPos: int) returns (ok: bool, newPos: int)
      requires Valid() && input.Valid()
      modifies img, input
      ensures input.Valid()
      ensures var r := Code(Fields(), input.data, rawN, Cursor(old(img[..]), old(input.pos), bitmapPos), true);
              ok == r.Some? && (ok ==> img[..] == r.value.img && input.pos == r.value.p && newPos == r.value.bitmapPos)
    {
      var wordCount := rawN / 4;  // rawN >> 2
      var end := bitmapPos + wordCount;
      var op := rawN % 4;  // rawN & 0x3
      if op == 0 {
        return true, end;  // skip that many words
      } else if op == 1 {
        var b := input.Read();
        var x := Replicated(b);
        ok := FillEntries(bitmapPos, end, x);
      } else if op == 2 {
        var x := ReadWord(input);
        ok := FillEntries(bitmapPos, end, x);
      } else {
        ok := CopyEntries(input, bitmapPos, end);
      }
      newPos := Max(bitmapPos, end);
    }

    /**
     * resolve: decodes bits into a new pixel buffer, with the column of
     * setBitmapEntry corrected; ok is false where the source throws.
     */
    method Resolve(bits: seq<Byte>) returns (ok: bool)
      modifies this
      ensures ValidForm(Fields()) ==> Valid() && fresh(img)
      ensures var r := Decoded(Fields(), bits, true);
              ok == r.Some? && (ok ==> img[..] == r.value)
    {
      if !(w >= 1 && h >= 1) {
        return false;
      }
      var input := new ByteInput(bits);
      MulMono(0, h, w);
      img := new int[w * h](_ => 0);
      assert img[..] == Blank(Fields());
      var bitmapPos := 0;
      var _ := ReadCount(input);  // the total length, which w and h already give
      ghost var before := input.pos;
      var rawN := ReadCount(input);
      while rawN != -1
        invariant Valid() && input.Valid() && input.data == bits && before <= |bits|
        invariant (rawN, input.pos) == DecodeLen(bits, before)
        invariant Runs(Fields(), bits, Cursor(img[..], before, bitmapPos), true) == Decoded(Fields(), bits, true)
        modifies img, input
        decreases |bits| - before
      {
        ok, bitmapPos := ApplyCode(input, rawN, bitmapPos);
        if !ok {
          return;
        }
        before := input.pos;
        rawN := ReadCount(input);
      }
      ok := true;
    }
  }
}
