/**
 * The thumbnail encoder `create_snapshot` (files/plugins/Installer.py
 * lines 124-161): a bitmap becomes text, row by row, four hex characters
 * per pixel in little-endian RGB565, each row closed by "\rM10086 ;" and
 * the whole frame by one final "\r".
 *
 * The renderer that produces the bitmap belongs to the host application;
 * here the bitmap is an input and its own width and height drive the loops.
 */
module Snapshot {
  import opened Wrappers
  import opened Bits
  import opened Rgb565
  import opened Hex
  import opened Text

  /** Appended after the pixels of every row. */
  const RowTerminator: string := "\rM10086 ;"

  /** Appended once, after the last row. */
  const FrameTerminator: string := "\r"

  /** A captured snapshot: `rows[y][x]` is the pixel at column `x` of row `y`. */
  datatype Bitmap = Bitmap(width: nat, rows: seq<seq<Pixel>>)
  {
    function Height(): nat
    {
      |rows|
    }

    /** Every row holds exactly `width` pixels, as an image always does. */
    predicate Rectangular()
    {
      forall y :: 0 <= y < |rows| ==> |rows[y]| == width
    }
  }

  /** Python's `s[i:j]` for non-negative bounds: out-of-range bounds are clamped. */
  function Slice(s: string, i: nat, j: nat): (r: string)
    ensures j <= |s| && i <= j ==> r == s[i..j]
  {
    if i >= |s| || j <= i then [] else if j <= |s| then s[i..j] else s[i..]
  }

  /** `hex[2:4] + hex[0:2]`: the two bytes of a four-digit rendering, low byte first. */
  function SwapBytes(hex: string): (r: string)
    ensures |hex| == 4 ==> |r| == 4
  {
    Slice(hex, 2, 4) + Slice(hex, 0, 2)
  }

  /** Swapping the bytes of four-character text twice gives the text back. */
  lemma SwapBytesInvolution(hex: string)
    requires |hex| == 4
    ensures SwapBytes(SwapBytes(hex)) == hex
  {
    var once := SwapBytes(hex);
    assert once == hex[2..4] + hex[0..2];
    assert SwapBytes(once) == once[2..4] + once[0..2];
  }

  lemma SwapBytesOfFour(a: char, b: char, c: char, d: char)
    ensures SwapBytes([a, b, c, d]) == [c, d, a, b]
  {
    assert [a, b, c, d][2..4] == [c, d];
    assert [a, b, c, d][0..2] == [a, b];
  }

  /** The four characters emitted for one pixel (lines 143-152). */
  function EncodePixel(p: Pixel): (r: string)
    ensures |r| == 4
  {
    SwapBytes(Format04x(Pack(p)))
  }

  /** The characters emitted for a packed value, written nibble by nibble. */
  function PixelDigits(v: nat): (r: string)
    requires v < 0x1_0000
  {
    [HexDigit(v / 16 % 16), HexDigit(v % 16), HexDigit(v / 4096), HexDigit(v / 256 % 16)]
  }

  /** The formatted and swapped text of a packed value is its low byte's two digits, then its high byte's. */
  lemma EncodedDigits(v: nat)
    requires v < 0x1_0000
    ensures SwapBytes(Format04x(v)) == PixelDigits(v)
  {
    var a, b, c, d := v / 4096, v / 256 % 16, v / 16 % 16, v % 16;
    Format04xDigits(v);
    SwapBytesOfFour(HexDigit(a), HexDigit(b), HexDigit(c), HexDigit(d));
  }

  lemma PixelDigitsAreHex(v: nat)
    requires v < 0x1_0000
    ensures IsHexText(PixelDigits(v))
  {
  }

  lemma PixelDigitsLowByte(v: nat)
    requires v < 0x1_0000
    ensures HexValue(PixelDigits(v)[..2]) == Some(v % 256)
  {
    assert PixelDigits(v)[..2] == [HexDigit(v / 16 % 16), HexDigit(v % 16)];
    HexValueOfTwo(v / 16 % 16, v % 16);
    NibbleSplit(v);
  }

  lemma PixelDigitsHighByte(v: nat)
    requires v < 0x1_0000
    ensures HexValue(PixelDigits(v)[2..]) == Some(v / 256)
  {
    assert PixelDigits(v)[2..] == [HexDigit(v / 4096), HexDigit(v / 256 % 16)];
    HexValueOfTwo(v / 4096, v / 256 % 16);
    NibbleSplit(v);
  }

  /**
   * An emitted pixel is hex text in little-endian byte order: its first
   * two characters give the low byte of the packed value and its last two
   * the high byte.
   */
  lemma EncodePixelLittleEndian(p: Pixel)
    ensures IsHexText(EncodePixel(p))
    ensures HexValue(EncodePixel(p)[..2]) == Some(Pack(p) % 256)
    ensures HexValue(EncodePixel(p)[2..]) == Some(Pack(p) / 256)
  {
    EncodedDigits(Pack(p));
    PixelDigitsAreHex(Pack(p));
    PixelDigitsLowByte(Pack(p));
    PixelDigitsHighByte(Pack(p));
  }

  /** The low byte is the two low nibbles and the high byte the two high nibbles. */
  lemma NibbleSplit(v: nat)
    requires v < 0x1_0000
    ensures v % 256 == (v / 16 % 16) * 16 + v % 16
    ensures v / 256 == (v / 4096) * 16 + v / 256 % 16
  {
    var q1 := v / 16;
    var q2 := q1 / 16;
    var q3 := q2 / 16;
    assert v == q2 * 256 + (q1 % 16 * 16 + v % 16);
    DivModOf(v, 256, q2, q1 % 16 * 16 + v % 16);
    assert v == q3 * 4096 + (q2 % 16 * 256 + q1 % 16 * 16 + v % 16);
    DivModOf(v, 4096, q3, q2 % 16 * 256 + q1 % 16 * 16 + v % 16);
  }

  /**
   * Reads one pixel back: undo the byte swap and parse the big-endian
   * rendering. Text that is not four hex characters has no value.
   */
  function DecodePixel(s: string): Option<nat>
  {
    if |s| != 4 then None else HexValue(SwapBytes(s))
  }

  /** Decoding an emitted pixel gives its packed RGB565 value back. */
  lemma DecodeEncodePixel(p: Pixel)
    ensures DecodePixel(EncodePixel(p)) == Some(Pack(p))
  {
    var f := Format04x(Pack(p));
    Format04xRoundTrip(Pack(p));
    SwapBytesInvolution(f);
    assert EncodePixel(p) == SwapBytes(f);
  }

  /** An emitted pixel, written nibble by nibble. */
  lemma EncodePixelIsDigits(p: Pixel)
    ensures EncodePixel(p) == PixelDigits(Pack(p))
  {
    EncodedDigits(Pack(p));
  }

  /**
   * Every pixel whose kept bits are all set, pure white (255, 255, 255)
   * among them, is emitted as "ffff".
   */
  lemma EncodeWhite(p: Pixel)
    requires p.red >= 248 && p.green >= 252 && p.blue >= 248
    ensures EncodePixel(p) == "ffff"
  {
    var v := Pack(p);
    assert v == 0xffff by {
      assert p.red as int / 8 == 31 && p.green as int / 4 == 63 && p.blue as int / 8 == 31;
    }
    EncodePixelIsDigits(p);
    AllOnesDigits(v);
  }

  lemma AllOnesDigits(v: nat)
    requires v == 0xffff
    ensures PixelDigits(v) == "ffff"
  {
  }

  /**
   * Every pixel whose kept bits are all clear, pure black (0, 0, 0) among
   * them, is emitted as "0000".
   */
  lemma EncodeBlack(p: Pixel)
    requires p.red < 8 && p.green < 4 && p.blue < 8
    ensures EncodePixel(p) == "0000"
  {
    var v := Pack(p);
    assert v == 0 by {
      assert p.red as int / 8 == 0 && p.green as int / 4 == 0 && p.blue as int / 8 == 0;
    }
    EncodePixelIsDigits(p);
    AllZerosDigits(v);
  }

  lemma AllZerosDigits(v: nat)
    requires v == 0
    ensures PixelDigits(v) == "0000"
  {
  }

  /**
   * The layout of a frame does not depend on how a pixel is spelled, only
   * on every pixel taking four characters. The row and frame functions
   * below take the pixel encoder as a parameter; `Frame` fixes it to
   * `EncodePixel`.
   */
  ghost predicate FourWide(enc: Pixel -> string)
  {
    forall p :: |enc(p)| == 4
  }

  lemma EncodePixelFourWide()
    ensures FourWide(EncodePixel)
  {
  }

  /** The inner loop (lines 137-152): the pixels of one row, left to right. */
  function Cells(enc: Pixel -> string, row: seq<Pixel>): string
  {
    if |row| == 0 then "" else Cells(enc, row[..|row| - 1]) + enc(row[|row| - 1])
  }

  /** The outer loop (lines 136-155): every row in order, each followed by the row terminator. */
  function Lines(enc: Pixel -> string, rows: seq<seq<Pixel>>): string
  {
    if |rows| == 0 then ""
    else Lines(enc, rows[..|rows| - 1]) + Cells(enc, rows[|rows| - 1]) + RowTerminator
  }

  /** All rows, then the frame terminator (line 158). */
  function FrameOf(enc: Pixel -> string, img: Bitmap): string
  {
    Lines(enc, img.rows) + FrameTerminator
  }

  /** The text `create_snapshot` returns for a bitmap. */
  function Frame(img: Bitmap): (r: string)
    ensures |r| > 0 && r[|r| - 1] == '\r'
  {
    FrameOf(EncodePixel, img)
  }

  /** Characters one row occupies in a frame of the given width. */
  function Stride(width: nat): nat
  {
    4 * width + |RowTerminator|
  }

  /** Offset of row `y` in a frame of the given width: `y * (4W + 9)`. */
  function RowStart(width: nat, y: nat): nat
  {
    y * Stride(width)
  }

  /** `4*W*H + 9*H + 1`: four characters per pixel, nine per row terminator, one to close. */
  function FrameSize(width: nat, height: nat): nat
  {
    4 * width * height + 9 * height + 1
  }

  lemma FrameSizeByRows(width: nat, height: nat)
    ensures FrameSize(width, height) == RowStart(width, height) + 1
  {
  }

  lemma MulSucc(n: nat, m: nat)
    ensures n * m + m == (n + 1) * m
  {
  }

  lemma SliceOfLeft(a: string, b: string, i: nat, j: nat)
    requires i <= j <= |a|
    ensures (a + b)[i..j] == a[i..j]
  {
  }

  lemma SliceOfRight(a: string, b: string)
    ensures (a + b)[|a|..|a| + |b|] == b
  {
  }

  lemma SliceOfPrefix(a: string, full: string, i: nat, j: nat)
    requires a <= full && i <= j <= |a|
    ensures full[i..j] == a[i..j]
  {
  }

  lemma SliceOfSlice(s: string, a: nat, b: nat, i: nat, j: nat)
    requires a <= b <= |s| && i <= j <= b - a
    ensures s[a..b][i..j] == s[a + i..a + j]
  {
    forall k | 0 <= k < j - i
      ensures s[a..b][i..j][k] == s[a + i..a + j][k]
    {
      assert s[a..b][i..j][k] == s[a + i + k];
    }
  }

  lemma {:induction false} CellsLength(enc: Pixel -> string, row: seq<Pixel>)
    requires FourWide(enc)
    ensures |Cells(enc, row)| == 4 * |row|
  {
    if |row| > 0 {
      CellsLength(enc, row[..|row| - 1]);
    }
  }

  /** Pixel `x` of a row is the four characters at offset `4x` of the row's text. */
  lemma {:induction false} CellsPixelAt(enc: Pixel -> string, row: seq<Pixel>, x: nat)
    requires FourWide(enc) && x < |row|
    ensures 4 * x + 4 <= |Cells(enc, row)|
    ensures Cells(enc, row)[4 * x..4 * x + 4] == enc(row[x])
  {
    var init := row[..|row| - 1];
    var head, last := Cells(enc, init), enc(row[|row| - 1]);
    CellsLength(enc, row);
    CellsLength(enc, init);
    if x < |row| - 1 {
      CellsPixelAt(enc, init, x);
      SliceOfLeft(head, last, 4 * x, 4 * x + 4);
    } else {
      SliceOfRight(head, last);
    }
  }

  lemma CellsStep(enc: Pixel -> string, row: seq<Pixel>, x: nat)
    requires x < |row|
    ensures Cells(enc, row[..x + 1]) == Cells(enc, row[..x]) + enc(row[x])
  {
    assert row[..x + 1][..x] == row[..x];
  }

  lemma LinesStep(enc: Pixel -> string, rows: seq<seq<Pixel>>, y: nat)
    requires y < |rows|
    ensures Lines(enc, rows[..y + 1]) == Lines(enc, rows[..y]) + Cells(enc, rows[y]) + RowTerminator
  {
    assert rows[..y + 1][..y] == rows[..y];
  }

  lemma {:induction false} LinesLength(enc: Pixel -> string, rows: seq<seq<Pixel>>, width: nat)
    requires FourWide(enc)
    requires forall y :: 0 <= y < |rows| ==> |rows[y]| == width
    ensures |Lines(enc, rows)| == RowStart(width, |rows|)
  {
    if |rows| > 0 {
      var init := rows[..|rows| - 1];
      LinesLength(enc, init, width);
      CellsLength(enc, rows[|rows| - 1]);
      MulSucc(|init|, Stride(width));
    }
  }

  /** The text of the first `k` rows is a prefix of the text of them all. */
  lemma {:induction false} LinesPrefix(enc: Pixel -> string, rows: seq<seq<Pixel>>, k: nat)
    requires k <= |rows|
    ensures Lines(enc, rows[..k]) <= Lines(enc, rows)
  {
    if k < |rows| {
      var init := rows[..|rows| - 1];
      assert init[..k] == rows[..k];
      LinesPrefix(enc, init, k);
    } else {
      assert rows[..k] == rows;
    }
  }

  /** The frame of a W x H bitmap is exactly `4*W*H + 9*H + 1` characters long. */
  lemma FrameOfLength(enc: Pixel -> string, img: Bitmap)
    requires FourWide(enc) && img.Rectangular()
    ensures |FrameOf(enc, img)| == FrameSize(img.width, img.Height())
  {
    LinesLength(enc, img.rows, img.width);
    FrameSizeByRows(img.width, img.Height());
  }

  /**
   * Inside the frame, row `y`'s pixel text and then the row terminator
   * follow the text of the rows before it.
   */
  lemma FrameOfRowText(enc: Pixel -> string, img: Bitmap, y: nat)
    requires y < img.Height()
    ensures var off, n := |Lines(enc, img.rows[..y])|, |Cells(enc, img.rows[y])|;
      && off + n + |RowTerminator| <= |FrameOf(enc, img)|
      && FrameOf(enc, img)[off..off + n] == Cells(enc, img.rows[y])
      && FrameOf(enc, img)[off + n..off + n + |RowTerminator|] == RowTerminator
  {
    var rows, f := img.rows, FrameOf(enc, img);
    var before, row := Lines(enc, rows[..y]), Cells(enc, rows[y]);
    var upto := Lines(enc, rows[..y + 1]);
    LinesStep(enc, rows, y);
    LinesPrefix(enc, rows, y + 1);
    assert upto <= f;
    var off, n := |before|, |row|;
    SliceOfPrefix(upto, f, off, off + n);
    SliceOfPrefix(upto, f, off + n, off + n + |RowTerminator|);
    assert upto[off..off + n] == row;
    assert upto[off + n..off + n + |RowTerminator|] == RowTerminator;
  }

  lemma RowStartIsPrefixLength(enc: Pixel -> string, img: Bitmap, y: nat)
    requires FourWide(enc) && img.Rectangular() && y < img.Height()
    ensures |Lines(enc, img.rows[..y])| == RowStart(img.width, y)
    ensures |Cells(enc, img.rows[y])| == 4 * img.width
  {
    LinesLength(enc, img.rows[..y], img.width);
    CellsLength(enc, img.rows[y]);
  }

  lemma FrameOfRowPixels(enc: Pixel -> string, img: Bitmap, y: nat)
    requires FourWide(enc) && img.Rectangular() && y < img.Height()
    ensures RowStart(img.width, y) + Stride(img.width) <= |FrameOf(enc, img)|
    ensures FrameOf(enc, img)[RowStart(img.width, y)..RowStart(img.width, y) + 4 * img.width] == Cells(enc, img.rows[y])
  {
    RowStartIsPrefixLength(enc, img, y);
    FrameOfRowText(enc, img, y);
  }

  lemma FrameOfRowTerminator(enc: Pixel -> string, img: Bitmap, y: nat)
    requires FourWide(enc) && img.Rectangular() && y < img.Height()
    ensures RowStart(img.width, y) + Stride(img.width) <= |FrameOf(enc, img)|
    ensures FrameOf(enc, img)[RowStart(img.width, y) + 4 * img.width..RowStart(img.width, y) + Stride(img.width)] == RowTerminator
  {
    RowStartIsPrefixLength(enc, img, y);
    FrameOfRowText(enc, img, y);
  }

  /** A piece found at `i` of text that sits at `off` of `f` is found at `off + i` of `f`. */
  lemma SliceWithin(f: string, text: string, off: nat, i: nat, piece: string)
    requires off + |text| <= |f| && f[off..off + |text|] == text
    requires i + |piece| <= |text| && text[i..i + |piece|] == piece
    ensures f[off + i..off + i + |piece|] == piece
  {
    SliceOfSlice(f, off, off + |text|, i, i + |piece|);
  }

  lemma FrameOfPixelAt(enc: Pixel -> string, img: Bitmap, x: nat, y: nat)
    requires FourWide(enc) && img.Rectangular() && y < img.Height() && x < img.width
    ensures RowStart(img.width, y) + 4 * x + 4 <= |FrameOf(enc, img)|
    ensures FrameOf(enc, img)[RowStart(img.width, y) + 4 * x..RowStart(img.width, y) + 4 * x + 4] == enc(img.rows[y][x])
  {
    var row := img.rows[y];
    FrameOfRowPixels(enc, img, y);
    CellsLength(enc, row);
    CellsPixelAt(enc, row, x);
    SliceWithin(FrameOf(enc, img), Cells(enc, row), RowStart(img.width, y), 4 * x, enc(row[x]));
  }

  lemma FrameOfEnd(enc: Pixel -> string, img: Bitmap)
    requires FourWide(enc) && img.Rectangular()
    ensures |FrameOf(enc, img)| == RowStart(img.width, img.Height()) + 1
    ensures FrameOf(enc, img)[|FrameOf(enc, img)| - 1] == '\r'
  {
    LinesLength(enc, img.rows, img.width);
  }

  /** The frame of a W x H bitmap is exactly `4*W*H + 9*H + 1` characters long. */
  lemma FrameLength(img: Bitmap)
    requires img.Rectangular()
    ensures |Frame(img)| == FrameSize(img.width, img.Height())
  {
    EncodePixelFourWide();
    FrameOfLength(EncodePixel, img);
  }

  /**
   * Row `y` of a rectangular bitmap starts at offset `y * (4W + 9)`: its
   * pixels fill the next `4W` characters and the row terminator the nine
   * after them.
   */
  lemma FrameRowLayout(img: Bitmap, y: nat)
    requires img.Rectangular() && y < img.Height()
    ensures RowStart(img.width, y) + Stride(img.width) <= |Frame(img)|
    ensures Frame(img)[RowStart(img.width, y)..RowStart(img.width, y) + 4 * img.width] == Cells(EncodePixel, img.rows[y])
    ensures Frame(img)[RowStart(img.width, y) + 4 * img.width..RowStart(img.width, y) + Stride(img.width)] == RowTerminator
  {
    EncodePixelFourWide();
    FrameOfRowPixels(EncodePixel, img, y);
    FrameOfRowTerminator(EncodePixel, img, y);
  }

  /** The pixel at column `x` of row `y` is the four characters at `y * (4W + 9) + 4x`. */
  lemma FramePixelAt(img: Bitmap, x: nat, y: nat)
    requires img.Rectangular() && y < img.Height() && x < img.width
    ensures RowStart(img.width, y) + 4 * x + 4 <= |Frame(img)|
    ensures Frame(img)[RowStart(img.width, y) + 4 * x..RowStart(img.width, y) + 4 * x + 4] == EncodePixel(img.rows[y][x])
  {
    EncodePixelFourWide();
    FrameOfPixelAt(EncodePixel, img, x, y);
  }

  /** The frame closes with a single '\r' right after the last row's terminator. */
  lemma FrameEnd(img: Bitmap)
    requires img.Rectangular()
    ensures |Frame(img)| == RowStart(img.width, img.Height()) + 1
    ensures Frame(img)[|Frame(img)| - 1] == '\r'
  {
    EncodePixelFourWide();
    FrameOfEnd(EncodePixel, img);
  }

  /**
   * The frame can be read back: the four characters at a pixel's offset
   * decode to that pixel's packed RGB565 value.
   */
  lemma FramePixelDecodes(img: Bitmap, x: nat, y: nat)
    requires img.Rectangular() && y < img.Height() && x < img.width
    ensures RowStart(img.width, y) + 4 * x + 4 <= |Frame(img)|
    ensures DecodePixel(Frame(img)[RowStart(img.width, y) + 4 * x..RowStart(img.width, y) + 4 * x + 4]) == Some(Pack(img.rows[y][x]))
  {
    FramePixelAt(img, x, y);
    DecodeEncodePixel(img.rows[y][x]);
  }

  /** The frame of a one-pixel bitmap: the pixel's four characters and the two terminators. */
  lemma SinglePixelFrame(p: Pixel)
    ensures Frame(Bitmap(1, [[p]])) == EncodePixel(p) + "\rM10086 ;\r"
  {
    var rows := [[p]];
    assert rows[..0] == [];
    assert [p][..0] == [];
    assert Cells(EncodePixel, [p]) == EncodePixel(p);
    assert Lines(EncodePixel, rows) == EncodePixel(p) + RowTerminator;
  }

  /** A lone white pixel, (255, 255, 255) among them, renders as "ffff\rM10086 ;\r". */
  lemma SingleWhiteFrame(p: Pixel)
    requires p.red >= 248 && p.green >= 252 && p.blue >= 248
    ensures Frame(Bitmap(1, [[p]])) == "ffff\rM10086 ;\r"
  {
    SinglePixelFrame(p);
    EncodeWhite(p);
  }

  /** A lone black pixel, (0, 0, 0) among them, renders as "0000\rM10086 ;\r". */
  lemma SingleBlackFrame(p: Pixel)
    requires p.red < 8 && p.green < 4 && p.blue < 8
    ensures Frame(Bitmap(1, [[p]])) == "0000\rM10086 ;\r"
  {
    SinglePixelFrame(p);
    EncodeBlack(p);
  }

  lemma {:induction false} CellsAvoid(enc: Pixel -> string, row: seq<Pixel>, c: char)
    requires forall p :: Avoids(enc(p), c)
    ensures Avoids(Cells(enc, row), c)
  {
    if |row| > 0 {
      CellsAvoid(enc, row[..|row| - 1], c);
      AvoidsAppend(Cells(enc, row[..|row| - 1]), enc(row[|row| - 1]), c);
    }
  }

  lemma {:induction false} LinesAvoid(enc: Pixel -> string, rows: seq<seq<Pixel>>, c: char)
    requires forall p :: Avoids(enc(p), c)
    requires Avoids(RowTerminator, c)
    ensures Avoids(Lines(enc, rows), c)
  {
    if |rows| > 0 {
      var init := Lines(enc, rows[..|rows| - 1]);
      var row := Cells(enc, rows[|rows| - 1]);
      LinesAvoid(enc, rows[..|rows| - 1], c);
      CellsAvoid(enc, rows[|rows| - 1], c);
      AvoidsAppend(init, row, c);
      AvoidsAppend(init + row, RowTerminator, c);
    }
  }

  /**
   * A frame is written in hex digits, '\r', 'M', ' ' and ';' only: any
   * other character, 'g' and 's' among them, never appears in it.
   */
  lemma FrameAvoids(img: Bitmap, c: char)
    requires !IsHexChar(c) && c != 'M' && c != ' ' && c != ';' && c != '\r'
    ensures Avoids(Frame(img), c)
  {
    forall p: Pixel
      ensures Avoids(EncodePixel(p), c)
    {
      EncodePixelLittleEndian(p);
    }
    assert Avoids(RowTerminator, c);
    LinesAvoid(EncodePixel, img.rows, c);
    AvoidsAppend(Lines(EncodePixel, img.rows), FrameTerminator, c);
  }

  /**
   * One pixel as the loop body writes it (lines 140-152): the shift-and-or
   * packing, `"{:04x}"`, then the two-byte swap by slicing.
   */
  method EncodePixelAsWritten(p: Pixel) returns (le: string)
    ensures le == EncodePixel(p)
  {
    var rgb16 := Or(Or(Shl(Shr(p.red as nat, 3), 11), Shl(Shr(p.green as nat, 2), 5)), Shr(p.blue as nat, 3));
    var hex := Format04x(rgb16);
    le := Slice(hex, 2, 4) + Slice(hex, 0, 2);
    PackMatchesShifts(p);
  }

  /** The inner loop of `create_snapshot` (lines 137-152): one row's pixels, left to right. */
  method EncodeRowAsWritten(row: seq<Pixel>) returns (text: string)
    ensures text == Cells(EncodePixel, row)
    ensures |text| == 4 * |row|
  {
    text := "";
    var x := 0;
    while x < |row|
      invariant x <= |row|
      invariant text == Cells(EncodePixel, row[..x])
    {
      var le := EncodePixelAsWritten(row[x]);
      CellsStep(EncodePixel, row, x);
      text := text + le;
      x := x + 1;
    }
    assert row[..x] == row;
    EncodePixelFourWide();
    CellsLength(EncodePixel, row);
  }

  /**
   * `create_snapshot` (lines 124-161): row by row, every pixel's four
   * characters, then the row terminator; finally the frame terminator.
   * The result is `Frame(img)`, `4*W*H + 9*H + 1` characters long.
   */
  method CreateSnapshot(img: Bitmap) returns (gcode: string)
    requires img.Rectangular()
    ensures gcode == Frame(img)
    ensures |gcode| == FrameSize(img.width, img.Height())
  {
    gcode := "";
    var y := 0;
    while y < img.Height()
      invariant y <= img.Height()
      invariant gcode == Lines(EncodePixel, img.rows[..y])
    {
      var text := EncodeRowAsWritten(img.rows[y]);
      LinesStep(EncodePixel, img.rows, y);
      gcode := gcode + text + RowTerminator;
      y := y + 1;
    }
    assert img.rows[..y] == img.rows;
    gcode := gcode + FrameTerminator;
    FrameLength(img);
  }
}
