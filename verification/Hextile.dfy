/**
 * The Hextile encoder of the VNC server (src/vnc_server.cpp) and a decoder that
 * follows section 7.7.4 of RFC 6143: decoding what was encoded gives back every
 * pixel, as encode_pixel maps it.
 */
module Hextile {
  import opened Bytes

  datatype Rgb = Rgb(r: Byte, g: Byte, b: Byte)

  /** A picture of rows by columns of 16 by 16 tiles: the encoder assumes such sizes. */
  datatype Frame = Frame(columns: nat, rows: nat, px: seq<seq<Rgb>>)

  predicate Valid(f: Frame) {
    |f.px| == 16 * f.rows && forall y :: 0 <= y < |f.px| ==> |f.px[y]| == 16 * f.columns
  }

  predicate Inside(f: Frame, x: nat, y: nat) {
    Valid(f) && x < 16 * f.columns && y < 16 * f.rows
  }

  function PixelAt(f: Frame, x: nat, y: nat): Rgb
    requires Inside(f, x, y)
  {
    f.px[y][x]
  }

  /** Pixel (x, y) of a frame buffer w pixels wide starts here. */
  function Offset(w: nat, x: nat, y: nat): nat {
    y * w * 3 + x * 3
  }

  lemma OffsetInside(w: nat, h: nat, x: nat, y: nat)
    requires x < w && y < h
    ensures Offset(w, x, y) + 2 < w * h * 3
  {
    assert y * w + w == (y + 1) * w <= h * w;
    assert y * w * 3 == (y * w) * 3;
  }

  function ReadPixel(buf: seq<Byte>, w: nat, h: nat, x: nat, y: nat): Rgb
    requires |buf| == w * h * 3 && x < w && y < h
  {
    OffsetInside(w, h, x, y);
    var o := Offset(w, x, y);
    Rgb(buf[o], buf[o + 1], buf[o + 2])
  }

  function ReadLine(buf: seq<Byte>, w: nat, h: nat, y: nat): (line: seq<Rgb>)
    requires |buf| == w * h * 3 && y < h
    ensures |line| == w && forall x :: 0 <= x < w ==> line[x] == ReadPixel(buf, w, h, x, y)
  {
    seq(w, x requires 0 <= x < w => ReadPixel(buf, w, h, x, y))
  }

  function BufferSize(columns: nat, rows: nat): nat {
    (16 * columns) * (16 * rows) * 3
  }

  /** The picture in a frame buffer: rows of pixels, three bytes each. */
  function FromBuffer(buf: seq<Byte>, columns: nat, rows: nat): (f: Frame)
    requires |buf| == BufferSize(columns, rows)
    ensures Valid(f) && f.columns == columns && f.rows == rows
    ensures forall x, y :: 0 <= x < 16 * columns && 0 <= y < 16 * rows ==>
              PixelAt(f, x, y) == ReadPixel(buf, 16 * columns, 16 * rows, x, y)
  {
    Frame(columns, rows, seq(16 * rows, y requires 0 <= y < 16 * rows => ReadLine(buf, 16 * columns, 16 * rows, y)))
  }

  /** Tile (c, k): column c of row k of tiles. */
  predicate IsTile(f: Frame, c: nat, k: nat) {
    Valid(f) && c < f.columns && k < f.rows
  }

  /** The pixels of a tile, row by row. */
  function Tile(f: Frame, c: nat, k: nat): (t: seq<Rgb>)
    requires IsTile(f, c, k)
    ensures |t| == 256
  {
    seq(256, i requires 0 <= i < 256 => PixelAt(f, 16 * c + i % 16, 16 * k + i / 16))
  }

  lemma TileAt(f: Frame, c: nat, k: nat, tx: nat, ty: nat)
    requires IsTile(f, c, k) && tx < 16 && ty < 16
    ensures Tile(f, c, k)[16 * ty + tx] == PixelAt(f, 16 * c + tx, 16 * k + ty)
  {
  }

  // ----- encoding ------------------------------------------------------------

  /** The top three, three and two bits of the colours, in one byte. */
  function Rgb332(r: Byte, g: Byte, b: Byte): (v: Byte)
    requires r < 8 && g < 8 && b < 4
    ensures v / 32 == r && v / 4 % 8 == g && v % 4 == b
  {
    var rr: int, gg: int, bb: int := r, g, b;
    rr * 32 + gg * 4 + bb
  }

  /** encode_pixel: four bytes, or three, three and two bits of red, green and blue in one. */
  function EncodePixel(depth: Byte, p: Rgb): seq<Byte> {
    if depth == 32 || depth == 24 then [p.b, p.g, p.r, 255]
    else if depth == 8 then [Rgb332(p.r / 32, p.g / 32, p.b / 64)]
    else []
  }

  function EncodePixels(depth: Byte, ps: seq<Rgb>): seq<Byte> {
    if ps == [] then [] else EncodePixel(depth, ps[0]) + EncodePixels(depth, ps[1..])
  }

  predicate Uniform(t: seq<Rgb>) {
    forall i :: 0 <= i < |t| ==> t[i] == t[0]
  }

  function EncodeTile(depth: Byte, t: seq<Rgb>): seq<Byte>
    requires |t| == 256
  {
    if Uniform(t) then [2] + EncodePixel(depth, t[0]) else [1] + EncodePixels(depth, t)
  }

  /** The tiles of row k from column c on. */
  function EncodeRow(f: Frame, depth: Byte, c: nat, k: nat): seq<Byte>
    requires Valid(f) && c <= f.columns && k < f.rows
    decreases f.columns - c
  {
    if c == f.columns then [] else EncodeTile(depth, Tile(f, c, k)) + EncodeRow(f, depth, c + 1, k)
  }

  function EncodeFrame(f: Frame, depth: Byte, k: nat): seq<Byte>
    requires Valid(f) && k <= f.rows
    decreases f.rows - k
  {
    if k == f.rows then [] else EncodeRow(f, depth, 0, k) + EncodeFrame(f, depth, k + 1)
  }

  /** The pixel the encoder reads from the buffer is the frame's. */
  method Read(buf: seq<Byte>, columns: nat, rows: nat, x: nat, y: nat) returns (p: Rgb)
    requires |buf| == BufferSize(columns, rows) && x < 16 * columns && y < 16 * rows
    ensures p == PixelAt(FromBuffer(buf, columns, rows), x, y)
  {
    var w := 16 * columns;
    OffsetInside(w, 16 * rows, x, y);
    var yOffset, xOffset := y * w * 3, x * 3;
    p := Rgb(buf[yOffset + xOffset], buf[yOffset + xOffset + 1], buf[yOffset + xOffset + 2]);
    assert p == ReadPixel(buf, w, 16 * rows, x, y);
  }

  /** The scan for a second colour, which stops at the first one found. */
  method Differs(buf: seq<Byte>, columns: nat, rows: nat, c: nat, k: nat) returns (different: bool)
    requires |buf| == BufferSize(columns, rows) && c < columns && k < rows
    ensures different <==> !Uniform(Tile(FromBuffer(buf, columns, rows), c, k))
  {
    hide Tile, FromBuffer, BufferSize, PixelAt;
    ghost var f := FromBuffer(buf, columns, rows);
    ghost var t := Tile(f, c, k);
    var solid := Read(buf, columns, rows, 16 * c, 16 * k);
    TileAt(f, c, k, 0, 0);
    for ty := 0 to 16
      invariant forall i :: 0 <= i < 16 * ty ==> t[i] == solid
    {
      for tx := 0 to 16
        invariant forall i :: 0 <= i < 16 * ty + tx ==> t[i] == solid
      {
        var current := Read(buf, columns, rows, 16 * c + tx, 16 * k + ty);
        TileAt(f, c, k, tx, ty);
        if current != solid {
          return true;
        }
      }
    }
    return false;
  }

  lemma {:induction false} EncodePixelsSnoc(depth: Byte, ps: seq<Rgb>, p: Rgb)
    ensures EncodePixels(depth, ps + [p]) == EncodePixels(depth, ps) + EncodePixel(depth, p)
  {
    if ps == [] {
      assert ps + [p] == [p] && [p][1..] == [];
    } else {
      assert (ps + [p])[1..] == ps[1..] + [p];
      EncodePixelsSnoc(depth, ps[1..], p);
    }
  }

  method RawTile(buf: seq<Byte>, columns: nat, rows: nat, depth: Byte, c: nat, k: nat) returns (out: seq<Byte>)
    requires |buf| == BufferSize(columns, rows) && c < columns && k < rows
    ensures out == EncodePixels(depth, Tile(FromBuffer(buf, columns, rows), c, k))
  {
    hide EncodePixel, Tile, FromBuffer, BufferSize, PixelAt;
    ghost var f := FromBuffer(buf, columns, rows);
    ghost var t := Tile(f, c, k);
    out := [];
    assert t[..0] == [];
    for ty := 0 to 16
      invariant out == EncodePixels(depth, t[..16 * ty])
    {
      for tx := 0 to 16
        invariant out == EncodePixels(depth, t[..16 * ty + tx])
      {
        ghost var i := 16 * ty + tx;
        var p := Read(buf, columns, rows, 16 * c + tx, 16 * k + ty);
        TileAt(f, c, k, tx, ty);
        assert t[..i + 1] == t[..i] + [p];
        EncodePixelsSnoc(depth, t[..i], p);
        out := out + EncodePixel(depth, p);
      }
    }
    assert t[..256] == t;
  }

  /** One tile of the output: a solid one if it has one colour, otherwise raw. */
  method OneTile(buf: seq<Byte>, columns: nat, rows: nat, depth: Byte, c: nat, k: nat) returns (tile: seq<Byte>)
    requires |buf| == BufferSize(columns, rows) && c < columns && k < rows
    ensures tile == EncodeTile(depth, Tile(FromBuffer(buf, columns, rows), c, k))
  {
    hide EncodePixel, EncodePixels, Uniform, Tile, FromBuffer, BufferSize, PixelAt;
    var solid := Read(buf, columns, rows, 16 * c, 16 * k);
    var different := Differs(buf, columns, rows, c, k);
    if different {
      var raw := RawTile(buf, columns, rows, depth, c, k);
      tile := [1] + raw;
    } else {
      TileAt(FromBuffer(buf, columns, rows), c, k, 0, 0);
      tile := [2] + EncodePixel(depth, solid);
    }
  }

  /** hextile, on a frame buffer of columns by rows tiles. */
  method EncodeHextile(buf: seq<Byte>, columns: nat, rows: nat, depth: Byte) returns (out: seq<Byte>)
    requires |buf| == BufferSize(columns, rows)
    ensures out == EncodeFrame(FromBuffer(buf, columns, rows), depth, 0)
  {
    hide Tile, EncodeTile, FromBuffer, BufferSize, PixelAt;
    ghost var f := FromBuffer(buf, columns, rows);
    out := [];
    for k := 0 to rows
      invariant out + EncodeFrame(f, depth, k) == EncodeFrame(f, depth, 0)
    {
      ghost var below := EncodeFrame(f, depth, k + 1);
      assert out + EncodeRow(f, depth, 0, k) + below == out + EncodeFrame(f, depth, k);
      for c := 0 to columns
        invariant out + EncodeRow(f, depth, c, k) + below == EncodeFrame(f, depth, 0)
      {
        var tile := OneTile(buf, columns, rows, depth, c, k);
        assert (out + tile) + EncodeRow(f, depth, c + 1, k) == out + EncodeRow(f, depth, c, k);
        out := out + tile;
      }
      assert out + [] == out;
    }
    assert out + [] == out;
  }

  // ----- decoding --------------------------------------------------------------

  /** Bytes per pixel on the wire, for the depths encode_pixel knows. */
  predicate Supported(depth: Byte) {
    depth == 8 || depth == 24 || depth == 32
  }

  function PixelSize(depth: Byte): (n: nat)
    ensures n > 0
  {
    if depth == 8 then 1 else 4
  }

  function Split(b: seq<Byte>, size: nat, n: nat): (ps: seq<seq<Byte>>)
    requires size > 0 && |b| == n * size
    ensures |ps| == n
    decreases n
  {
    if n == 0 then []
    else
      assert n * size == size + (n - 1) * size;
      [b[..size]] + Split(b[size..], size, n - 1)
  }

  datatype TileResult = TileResult(pixels: seq<seq<Byte>>, background: seq<Byte>, rest: seq<Byte>)

  /**
   * One tile: a raw tile has all its pixels; any other is filled with the
   * background, given here or carried over. Tiles with subrectangles, which the
   * encoder never makes, are not decoded.
   */
  function DecodeTile(size: nat, background: seq<Byte>, b: seq<Byte>): Option<TileResult>
    requires size > 0
  {
    if b == [] then None
    else
      var mask := b[0];
      if mask % 2 == 1 then
        if |b| < 1 + 256 * size then None
        else Some(TileResult(Split(b[1..1 + 256 * size], size, 256), background, b[1 + 256 * size..]))
      else if mask / 8 % 2 == 1 then None
      else
        var bgSize := if mask / 2 % 2 == 1 then size else 0;
        var fgSize := if mask / 4 % 2 == 1 then size else 0;
        if |b| < 1 + bgSize + fgSize then None
        else
          var bg := if bgSize > 0 then b[1..1 + size] else background;
          Some(TileResult(seq(256, _ => bg), bg, b[1 + bgSize + fgSize..]))
  }

  datatype RowResult = RowResult(tiles: seq<seq<seq<Byte>>>, background: seq<Byte>, rest: seq<Byte>)

  function DecodeRow(size: nat, background: seq<Byte>, b: seq<Byte>, n: nat): Option<RowResult>
    requires size > 0
    decreases n
  {
    if n == 0 then Some(RowResult([], background, b))
    else
      var t := DecodeTile(size, background, b);
      if t.None? then None
      else
        var r := DecodeRow(size, t.value.background, t.value.rest, n - 1);
        if r.None? then None else Some(r.value.(tiles := [t.value.pixels] + r.value.tiles))
  }

  /** All rows of tiles; nothing may be left over. */
  function DecodeFrame(size: nat, background: seq<Byte>, b: seq<Byte>, columns: nat, n: nat)
    : Option<seq<seq<seq<seq<Byte>>>>>
    requires size > 0
    decreases n
  {
    if n == 0 then (if b == [] then Some([]) else None)
    else
      var r := DecodeRow(size, background, b, columns);
      if r.None? then None
      else
        var below := DecodeFrame(size, r.value.background, r.value.rest, columns, n - 1);
        if below.None? then None else Some([r.value.tiles] + below.value)
  }

  // ----- the round trip ---------------------------------------------------------

  /** A tile's pixels as they go over the wire. */
  function Mapped(depth: Byte, t: seq<Rgb>): (ps: seq<seq<Byte>>)
    ensures |ps| == |t|
  {
    seq(|t|, i requires 0 <= i < |t| => EncodePixel(depth, t[i]))
  }

  lemma PixelSizeRight(depth: Byte, p: Rgb)
    requires Supported(depth)
    ensures |EncodePixel(depth, p)| == PixelSize(depth)
  {
  }

  lemma {:induction false} SplitPixels(depth: Byte, ps: seq<Rgb>)
    requires Supported(depth)
    ensures |EncodePixels(depth, ps)| == |ps| * PixelSize(depth)
    ensures Split(EncodePixels(depth, ps), PixelSize(depth), |ps|) == Mapped(depth, ps)
  {
    if ps != [] {
      var size := PixelSize(depth);
      SplitPixels(depth, ps[1..]);
      PixelSizeRight(depth, ps[0]);
      hide EncodePixel, PixelSize;
      var b := EncodePixels(depth, ps);
      assert |ps| * size == size + |ps[1..]| * size;
      assert b[..size] == EncodePixel(depth, ps[0]) && b[size..] == EncodePixels(depth, ps[1..]);
      assert Mapped(depth, ps) == [EncodePixel(depth, ps[0])] + Mapped(depth, ps[1..]);
    }
  }

  lemma SolidRoundTrip(size: nat, pixel: seq<Byte>, background: seq<Byte>, rest: seq<Byte>)
    requires size > 0 && |pixel| == size
    ensures DecodeTile(size, background, [2] + pixel + rest) == Some(TileResult(seq(256, _ => pixel), pixel, rest))
  {
    var b := [2] + pixel + rest;
    assert b[0] == 2 && b[1..1 + size] == pixel && b[1 + size..] == rest;
  }

  lemma RawRoundTrip(size: nat, raw: seq<Byte>, background: seq<Byte>, rest: seq<Byte>)
    requires size > 0 && |raw| == 256 * size
    ensures DecodeTile(size, background, [1] + raw + rest) == Some(TileResult(Split(raw, size, 256), background, rest))
  {
    hide Split;
    var b := [1] + raw + rest;
    assert b[0] == 1 && b[1..1 + 256 * size] == raw && b[1 + 256 * size..] == rest;
  }

  lemma MappedSolid(depth: Byte, t: seq<Rgb>)
    requires |t| == 256 && Uniform(t)
    ensures Mapped(depth, t) == seq(256, _ => EncodePixel(depth, t[0]))
  {
  }

  /** One tile, whatever background came before and whatever bytes follow. */
  lemma TileRoundTrip(depth: Byte, t: seq<Rgb>, background: seq<Byte>, rest: seq<Byte>)
    requires Supported(depth) && |t| == 256
    ensures var r := DecodeTile(PixelSize(depth), background, EncodeTile(depth, t) + rest);
            r.Some? && r.value.pixels == Mapped(depth, t) && r.value.rest == rest
  {
    hide EncodePixel, PixelSize, Split, EncodePixels, DecodeTile, Mapped;
    var size := PixelSize(depth);
    if Uniform(t) {
      PixelSizeRight(depth, t[0]);
      SolidRoundTrip(size, EncodePixel(depth, t[0]), background, rest);
      MappedSolid(depth, t);
    } else {
      SplitPixels(depth, t);
      RawRoundTrip(size, EncodePixels(depth, t), background, rest);
    }
  }

  /** The pixels of row k of tiles, as they should come out of the decoder. */
  function RowTiles(f: Frame, depth: Byte, c: nat, k: nat): (ts: seq<seq<seq<Byte>>>)
    requires Valid(f) && c <= f.columns && k < f.rows
    ensures |ts| == f.columns - c
  {
    seq(f.columns - c, i requires 0 <= i < f.columns - c => Mapped(depth, Tile(f, c + i, k)))
  }

  lemma {:induction false} RowRoundTrip(f: Frame, depth: Byte, c: nat, k: nat, background: seq<Byte>, rest: seq<Byte>)
    requires Supported(depth) && Valid(f) && c <= f.columns && k < f.rows
    ensures var r := DecodeRow(PixelSize(depth), background, EncodeRow(f, depth, c, k) + rest, f.columns - c);
            r.Some? && r.value.tiles == RowTiles(f, depth, c, k) && r.value.rest == rest
    decreases f.columns - c
  {
    hide DecodeTile, EncodeTile, Mapped, Tile, PixelSize;
    var b := EncodeRow(f, depth, c, k) + rest;
    if c == f.columns {
      assert b == rest;
    } else {
      var t := Tile(f, c, k);
      var after := EncodeRow(f, depth, c + 1, k) + rest;
      assert b == EncodeTile(depth, t) + after;
      TileRoundTrip(depth, t, background, after);
      var d := DecodeTile(PixelSize(depth), background, b).value;
      RowRoundTrip(f, depth, c + 1, k, d.background, rest);
      assert RowTiles(f, depth, c, k) == [Mapped(depth, t)] + RowTiles(f, depth, c + 1, k);
    }
  }

  /** All rows of tiles from row k on. */
  function FrameTiles(f: Frame, depth: Byte, k: nat): (rs: seq<seq<seq<seq<Byte>>>>)
    requires Valid(f) && k <= f.rows
    ensures |rs| == f.rows - k
  {
    seq(f.rows - k, i requires 0 <= i < f.rows - k => RowTiles(f, depth, 0, k + i))
  }

  lemma {:induction false} FrameRoundTrip(f: Frame, depth: Byte, k: nat, background: seq<Byte>)
    requires Supported(depth) && Valid(f) && k <= f.rows
    ensures DecodeFrame(PixelSize(depth), background, EncodeFrame(f, depth, k), f.columns, f.rows - k)
            == Some(FrameTiles(f, depth, k))
    decreases f.rows - k
  {
    hide DecodeRow, EncodeRow, RowTiles, PixelSize;
    if k < f.rows {
      var b := EncodeFrame(f, depth, k);
      var after := EncodeFrame(f, depth, k + 1);
      RowRoundTrip(f, depth, 0, k, background, after);
      var row := DecodeRow(PixelSize(depth), background, b, f.columns).value;
      FrameRoundTrip(f, depth, k + 1, row.background);
      assert FrameTiles(f, depth, k) == [RowTiles(f, depth, 0, k)] + FrameTiles(f, depth, k + 1);
    }
  }

  lemma FrameDecodes(f: Frame, depth: Byte, background: seq<Byte>, x: nat, y: nat)
    requires Supported(depth) && Inside(f, x, y)
    ensures var r := DecodeFrame(PixelSize(depth), background, EncodeFrame(f, depth, 0), f.columns, f.rows);
            && r.Some? && y / 16 < |r.value| && x / 16 < |r.value[y / 16]|
            && 16 * (y % 16) + x % 16 < |r.value[y / 16][x / 16]|
            && r.value[y / 16][x / 16][16 * (y % 16) + x % 16] == EncodePixel(depth, PixelAt(f, x, y))
  {
    hide DecodeFrame, EncodeFrame, EncodePixel, PixelSize, FrameTiles;
    FrameRoundTrip(f, depth, 0, background);
    FrameTilesAt(f, depth, x, y);
  }

  /** Four bytes as one number, the least significant first. */
  function Pixel32(b0: nat, b1: nat, b2: nat, b3: nat): nat {
    b0 + 256 * (b1 + 256 * (b2 + 256 * b3))
  }

  /** Pixel (x, y) is three bytes in a row, rows one after the other. */
  lemma ReadAt(buf: seq<Byte>, w: nat, h: nat, x: nat, y: nat)
    requires |buf| == w * h * 3 && x < w && y < h
    ensures var at := 3 * (y * w + x);
            at + 2 < |buf| && ReadPixel(buf, w, h, x, y) == Rgb(buf[at], buf[at + 1], buf[at + 2])
  {
    OffsetInside(w, h, x, y);
    assert y * w * 3 == 3 * (y * w);
  }

  /**
   * What a client shows: a little-endian pixel with red at bit 16, green at 8 and
   * blue at 0, or the parts of one byte.
   */
  function Shown(depth: Byte, b: seq<Byte>): Rgb
    requires Supported(depth) && |b| == PixelSize(depth)
  {
    if depth == 8 then Rgb(b[0] / 32, b[0] / 4 % 8, b[0] % 4)
    else
      var v := Pixel32(b[0], b[1], b[2], b[3]);
      Rgb(v / 65536 % 256, v / 256 % 256, v % 256)
  }

  /** What of a colour is to be seen at a depth. */
  function Visible(depth: Byte, r: Byte, g: Byte, b: Byte): Rgb {
    if depth == 8 then Rgb(r / 32, g / 32, b / 64) else Rgb(r, g, b)
  }

  lemma PartsOf(b0: Byte, b1: Byte, b2: Byte, b3: Byte)
    ensures var v := Pixel32(b0, b1, b2, b3); v % 256 == b0 && v / 256 % 256 == b1 && v / 65536 % 256 == b2
  {
    var w0: int, w1: int, w2: int, w3: int := b0, b1, b2, b3;
    var v := Pixel32(b0, b1, b2, b3);
    assert v / 256 == w1 + 256 * (w2 + 256 * w3);
    assert v / 65536 == w2 + 256 * w3;
  }

  /** At 24 and 32 bits the client shows the colour itself, at 8 its top three, three and two bits. */
  lemma PixelShown(depth: Byte, p: Rgb)
    requires Supported(depth)
    ensures var b := EncodePixel(depth, p);
            && |b| == PixelSize(depth)
            && Shown(depth, b) == Visible(depth, p.r, p.g, p.b)
  {
    if depth == 8 {
      var v := Rgb332(p.r / 32, p.g / 32, p.b / 64);
    } else {
      PartsOf(p.b, p.g, p.r, 255);
      hide Pixel32;
    }
  }

  /**
   * The server announces big-endian pixels with the same shifts. A client that
   * goes by that takes green for red, red for green and full blue, so it is right
   * exactly about colours with as much red as green and full blue.
   */
  lemma AnnouncedFormat(depth: Byte, p: Rgb)
    requires depth == 24 || depth == 32
    ensures var b := EncodePixel(depth, p);
            |b| == 4 &&
            var v := Pixel32(b[3], b[2], b[1], b[0]);
            && Rgb(v / 65536 % 256, v / 256 % 256, v % 256) == Rgb(p.g, p.r, 255)
            && (Rgb(v / 65536 % 256, v / 256 % 256, v % 256) == p <==> p.r == p.g && p.b == 255)
  {
    PartsOf(255, p.r, p.g, p.b);
    hide Pixel32;
  }

  /** A tile is sent as one colour exactly if it has one. */
  lemma SolidIffUniform(depth: Byte, t: seq<Rgb>)
    requires |t| == 256 && Supported(depth)
    ensures var e := EncodeTile(depth, t);
            && |e| == 1 + (if Uniform(t) then 1 else 256) * PixelSize(depth)
            && e[0] == if Uniform(t) then 2 else 1
  {
    hide EncodePixel, Uniform;
    PixelSizeRight(depth, t[0]);
    SplitPixels(depth, t);
  }

  /** Pixel (x, y) of the picture the decoder makes of some bytes. */
  function DecodedPixel(b: seq<Byte>, columns: nat, rows: nat, size: nat, background: seq<Byte>, x: nat, y: nat)
    : Option<seq<Byte>>
    requires size > 0
  {
    var r := DecodeFrame(size, background, b, columns, rows);
    var i := 16 * (y % 16) + x % 16;
    if r.Some? && y / 16 < |r.value| && x / 16 < |r.value[y / 16]| && i < |r.value[y / 16][x / 16]|
    then Some(r.value[y / 16][x / 16][i])
    else None
  }

  lemma BufferDecodes(buf: seq<Byte>, columns: nat, rows: nat, depth: Byte, background: seq<Byte>, x: nat, y: nat)
    requires |buf| == BufferSize(columns, rows) && Supported(depth) && x < 16 * columns && y < 16 * rows
    ensures DecodedPixel(EncodeFrame(FromBuffer(buf, columns, rows), depth, 0),
                         columns, rows, PixelSize(depth), background, x, y)
            == Some(EncodePixel(depth, ReadPixel(buf, 16 * columns, 16 * rows, x, y)))
  {
    hide DecodeFrame, EncodeFrame, EncodePixel, PixelSize;
    FrameDecodes(FromBuffer(buf, columns, rows), depth, background, x, y);
  }

  /**
   * Hextile theorem. For every frame buffer, every supported depth and every
   * pixel, the decoder finds the colour of the three bytes there, or its top bits
   * at depth 8; at is where they are.
   */
  lemma HextileDecodes(buf: seq<Byte>, columns: nat, rows: nat, depth: Byte, background: seq<Byte>,
                       x: nat, y: nat, at: nat)
    requires |buf| == BufferSize(columns, rows) && Supported(depth) && x < 16 * columns && y < 16 * rows
    requires at == 3 * (y * (16 * columns) + x)
    ensures var px := DecodedPixel(EncodeFrame(FromBuffer(buf, columns, rows), depth, 0),
                                   columns, rows, PixelSize(depth), background, x, y);
            && px.Some? && |px.value| == PixelSize(depth) && at + 2 < |buf|
            && Shown(depth, px.value) == Visible(depth, buf[at], buf[at + 1], buf[at + 2])
  {
    hide DecodedPixel, DecodeFrame, EncodeFrame, FromBuffer, PixelSize;
    hide Shown, Visible, EncodePixel, ReadPixel, Supported;
    BufferDecodes(buf, columns, rows, depth, background, x, y);
    ReadAt(buf, 16 * columns, 16 * rows, x, y);
    var p := ReadPixel(buf, 16 * columns, 16 * rows, x, y);
    PixelShown(depth, p);
  }

  lemma FrameTilesAt(f: Frame, depth: Byte, x: nat, y: nat)
    requires Inside(f, x, y)
    ensures var r := FrameTiles(f, depth, 0);
            && y / 16 < |r| && x / 16 < |r[y / 16]|
            && 16 * (y % 16) + x % 16 < |r[y / 16][x / 16]|
            && r[y / 16][x / 16][16 * (y % 16) + x % 16] == EncodePixel(depth, PixelAt(f, x, y))
  {
  }

  /** At 24 and 32 bits the wire form names the colour exactly. */
  lemma ExactColour(depth: Byte, p: Rgb, q: Rgb)
    requires depth == 24 || depth == 32
    ensures EncodePixel(depth, p) == EncodePixel(depth, q) <==> p == q
  {
  }

  /** At 8 bits it names the top three, three and two bits exactly. */
  lemma ColourClass(p: Rgb, q: Rgb)
    ensures EncodePixel(8, p) == EncodePixel(8, q)
            <==> p.r / 32 == q.r / 32 && p.g / 32 == q.g / 32 && p.b / 64 == q.b / 64
  {
  }

  predicate Solid(t: seq<Rgb>)
    ensures Solid(t) ==> |t| == 256
  {
    |t| == 256 && Uniform(t)
  }

  /** A client that asked for any other depth gets no colour at all: all solid tiles look the same. */
  lemma OnlySupportedDepthsCarryColour(depth: Byte)
    ensures Supported(depth) <==> exists t, u :: Solid(t) && Solid(u) && EncodeTile(depth, t) != EncodeTile(depth, u)
  {
    hide EncodeTile, EncodePixel, Solid;
    if Supported(depth) {
      BlackIsNotWhite(depth);
    } else {
      forall t, u | Solid(t) && Solid(u)
        ensures EncodeTile(depth, t) == EncodeTile(depth, u)
      {
        NoColour(depth, t);
        NoColour(depth, u);
      }
    }
  }

  lemma NoColour(depth: Byte, t: seq<Rgb>)
    requires !Supported(depth) && Solid(t)
    ensures EncodeTile(depth, t) == [2]
  {
  }

  function OneColour(p: Rgb): (t: seq<Rgb>)
    ensures Solid(t) && t[0] == p
  {
    seq(256, _ => p)
  }

  lemma FirstBytes(depth: Byte)
    requires Supported(depth)
    ensures var b, w := EncodePixel(depth, Rgb(0, 0, 0)), EncodePixel(depth, Rgb(255, 255, 255));
            |b| > 0 && |w| > 0 && b[0] != w[0]
  {
  }

  lemma BlackIsNotWhite(depth: Byte)
    requires Supported(depth)
    ensures EncodeTile(depth, OneColour(Rgb(0, 0, 0))) != EncodeTile(depth, OneColour(Rgb(255, 255, 255)))
  {
    hide *;
    var black, white := OneColour(Rgb(0, 0, 0)), OneColour(Rgb(255, 255, 255));
    SolidBytes(depth, black);
    SolidBytes(depth, white);
    FirstBytes(depth);
    var b, w := EncodePixel(depth, black[0]), EncodePixel(depth, white[0]);
    assert ([2] + b)[1] == b[0] && ([2] + w)[1] == w[0];
  }

  lemma SolidBytes(depth: Byte, t: seq<Rgb>)
    requires Solid(t)
    ensures EncodeTile(depth, t) == [2] + EncodePixel(depth, t[0])
  {
  }
}
