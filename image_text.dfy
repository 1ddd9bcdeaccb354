/** What the three image converters share: pixel grids, their row-major flattening, the
    fixed-width hexadecimal rendering of pixel values, and the chunked lines of the C array
    they print. */
module ImageText {
  import opened Bytes

  datatype Rgb = Rgb(r: byte, g: byte, b: byte)
  datatype Rgba = Rgba(r: byte, g: byte, b: byte, a: byte)

  /** A grid of `height` rows of `width` pixels; pixel (x, y) is rows[y][x]. */
  predicate IsGrid<P>(rows: seq<seq<P>>, width: nat, height: nat)
  {
    |rows| == height && forall y :: 0 <= y < height ==> |rows[y]| == width
  }

  /** The rows one after the other. */
  function Flatten<T>(rows: seq<seq<T>>): seq<T>
  {
    if rows == [] then [] else rows[0] + Flatten(rows[1..])
  }

  /** A flattened grid holds width * height pixels. */
  lemma {:induction false} FlattenLength<T>(rows: seq<seq<T>>, width: nat, height: nat)
    requires IsGrid(rows, width, height)
    ensures |Flatten(rows)| == width * height
  {
    if height > 0 {
      assert IsGrid(rows[1..], width, height - 1) by {
        assert forall y :: 0 <= y < height - 1 ==> rows[1..][y] == rows[y + 1];
      }
      FlattenLength(rows[1..], width, height - 1);
      assert width * height == width + width * (height - 1);
    }
  }

  lemma MulPred(y: nat, w: nat)
    requires y > 0
    ensures y * w == (y - 1) * w + w
  {
  }

  /** In a flattened grid, pixel (x, y) sits at index y * width + x. */
  lemma {:induction false} FlattenAt<T>(rows: seq<seq<T>>, width: nat, height: nat, y: nat, x: nat)
    requires IsGrid(rows, width, height) && y < height && x < width
    ensures y * width + x < |Flatten(rows)|
    ensures Flatten(rows)[y * width + x] == rows[y][x]
  {
    var tail := rows[1..];
    assert Flatten(rows) == rows[0] + Flatten(tail);
    if y > 0 {
      assert IsGrid(tail, width, height - 1) by {
        assert forall j :: 0 <= j < height - 1 ==> tail[j] == rows[j + 1];
      }
      FlattenAt(tail, width, height - 1, y - 1, x);
      MulPred(y, width);
      assert tail[y - 1] == rows[y];
    }
  }

  lemma FlattenAppend<T>(rows: seq<seq<T>>, row: seq<T>)
    ensures Flatten(rows + [row]) == Flatten(rows) + row
  {
    if rows != [] {
      assert (rows + [row])[1..] == rows[1..] + [row];
      FlattenAppend(rows[1..], row);
    } else {
      assert Flatten([row]) == row + Flatten([row][1..]);
    }
  }

  /** A bound on every pixel of the grid bounds every value of its flattening. */
  lemma {:induction false} FlattenBound(rows: seq<seq<nat>>, bound: nat, i: nat)
    requires forall y, x :: 0 <= y < |rows| && 0 <= x < |rows[y]| ==> rows[y][x] < bound
    requires i < |Flatten<nat>(rows)|
    ensures Flatten<nat>(rows)[i] < bound
  {
    var tail := rows[1..];
    assert Flatten(rows) == rows[0] + Flatten(tail);
    if i >= |rows[0]| {
      assert forall y, x :: 0 <= y < |tail| && 0 <= x < |tail[y]| ==> tail[y][x] == rows[y + 1][x];
      FlattenBound(tail, bound, i - |rows[0]|);
    }
  }

  lemma FlattenBounded(rows: seq<seq<nat>>, bound: nat)
    requires forall y, x :: 0 <= y < |rows| && 0 <= x < |rows[y]| ==> rows[y][x] < bound
    ensures forall i :: 0 <= i < |Flatten<nat>(rows)| ==> Flatten<nat>(rows)[i] < bound
  {
    forall i | 0 <= i < |Flatten<nat>(rows)|
      ensures Flatten<nat>(rows)[i] < bound
    {
      FlattenBound(rows, bound, i);
    }
  }

  // ---------------------------------------------------------------------------------------
  // Packing pixels

  /** Every pixel of a grid packed into one value by `pack`. */
  function PackedGrid<P>(img: seq<seq<P>>, pack: P -> nat): (g: seq<seq<nat>>)
    ensures |g| == |img|
    ensures forall y :: 0 <= y < |img| ==> |g[y]| == |img[y]|
  {
    seq(|img|, y requires 0 <= y < |img| =>
      seq(|img[y]|, x requires 0 <= x < |img[y]| => pack(img[y][x])))
  }

  /** The pixel loop of the converters: rows top to bottom, each row left to right, every
      pixel packed and appended to the list of values. */
  method PackPixels<P>(img: seq<seq<P>>, width: nat, height: nat, pack: P -> nat)
    returns (pixels: seq<nat>)
    requires IsGrid(img, width, height)
    ensures pixels == Flatten<nat>(PackedGrid(img, pack))
  {
    var g := PackedGrid(img, pack);
    pixels := [];
    var y := 0;
    while y < height
      invariant 0 <= y <= height
      invariant pixels == Flatten(g[..y])
    {
      var x := 0;
      while x < width
        invariant 0 <= x <= width
        invariant pixels == Flatten(g[..y]) + g[y][..x]
      {
        pixels := pixels + [pack(img[y][x])];
        x := x + 1;
      }
      FlattenAppend(g[..y], g[y]);
      assert g[..y + 1] == g[..y] + [g[y]];
      y := y + 1;
    }
    assert g[..height] == g;
  }

  /** Row-major order: width * height values, pixel (x, y) packed at index y * width + x. */
  lemma PackedRowMajor<P>(img: seq<seq<P>>, width: nat, height: nat, pack: P -> nat, x: nat, y: nat)
    requires IsGrid(img, width, height)
    ensures |Flatten<nat>(PackedGrid(img, pack))| == width * height
    ensures x < width && y < height ==>
      y * width + x < |Flatten<nat>(PackedGrid(img, pack))|
      && Flatten<nat>(PackedGrid(img, pack))[y * width + x] == pack(img[y][x])
  {
    var g := PackedGrid(img, pack);
    assert IsGrid(g, width, height);
    FlattenLength(g, width, height);
    if x < width && y < height {
      FlattenAt(g, width, height, y, x);
    }
  }

  /** A bound on the packed values of single pixels bounds every packed value of a grid. */
  lemma PackedBounded<P>(img: seq<seq<P>>, pack: P -> nat, bound: nat)
    requires forall p :: pack(p) < bound
    ensures forall i :: 0 <= i < |Flatten<nat>(PackedGrid(img, pack))| ==> Flatten<nat>(PackedGrid(img, pack))[i] < bound
  {
    FlattenBounded(PackedGrid(img, pack), bound);
  }

  /** (a << 24) | (r << 16) | (g << 8) | b: the four channels occupy disjoint bytes, so the
      bitwise or is this sum. */
  function Argb8888(p: Rgba): (v: nat)
    ensures v < 0x1_0000_0000
  {
    p.a * 0x100_0000 + p.r * 0x1_0000 + p.g * 0x100 + p.b
  }

  /** The four bytes of an ARGB8888 value, alpha in the top byte. */
  function UnpackArgb(v: nat): (p: Rgba)
    requires v < 0x1_0000_0000
  {
    var rgb := v / 0x100;
    var ar := rgb / 0x100;
    Rgba(ar % 0x100, rgb % 0x100, v % 0x100, ar / 0x100)
  }

  lemma DivMod256(q: nat, r: nat)
    requires r < 0x100
    ensures (q * 0x100 + r) / 0x100 == q && (q * 0x100 + r) % 0x100 == r
  {
  }

  /** Packing loses nothing: each channel is read back, and every 32-bit value is the
      packing of exactly one colour. */
  lemma ArgbRoundTrip(p: Rgba, v: nat)
    ensures UnpackArgb(Argb8888(p)) == p
    ensures v < 0x1_0000_0000 ==> Argb8888(UnpackArgb(v)) == v
  {
    var ar := p.a * 0x100 + p.r;
    var argb := ar * 0x100 + p.g;
    assert Argb8888(p) == argb * 0x100 + p.b;
    DivMod256(argb, p.b);
    DivMod256(ar, p.g);
    DivMod256(p.a, p.r);
  }

  // ---------------------------------------------------------------------------------------
  // Hexadecimal

  function Pow16(n: nat): (p: nat)
    ensures p > 0
  {
    if n == 0 then 1 else 16 * Pow16(n - 1)
  }

  lemma Pow16Widths()
    ensures Pow16(4) == 0x1_0000
    ensures Pow16(8) == 0x1_0000_0000
  {
    assert Pow16(2) == 0x100;
    assert Pow16(4) == 0x1_0000;
    assert Pow16(6) == 0x100_0000;
  }

  function HexChar(d: nat, upper: bool): char
    requires d < 16
  {
    if d < 10 then ('0' as int + d) as char
    else if upper then ('A' as int + d - 10) as char
    else ('a' as int + d - 10) as char
  }

  function HexCharValue(c: char): nat
  {
    if '0' <= c <= '9' then c as int - '0' as int
    else if 'A' <= c <= 'F' then c as int - 'A' as int + 10
    else if 'a' <= c <= 'f' then c as int - 'a' as int + 10
    else 0
  }

  /** format(v, "0nX") or "0nx" for a value that fits n digits: exactly n digits, zero-padded. */
  function Hex(v: nat, n: nat, upper: bool): (s: string)
    requires v < Pow16(n)
    ensures |s| == n
  {
    if n == 0 then [] else Hex(v / 16, n - 1, upper) + [HexChar(v % 16, upper)]
  }

  /** Reading a string of hexadecimal digits, most significant first. */
  function ParseHex(s: string): nat
  {
    if s == [] then 0 else ParseHex(s[..|s| - 1]) * 16 + HexCharValue(s[|s| - 1])
  }

  /** The digits read back as the value, in either case. */
  lemma {:induction false} HexRoundTrip(v: nat, n: nat, upper: bool)
    requires v < Pow16(n)
    ensures ParseHex(Hex(v, n, upper)) == v
  {
    if n > 0 {
      var s := Hex(v, n, upper);
      assert s[..|s| - 1] == Hex(v / 16, n - 1, upper);
      HexRoundTrip(v / 16, n - 1, upper);
    }
  }

  /** A C literal "0x" followed by the digits. */
  function HexLiteral(v: nat, n: nat, upper: bool): (s: string)
    requires v < Pow16(n)
    ensures |s| == n + 2 && s[..2] == "0x"
  {
    "0x" + Hex(v, n, upper)
  }

  // ---------------------------------------------------------------------------------------
  // Lines of values

  /** sep.join(items) */
  function Join(sep: string, items: seq<string>): string
  {
    if items == [] then ""
    else if |items| == 1 then items[0]
    else items[0] + sep + Join(sep, items[1..])
  }

  /** Consecutive pieces of at most k values: s[0:k], s[k:2k], ... */
  function Chunks<T>(s: seq<T>, k: nat): (c: seq<seq<T>>)
    requires k > 0
    decreases |s|
  {
    if s == [] then [] else [s[..Min(k, |s|)]] + Chunks(s[Min(k, |s|)..], k)
  }

  lemma {:induction false} ChunksFlatten<T>(s: seq<T>, k: nat)
    requires k > 0
    ensures Flatten(Chunks(s, k)) == s
    decreases |s|
  {
    if s != [] {
      var m := Min(k, |s|);
      ChunksFlatten(s[m..], k);
      assert Chunks(s, k)[1..] == Chunks(s[m..], k);
      assert s[..m] + s[m..] == s;
    }
  }

  /** There are ceil(|s| / k) chunks: enough to hold the values, and no spare one. */
  lemma {:induction false} ChunksCount<T>(s: seq<T>, k: nat)
    requires k > 0
    ensures (|Chunks(s, k)| - 1) * k < |s| <= |Chunks(s, k)| * k || (s == [] && Chunks(s, k) == [])
    decreases |s|
  {
    if s != [] {
      var m := Min(k, |s|);
      var n := |Chunks(s[m..], k)|;
      ChunksCount(s[m..], k);
      assert |Chunks(s, k)| == n + 1;
      MulPred(n + 1, k);
      if s[m..] != [] {
        MulPred(n, k);
      }
    }
  }

  lemma {:induction false} ChunksSizes<T>(s: seq<T>, k: nat)
    requires k > 0
    ensures forall i :: 0 <= i < |Chunks(s, k)| ==> 0 < |Chunks(s, k)[i]| <= k
    ensures forall i :: 0 <= i < |Chunks(s, k)| - 1 ==> |Chunks(s, k)[i]| == k
    decreases |s|
  {
    if s != [] {
      var m := Min(k, |s|);
      var c := Chunks(s, k);
      ChunksSizes(s[m..], k);
      assert c[1..] == Chunks(s[m..], k);
      assert forall i :: 1 <= i < |c| ==> c[i] == Chunks(s[m..], k)[i - 1];
      assert |c| > 1 ==> s[m..] != [];
    }
  }

  /** The chunks put back together are the values; every chunk holds k values except a
      shorter, non-empty last one; there are ceil(|s| / k) of them. */
  lemma ChunksSpec<T>(s: seq<T>, k: nat)
    requires k > 0
    ensures Flatten(Chunks(s, k)) == s
    ensures (|Chunks(s, k)| - 1) * k < |s| <= |Chunks(s, k)| * k || (s == [] && Chunks(s, k) == [])
    ensures forall i :: 0 <= i < |Chunks(s, k)| ==> 0 < |Chunks(s, k)[i]| <= k
    ensures forall i :: 0 <= i < |Chunks(s, k)| - 1 ==> |Chunks(s, k)[i]| == k
  {
    ChunksFlatten(s, k);
    ChunksCount(s, k);
    ChunksSizes(s, k);
  }

  /** The tokens of a chunk of pixel values, each a literal of `digits` hexadecimal digits. */
  function Tokens(values: seq<nat>, digits: nat, upper: bool): (t: seq<string>)
    requires forall i :: 0 <= i < |values| ==> values[i] < Pow16(digits)
    ensures |t| == |values|
    ensures forall i :: 0 <= i < |values| ==> t[i] == HexLiteral(values[i], digits, upper)
  {
    seq(|values|, i requires 0 <= i < |values| => HexLiteral(values[i], digits, upper))
  }

  /** One printed line: four spaces, the literals separated by ", ", then ",\n". */
  function ArrayLine(chunk: seq<nat>, digits: nat, upper: bool): string
    requires AllFit(chunk, digits)
  {
    "    " + Join(", ", Tokens(chunk, digits, upper)) + ",\n"
  }

  predicate AllFit(values: seq<nat>, digits: nat)
  {
    forall i :: 0 <= i < |values| ==> values[i] < Pow16(digits)
  }

  /** The array body: one line per chunk of `perLine` values. */
  function ArrayText(values: seq<nat>, perLine: nat, digits: nat, upper: bool): string
    requires perLine > 0 && AllFit(values, digits)
    decreases |values|
  {
    if values == [] then ""
    else
      var m := Min(perLine, |values|);
      ArrayLine(values[..m], digits, upper) + ArrayText(values[m..], perLine, digits, upper)
  }

  /** The lines of the body are exactly the lines of the chunks. */
  function LinesOf(chunks: seq<seq<nat>>, digits: nat, upper: bool): string
    requires forall i :: 0 <= i < |chunks| ==> AllFit(chunks[i], digits)
  {
    if chunks == [] then "" else ArrayLine(chunks[0], digits, upper) + LinesOf(chunks[1..], digits, upper)
  }

  lemma {:induction false} ArrayTextIsLinesOfChunks(values: seq<nat>, perLine: nat, digits: nat, upper: bool)
    requires perLine > 0 && AllFit(values, digits)
    ensures forall i :: 0 <= i < |Chunks(values, perLine)| ==> AllFit(Chunks(values, perLine)[i], digits)
    ensures ArrayText(values, perLine, digits, upper) == LinesOf(Chunks(values, perLine), digits, upper)
    decreases |values|
  {
    if values != [] {
      var m := Min(perLine, |values|);
      ArrayTextIsLinesOfChunks(values[m..], perLine, digits, upper);
      var c := Chunks(values, perLine);
      assert c[1..] == Chunks(values[m..], perLine);
      assert forall i :: 1 <= i < |c| ==> c[i] == c[1..][i - 1];
    }
  }

  /** One step of the print loop: the line of the next slice, then the rest. */
  lemma ArrayTextStep(values: seq<nat>, i: nat, end: nat, perLine: nat, digits: nat, upper: bool)
    requires perLine > 0 && AllFit(values, digits)
    requires i < |values| && end == Min(i + perLine, |values|)
    ensures AllFit(values[i..end], digits) && AllFit(values[i..], digits) && AllFit(values[end..], digits)
    ensures ArrayText(values[i..], perLine, digits, upper)
            == ArrayLine(values[i..end], digits, upper) + ArrayText(values[end..], perLine, digits, upper)
  {
    var rest := values[i..];
    var m := Min(perLine, |rest|);
    assert rest[..m] == values[i..end];
    assert rest[m..] == values[end..];
  }

  /** The print loop: for i in range(0, len(values), perLine), one line per slice. */
  method EmitArray(values: seq<nat>, perLine: nat, digits: nat, upper: bool) returns (text: string)
    requires perLine > 0 && AllFit(values, digits)
    ensures text == ArrayText(values, perLine, digits, upper)
  {
    text := "";
    var i := 0;
    while i < |values|
      invariant 0 <= i <= |values|
      invariant text + ArrayText(values[i..], perLine, digits, upper) == ArrayText(values, perLine, digits, upper)
      decreases |values| - i
    {
      var end := Min(i + perLine, |values|);
      var chunk := values[i..end];
      ArrayTextStep(values, i, end, perLine, digits, upper);
      var line := ArrayLine(chunk, digits, upper);
      AppendAssoc(text, line, ArrayText(values[end..], perLine, digits, upper));
      text := text + line;
      i := end;
    }
  }

  /** What the image descriptor announces. */
  datatype ColorFormat = Rgb565Format | Argb8888Format

  /** The LVGL image descriptor's header fields and data size. */
  datatype Descriptor = Descriptor(format: ColorFormat, w: nat, h: nat, stride: nat, dataSize: nat)

  function BytesPerPixel(format: ColorFormat): (n: nat)
    ensures n > 0
  {
    match format
    case Rgb565Format => 2
    case Argb8888Format => 4
  }

  /** stride = width * bytes per pixel; data_size = sizeof the array of `count` values. */
  function ImageDescriptor(format: ColorFormat, width: nat, height: nat, count: nat): Descriptor
  {
    Descriptor(format, width, height, width * BytesPerPixel(format), count * BytesPerPixel(format))
  }

  /** For a full grid the data is exactly `height` rows of `stride` bytes. */
  lemma DescriptorCoversRows(format: ColorFormat, width: nat, height: nat)
    ensures ImageDescriptor(format, width, height, width * height).dataSize
            == ImageDescriptor(format, width, height, width * height).stride * height
  {
    var b := BytesPerPixel(format);
    assert (width * height) * b == (width * b) * height by {
      MulComm3(width, height, b);
    }
  }

  lemma MulComm3(x: nat, y: nat, z: nat)
    ensures (x * y) * z == (x * z) * y
  {
  }
}
