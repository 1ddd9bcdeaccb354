/** convert_heart_image.py: the heart shrunk into an 80 x 80 transparent canvas, centred, and
    written as an LVGL ARGB8888 C array with lower-case literals, eight per line and one
    block of lines per pixel row. Loading and thumbnailing the picture are not modelled; the
    model starts from the thumbnail's RGBA grid. */
module ConvertHeart {
  import opened Bytes
  import opened ImageText

  const TARGET_SIZE: nat := 80
  const TRANSPARENT: Rgba := Rgba(0, 0, 0, 0)
  const GROUP: nat := 8
  const INDENT: string := "    "
  const SEPARATOR: string := ", "
  const GROUP_BREAK: string := "\n    "

  /** (target - w) // 2: the margin before the thumbnail; the margin after it is the same or
      one pixel wider. */
  function CentreOffset(target: nat, w: nat): (o: nat)
    requires w <= target
    ensures o + w <= target
    ensures target - w - o == o || target - w - o == o + 1
  {
    (target - w) / 2
  }

  /** A target x target canvas of transparent pixels with the w x h thumbnail pasted at the
      centring offset, replacing what was there. */
  function Paste(img: seq<seq<Rgba>>, w: nat, h: nat, target: nat): (canvas: seq<seq<Rgba>>)
    requires IsGrid(img, w, h) && w <= target && h <= target
    ensures IsGrid(canvas, target, target)
  {
    var ox := CentreOffset(target, w);
    var oy := CentreOffset(target, h);
    seq(target, y requires 0 <= y < target =>
      seq(target, x requires 0 <= x < target =>
        if ox <= x < ox + w && oy <= y < oy + h then img[y - oy][x - ox] else TRANSPARENT))
  }

  /** Every thumbnail pixel lands unchanged at its offset position, and every canvas pixel
      outside the thumbnail's rectangle stays transparent. */
  lemma PasteSpec(img: seq<seq<Rgba>>, w: nat, h: nat, target: nat, ox: nat, oy: nat)
    requires IsGrid(img, w, h) && w <= target && h <= target
    requires ox == CentreOffset(target, w) && oy == CentreOffset(target, h)
    ensures forall y, x :: 0 <= y < h && 0 <= x < w ==> Paste(img, w, h, target)[y + oy][x + ox] == img[y][x]
    ensures forall y, x :: 0 <= y < target && 0 <= x < target && !(ox <= x < ox + w && oy <= y < oy + h) ==>
      Paste(img, w, h, target)[y][x] == TRANSPARENT
  {
  }

  /** f"0x{argb:08x}" */
  function Token(p: Rgba): (s: string)
    ensures |s| == 10
  {
    Pow16Widths();
    HexLiteral(Argb8888(p), 8, false)
  }

  function RowTokens(row: seq<Rgba>): (t: seq<string>)
    ensures |t| == |row|
  {
    seq(|row|, x requires 0 <= x < |row| => Token(row[x]))
  }

  function GridTokens(canvas: seq<seq<Rgba>>): (t: seq<seq<string>>)
    ensures |t| == |canvas|
  {
    seq(|canvas|, y requires 0 <= y < |canvas| => RowTokens(canvas[y]))
  }

  // ---------------------------------------------------------------------------------------
  // The text as the loop writes it, pixel by pixel

  /** ", " after pixel x unless it is the last pixel of the last row. */
  function SeparatorAfter(x: nat, width: nat, lastRow: bool): string
  {
    if !lastRow || x + 1 < width then SEPARATOR else ""
  }

  /** A line break and indentation after every eighth pixel that does not end its row. */
  function BreakAfter(x: nat, width: nat): string
  {
    if (x + 1) % GROUP == 0 && x + 1 < width then GROUP_BREAK else ""
  }

  /** What the inner loop writes for pixel x of a row of `width` pixels. */
  function PixelText(tok: string, x: nat, width: nat, lastRow: bool): string
  {
    tok + SeparatorAfter(x, width, lastRow) + BreakAfter(x, width)
  }

  /** The inner loop's output from pixel x to the end of the row. */
  function RowFrom(toks: seq<string>, x: nat, lastRow: bool): string
    decreases |toks| - x
  {
    if x >= |toks| then "" else PixelText(toks[x], x, |toks|, lastRow) + RowFrom(toks, x + 1, lastRow)
  }

  // ---------------------------------------------------------------------------------------
  // The layout, stated by its structure

  function JoinedGroups(groups: seq<seq<string>>): (j: seq<string>)
    ensures |j| == |groups|
  {
    seq(|groups|, i requires 0 <= i < |groups| => Join(SEPARATOR, groups[i]))
  }

  /** One pixel row: indented; the literals in groups of eight, joined by ", " within a group
      and by ", " plus a new indented line between groups; every row but the last ends with
      ", " after its last literal and a line break. */
  function RowLayout(toks: seq<string>, lastRow: bool): string
  {
    INDENT + Join(SEPARATOR + GROUP_BREAK, JoinedGroups(Chunks(toks, GROUP)))
    + (if !lastRow && |toks| > 0 then SEPARATOR else "")
    + (if !lastRow then "\n" else "")
  }

  /** The rows one after the other; only the last is unterminated. */
  function HeartLayout(rows: seq<seq<string>>): string
  {
    if rows == [] then "" else RowLayout(rows[0], |rows| == 1) + HeartLayout(rows[1..])
  }

  /** What follows the literals of a group that ends before pixel e. */
  function GroupEnd(toks: seq<string>, e: nat, lastRow: bool): string
  {
    if e < |toks| then SEPARATOR + (GROUP_BREAK + RowFrom(toks, e, lastRow))
    else if !lastRow then SEPARATOR else ""
  }

  /** A pixel that ends its group or its row: the literal, then what ends the group. */
  lemma GroupLast(toks: seq<string>, j: nat, lastRow: bool)
    requires j < |toks| && (j + 1 == |toks| || (j + 1) % GROUP == 0)
    ensures RowFrom(toks, j, lastRow) == toks[j] + GroupEnd(toks, j + 1, lastRow)
  {
    var t := toks[j];
    var n := |toks|;
    var rest := RowFrom(toks, j + 1, lastRow);
    assert RowFrom(toks, j, lastRow) == PixelText(t, j, n, lastRow) + rest;
    if j + 1 < n {
      assert SeparatorAfter(j, n, lastRow) == SEPARATOR;
      assert BreakAfter(j, n) == GROUP_BREAK;
      calc {
        PixelText(t, j, n, lastRow) + rest;
        (t + SEPARATOR + GROUP_BREAK) + rest;
        { AppendAssoc(t + SEPARATOR, GROUP_BREAK, rest); }
        (t + SEPARATOR) + (GROUP_BREAK + rest);
        { AppendAssoc(t, SEPARATOR, GROUP_BREAK + rest); }
        t + (SEPARATOR + (GROUP_BREAK + rest));
        { AppendAssoc(SEPARATOR, GROUP_BREAK, rest); }
        t + GroupEnd(toks, j + 1, lastRow);
      }
    } else {
      assert rest == "";
      assert BreakAfter(j, n) == "";
      assert PixelText(t, j, n, lastRow) == t + SeparatorAfter(j, n, lastRow);
    }
  }

  /** A pixel inside a group: the literal and ", ". */
  lemma GroupInner(toks: seq<string>, j: nat, lastRow: bool)
    requires j + 1 < |toks| && (j + 1) % GROUP != 0
    ensures RowFrom(toks, j, lastRow) == toks[j] + SEPARATOR + RowFrom(toks, j + 1, lastRow)
  {
    assert SeparatorAfter(j, |toks|, lastRow) == SEPARATOR;
    assert BreakAfter(j, |toks|) == "";
    assert PixelText(toks[j], j, |toks|, lastRow) == toks[j] + SEPARATOR;
  }

  /** Pixels j .. e-1, all in one group of eight, the last of them ending it, are written as
      their literals joined by ", ", followed by what ends the group. */
  lemma {:induction false} GroupFrom(toks: seq<string>, j: nat, e: nat, lastRow: bool)
    requires j < e <= |toks|
    requires e == |toks| || e % GROUP == 0
    requires j % GROUP + (e - j) <= GROUP
    ensures RowFrom(toks, j, lastRow) == Join(SEPARATOR, toks[j..e]) + GroupEnd(toks, e, lastRow)
    decreases e - j
  {
    if j == e - 1 {
      GroupLast(toks, j, lastRow);
      assert toks[j..e] == [toks[j]];
    } else {
      NextInGroup(j);
      GroupFrom(toks, j + 1, e, lastRow);
      GroupStep(toks, j, e, lastRow);
    }
  }

  /** One literal more at the front of a group. */
  lemma GroupStep(toks: seq<string>, j: nat, e: nat, lastRow: bool)
    requires j + 1 < e <= |toks| && (j + 1) % GROUP != 0
    requires RowFrom(toks, j + 1, lastRow) == Join(SEPARATOR, toks[j + 1..e]) + GroupEnd(toks, e, lastRow)
    ensures RowFrom(toks, j, lastRow) == Join(SEPARATOR, toks[j..e]) + GroupEnd(toks, e, lastRow)
  {
    var t := toks[j];
    var tail := GroupEnd(toks, e, lastRow);
    var inner := Join(SEPARATOR, toks[j + 1..e]);
    GroupInner(toks, j, lastRow);
    assert Join(SEPARATOR, toks[j..e]) == t + SEPARATOR + inner by {
      JoinCons(SEPARATOR, t, toks[j + 1..e]);
      assert toks[j..e] == [t] + toks[j + 1..e];
    }
    AppendAssoc(t + SEPARATOR, inner, tail);
  }

  lemma NextInGroup(j: nat)
    requires j % GROUP < GROUP - 1
    ensures (j + 1) % GROUP == j % GROUP + 1
  {
  }

  lemma JoinCons(sep: string, head: string, rest: seq<string>)
    requires rest != []
    ensures Join(sep, [head] + rest) == head + sep + Join(sep, rest)
  {
    assert ([head] + rest)[1..] == rest;
  }

  lemma ChunksStep(toks: seq<string>, from: nat, e: nat)
    requires from < e <= |toks| && e == Min(from + GROUP, |toks|)
    ensures Chunks(toks[from..], GROUP) == [toks[from..e]] + Chunks(toks[e..], GROUP)
  {
    var s := toks[from..];
    var m := Min(GROUP, |s|);
    assert s[..m] == toks[from..e];
    assert s[m..] == toks[e..];
  }

  /** From the start of a group of eight to the end of the row, the loop writes the grouped
      layout. */
  lemma {:induction false} RowGroups(toks: seq<string>, from: nat, lastRow: bool)
    requires from < |toks| && from % GROUP == 0
    ensures RowFrom(toks, from, lastRow)
      == Join(SEPARATOR + GROUP_BREAK, JoinedGroups(Chunks(toks[from..], GROUP)))
         + (if !lastRow then SEPARATOR else "")
    decreases |toks| - from
  {
    var e := Min(from + GROUP, |toks|);
    var sep := SEPARATOR + GROUP_BREAK;
    var ending := if !lastRow then SEPARATOR else "";
    var group := Join(SEPARATOR, toks[from..e]);
    GroupFrom(toks, from, e, lastRow);
    ChunksStep(toks, from, e);
    var rest := Chunks(toks[e..], GROUP);
    var joined := JoinedGroups(Chunks(toks[from..], GROUP));
    assert joined == [group] + JoinedGroups(rest);
    if e < |toks| {
      RowGroups(toks, e, lastRow);
      var j := Join(sep, JoinedGroups(rest));
      assert rest != [];
      JoinCons(sep, group, JoinedGroups(rest));
      calc {
        RowFrom(toks, from, lastRow);
        group + (SEPARATOR + (GROUP_BREAK + (j + ending)));
        { AppendAssoc(SEPARATOR, GROUP_BREAK, j + ending); }
        group + (sep + (j + ending));
        { AppendAssoc(sep, j, ending); }
        group + ((sep + j) + ending);
        { AppendAssoc(group, sep + j, ending); }
        (group + (sep + j)) + ending;
        { AppendAssoc(group, sep, j); }
        (group + sep + j) + ending;
        Join(sep, joined) + ending;
      }
    } else {
      assert toks[e..] == [];
      assert joined == [group];
    }
  }

  /** The loop over one row, with the line break after it, writes RowLayout. */
  lemma RowLoopIsLayout(toks: seq<string>, lastRow: bool)
    ensures INDENT + RowFrom(toks, 0, lastRow) + (if !lastRow then "\n" else "") == RowLayout(toks, lastRow)
  {
    if toks != [] {
      RowGroups(toks, 0, lastRow);
      assert toks[0..] == toks;
    }
  }

  /** The inner loop of the source over one pixel row; `lastRow` is its test y == height - 1. */
  method EmitRow(row: seq<Rgba>, lastRow: bool) returns (text: string)
    ensures text == RowFrom(RowTokens(row), 0, lastRow)
  {
    ghost var toks := RowTokens(row);
    var width := |row|;
    text := "";
    var x := 0;
    while x < width
      invariant 0 <= x <= width
      invariant text + RowFrom(toks, x, lastRow) == RowFrom(toks, 0, lastRow)
    {
      ghost var before := text;
      ghost var sepText := SeparatorAfter(x, width, lastRow);
      ghost var breakText := BreakAfter(x, width);
      ghost var rest := RowFrom(toks, x + 1, lastRow);
      assert RowFrom(toks, x, lastRow) == toks[x] + sepText + breakText + rest;
      Pow16Widths();
      var argb := Argb8888(row[x]);
      text := text + HexLiteral(argb, 8, false);
      assert text == before + toks[x];
      if !lastRow || x < width - 1 {
        text := text + SEPARATOR;
      }
      assert text == before + toks[x] + sepText;
      if (x + 1) % GROUP == 0 && x < width - 1 {
        text := text + GROUP_BREAK;
      }
      assert text == before + toks[x] + sepText + breakText;
      AppendAssoc(before + toks[x] + sepText, breakText, rest);
      AppendAssoc(before + toks[x], sepText, breakText + rest);
      AppendAssoc(before, toks[x], sepText + (breakText + rest));
      AppendAssoc(toks[x], sepText, breakText + rest);
      AppendAssoc(toks[x] + sepText, breakText, rest);
      x := x + 1;
    }
    assert RowFrom(toks, width, lastRow) == "";
  }

  /** The nested loops of the source: for each row, four spaces, then each pixel's literal
      and separators, then a line break unless it is the last row. */
  method EmitPixels(canvas: seq<seq<Rgba>>, width: nat, height: nat) returns (text: string)
    requires IsGrid(canvas, width, height)
    ensures text == HeartLayout(GridTokens(canvas))
  {
    ghost var rows := GridTokens(canvas);
    text := "";
    var y := 0;
    while y < height
      invariant 0 <= y <= height
      invariant text + HeartLayout(rows[y..]) == HeartLayout(rows)
    {
      ghost var before := text;
      ghost var lastRow := y == height - 1;
      ghost var newline: string := if lastRow then "" else "\n";
      text := text + INDENT;
      var line := EmitRow(canvas[y], y == height - 1);
      text := text + line;
      if y < height - 1 {
        text := text + "\n";
      }
      assert text == before + INDENT + line + newline;
      RowLoopIsLayout(rows[y], lastRow);
      ghost var layout := RowLayout(rows[y], lastRow);
      AppendAssoc(before + INDENT, line, newline);
      AppendAssoc(before, INDENT, line + newline);
      AppendAssoc(INDENT, line, newline);
      assert text == before + layout;
      assert rows[y..][1..] == rows[y + 1..];
      assert HeartLayout(rows[y..]) == layout + HeartLayout(rows[y + 1..]);
      AppendAssoc(before, layout, HeartLayout(rows[y + 1..]));
      y := y + 1;
    }
  }

  /** The generated file's variable parts: the number of pixels, the array body between
      "{\n" and "\n};", and the descriptor of the canvas. */
  method Convert(thumb: seq<seq<Rgba>>, w: nat, h: nat)
    returns (total: nat, body: string, desc: Descriptor)
    requires IsGrid(thumb, w, h) && w <= TARGET_SIZE && h <= TARGET_SIZE
    ensures total == TARGET_SIZE * TARGET_SIZE
    ensures body == HeartLayout(GridTokens(Paste(thumb, w, h, TARGET_SIZE)))
    ensures desc == ImageDescriptor(Argb8888Format, TARGET_SIZE, TARGET_SIZE, total)
    ensures desc.dataSize == desc.stride * desc.h
  {
    var canvas := Paste(thumb, w, h, TARGET_SIZE);
    body := EmitPixels(canvas, TARGET_SIZE, TARGET_SIZE);
    total := TARGET_SIZE * TARGET_SIZE;
    desc := ImageDescriptor(Argb8888Format, TARGET_SIZE, TARGET_SIZE, total);
  }
}
