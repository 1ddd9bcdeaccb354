/** convert_image.py: a 360 x 360 RGB picture as an LVGL RGB565 C array, sixteen values per
    line. Loading and resizing the picture are not modelled; the model starts from its
    pixel grid. */
module ConvertImage {
  import opened Bytes
  import opened ImageText

  const VALUES_PER_LINE: nat := 16
  const HEX_DIGITS: nat := 4

  /** RRRRR GGGGGG BBBBB: the top five, six and five bits of the three channels. The source's
      masks and shifts ((r & 0xF8) << 8, (g & 0xFC) << 3, b >> 3) place disjoint bit fields,
      so their bitwise or is this sum. */
  function Rgb565(p: Rgb): (v: nat)
    ensures v < 0x10000
  {
    (p.r / 8) * 2048 + (p.g / 4) * 32 + p.b / 8
  }

  /** Each field of the packed value holds the top bits of its channel. */
  lemma Rgb565Fields(p: Rgb)
    ensures Rgb565(p) / 2048 == p.r / 8
    ensures Rgb565(p) / 32 % 64 == p.g / 4
    ensures Rgb565(p) % 32 == p.b / 8
  {
    var rg := (p.r / 8) * 64 + p.g / 4;
    assert Rgb565(p) == rg * 32 + p.b / 8;
    DivModBy(rg, p.b / 8, 32);
    DivModBy(p.r / 8, p.g / 4, 64);
    assert Rgb565(p) / 2048 == rg / 64;
  }

  lemma DivModBy(q: nat, r: nat, d: nat)
    requires d == 32 || d == 64
    requires r < d
    ensures (q * d + r) / d == q && (q * d + r) % d == r
  {
  }

  /** Two colours pack alike exactly when they agree in the bits RGB565 keeps. */
  lemma Rgb565SameIff(p: Rgb, q: Rgb)
    ensures Rgb565(p) == Rgb565(q) <==> p.r / 8 == q.r / 8 && p.g / 4 == q.g / 4 && p.b / 8 == q.b / 8
  {
    Rgb565Fields(p);
    Rgb565Fields(q);
  }

  /** The pixel values in the order the source collects them. */
  function Pixels565(img: seq<seq<Rgb>>): (p: seq<nat>)
    ensures AllFit(p, HEX_DIGITS)
  {
    PackedBounded(img, Rgb565, 0x1_0000);
    Pow16Widths();
    Flatten<nat>(PackedGrid(img, Rgb565))
  }

  /** The generated file's variable parts: the array length, its body, and the descriptor.
      The length is width * height and the data size is the stride times the height. */
  method Convert(img: seq<seq<Rgb>>, width: nat, height: nat)
    returns (count: nat, body: string, desc: Descriptor)
    requires IsGrid(img, width, height)
    ensures count == width * height
    ensures body == ArrayText(Pixels565(img), VALUES_PER_LINE, HEX_DIGITS, true)
    ensures desc == ImageDescriptor(Rgb565Format, width, height, count)
    ensures desc.dataSize == desc.stride * desc.h
  {
    var pixels := PackPixels(img, width, height, Rgb565);
    PackedRowMajor(img, width, height, Rgb565, 0, 0);
    assert pixels == Pixels565(img);
    DescriptorCoversRows(Rgb565Format, width, height);
    body := EmitArray(pixels, VALUES_PER_LINE, HEX_DIGITS, true);
    count := |pixels|;
    desc := ImageDescriptor(Rgb565Format, width, height, count);
  }
}
