/** convert_smile_image.py: a picture with transparency as an LVGL ARGB8888 C array, eight
    values per line. Loading, resizing and the RGBA conversion are not modelled; the model
    starts from the RGBA pixel grid. */
module ConvertSmile {
  import opened Bytes
  import opened ImageText

  const VALUES_PER_LINE: nat := 8
  const HEX_DIGITS: nat := 8

  /** The pixel values in the order the source collects them. */
  function PixelsArgb(img: seq<seq<Rgba>>): (p: seq<nat>)
    ensures AllFit(p, HEX_DIGITS)
  {
    PackedBounded(img, Argb8888, 0x1_0000_0000);
    Pow16Widths();
    Flatten<nat>(PackedGrid(img, Argb8888))
  }

  /** The generated file's variable parts: the array length, its body, and the descriptor.
      The length is width * height and the data size is the stride times the height. */
  method Convert(img: seq<seq<Rgba>>, width: nat, height: nat)
    returns (count: nat, body: string, desc: Descriptor)
    requires IsGrid(img, width, height)
    ensures count == width * height
    ensures body == ArrayText(PixelsArgb(img), VALUES_PER_LINE, HEX_DIGITS, true)
    ensures desc == ImageDescriptor(Argb8888Format, width, height, count)
    ensures desc.dataSize == desc.stride * desc.h
  {
    var pixels := PackPixels(img, width, height, Argb8888);
    PackedRowMajor(img, width, height, Argb8888, 0, 0);
    assert pixels == PixelsArgb(img);
    DescriptorCoversRows(Argb8888Format, width, height);
    body := EmitArray(pixels, VALUES_PER_LINE, HEX_DIGITS, true);
    count := |pixels|;
    desc := ImageDescriptor(Argb8888Format, width, height, count);
  }
}
