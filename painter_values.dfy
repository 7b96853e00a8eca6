/** The value-level helpers of src/painter.cpp: the packing of an RGB colour
    into one integer (color_to_int), the file-name dispatch on the extension
    (get_image_type_), and the per-channel tint blend_color applies. */
module PainterValues {
  import opened Matrices
  import opened PixelGraph

  /** color_to_int: (r << 16) | (g << 8) | b.  The three bytes occupy
      disjoint bit ranges, so the bitwise or is a sum. */
  function ColorToInt(c: Rgb): (n: int)
    ensures 0 <= n < 0x100_0000
  {
    c.r * 0x1_0000 + c.g * 0x100 + c.b
  }

  /** The colour whose packed value is n: the three bytes of n, high to low. */
  function IntToColor(n: int): Rgb
    requires 0 <= n < 0x100_0000
  {
    Rgb(n / 0x1_0000, (n / 0x100) % 0x100, n % 0x100)
  }

  /** Unpacking a packed colour gives the colour back. */
  lemma ColorRoundTrip(c: Rgb)
    ensures IntToColor(ColorToInt(c)) == c
  {
    var n := ColorToInt(c);
    var low := c.g * 0x100 + c.b;
    assert 0 <= low < 0x1_0000;
    assert n / 0x1_0000 == c.r by {
      assert n == c.r * 0x1_0000 + low;
    }
    assert n / 0x100 == c.r * 0x100 + c.g by {
      assert n == (c.r * 0x100 + c.g) * 0x100 + c.b;
    }
    assert (c.r * 0x100 + c.g) % 0x100 == c.g;
    assert n % 0x100 == c.b by {
      assert n == (c.r * 0x100 + c.g) * 0x100 + c.b;
    }
  }

  /** Packing the unpacked bytes of n gives n back: every value below 2^24
      is the packing of exactly one colour. */
  lemma IntRoundTrip(n: int)
    requires 0 <= n < 0x100_0000
    ensures ColorToInt(IntToColor(n)) == n
  {
    var hi := n / 0x100;
    assert n == hi * 0x100 + n % 0x100;
    assert hi == (hi / 0x100) * 0x100 + hi % 0x100;
    assert hi / 0x100 == n / 0x1_0000;
  }

  /** Two colours pack to the same value exactly when they are the same
      colour, so the set of used colours can hold packed values. */
  lemma ColorToIntInjective(a: Rgb, b: Rgb)
    ensures ColorToInt(a) == ColorToInt(b) <==> a == b
  {
    if ColorToInt(a) == ColorToInt(b) {
      ColorRoundTrip(a);
      ColorRoundTrip(b);
    }
  }

  /** The four image formats, and NOT_IMG. */
  datatype ImageType = NotImg | Png | Bmp | Tga | Jpg

  /** The extension, dot included, that selects each format. */
  function Extension(t: ImageType): string
  {
    match t
    case NotImg => ""
    case Png => ".png"
    case Bmp => ".bmp"
    case Tga => ".tga"
    case Jpg => ".jpg"
  }

  /** rfind('.'): the position of the last dot, or -1 (npos) if there is none. */
  function LastDot(name: string): (k: int)
    ensures -1 <= k < |name|
    ensures k >= 0 ==> name[k] == '.'
    ensures forall j :: k < j < |name| ==> name[j] != '.'
    decreases |name|
  {
    if |name| == 0 then -1
    else if name[|name| - 1] == '.' then |name| - 1
    else LastDot(name[..|name| - 1])
  }

  /** get_image_type_: the suffix from the last dot, compared exactly with
      the four known extensions; a name without a dot is NOT_IMG. */
  function ImageTypeOf(name: string): ImageType
  {
    var dot := LastDot(name);
    if dot < 0 then NotImg
    else
      var extension := name[dot..];
      if extension == ".png" then Png
      else if extension == ".bmp" then Bmp
      else if extension == ".tga" then Tga
      else if extension == ".jpg" then Jpg
      else NotImg
  }

  /** A name has a given format exactly when it ends in that format's
      extension: the extension holds one dot, at its head, so it is the
      suffix from the last dot. */
  lemma ImageTypeOfExtension(name: string, t: ImageType)
    requires t != NotImg
    ensures ImageTypeOf(name) == t <==> |name| >= 4 && name[|name| - 4..] == Extension(t)
  {
    var dot := LastDot(name);
    var e := Extension(t);
    if |name| >= 4 && name[|name| - 4..] == e {
      assert name[|name| - 4] == e[0] == '.';
      assert forall j :: 1 <= j < 4 ==> e[j] != '.';
      assert forall j :: |name| - 4 < j < |name| ==> name[j] == e[j - (|name| - 4)];
      assert dot == |name| - 4;
    }
  }

  /** A name is NOT_IMG exactly when it ends in none of the four extensions
      (a name without a dot in particular). */
  lemma ImageTypeOfOther(name: string)
    ensures ImageTypeOf(name) == NotImg <==>
      forall t :: t != NotImg ==> !(|name| >= 4 && name[|name| - 4..] == Extension(t))
  {
    ImageTypeOfExtension(name, Png);
    ImageTypeOfExtension(name, Bmp);
    ImageTypeOfExtension(name, Tga);
    ImageTypeOfExtension(name, Jpg);
  }

  /** The channel of blend_color: the original value scaled by the colour
      channel over 255.  The source computes the product in single precision
      and truncates it to a byte; this is the exact rational product
      truncated, from which the rounded one may differ by one. */
  function Tint(o: Byte, c: Byte): (t: Byte)
    ensures c == 255 ==> t == o
    ensures c == 0 ==> t == 0
    ensures t <= o
  {
    TintBound(o, c);
    o * c / 255
  }

  lemma TintBound(o: Byte, c: Byte)
    ensures 0 <= o * c / 255 <= o
  {
    assert o * c <= o * 255;
  }

  /** A darker original or a darker colour channel never gives a lighter
      tint. */
  lemma TintMonotone(o1: Byte, o2: Byte, c1: Byte, c2: Byte)
    requires o1 <= o2 && c1 <= c2
    ensures Tint(o1, c1) <= Tint(o2, c2)
  {
    assert o1 * c1 <= o2 * c1 <= o2 * c2;
  }
}
