/** blend_color of src/painter.cpp on the pixel buffers, and the fourth
    channel the constructor adds to the painted copy. */
module Blend {
  import opened Matrices
  import opened PixelGraph
  import opened PainterValues

  /** Channel ch of pixel q of a 4-channel buffer. */
  function Channel(s: seq<Byte>, q: int, ch: int): Byte
    requires 0 <= q && 0 <= ch < 4 && 4 * q + ch < |s|
  {
    s[4 * q + ch]
  }

  /** The value blend_color writes at channel ch of pixel q: the tinted
      original colour, then an opaque alpha. */
  function BlendValue(o: seq<Byte>, color: Rgb, q: int, ch: int): Byte
    requires 0 <= q && 3 * q + 2 < |o| && 0 <= ch < 4
  {
    if ch == 0 then Tint(o[3 * q], color.r)
    else if ch == 1 then Tint(o[3 * q + 1], color.g)
    else if ch == 2 then Tint(o[3 * q + 2], color.b)
    else 255
  }

  /** r is the 4-channel buffer p after blending the 3-channel original o in
      `color` under `mask`: masked pixels take the tinted original and alpha
      255, the others keep their four values. */
  predicate BlendedFrom(r: seq<Byte>, p: seq<Byte>, o: seq<Byte>, mask: seq<bool>, color: Rgb)
  {
    |o| % 3 == 0 && |p| == |o| / 3 * 4 && |mask| >= |o| / 3 && |r| == |p| &&
    forall q, ch :: 0 <= q < |o| / 3 && 0 <= ch < 4 ==>
      Channel(r, q, ch) == if mask[q] then BlendValue(o, color, q, ch) else Channel(p, q, ch)
  }

  /** Blending the same colour under the same mask a second time changes
      nothing. */
  lemma BlendIdempotent(a: seq<Byte>, b: seq<Byte>, c: seq<Byte>, o: seq<Byte>, mask: seq<bool>, color: Rgb)
    requires BlendedFrom(b, a, o, mask, color) && BlendedFrom(c, b, o, mask, color)
    ensures c == b
  {
    forall k | 0 <= k < |c|
      ensures c[k] == b[k]
    {
      var q := k / 4;
      var ch := k % 4;
      assert k == 4 * q + ch && c[k] == Channel(c, q, ch);
    }
  }

  /** The 4-channel copy of a 3-channel image that imread makes: the three
      values of each pixel, then alpha 255. */
  predicate AlphaAdded(p: seq<Byte>, o: seq<Byte>)
  {
    |o| % 3 == 0 && |p| == |o| / 3 * 4 &&
    forall q, ch :: 0 <= q < |o| / 3 && 0 <= ch < 4 ==>
      Channel(p, q, ch) == if ch == 3 then 255 else o[3 * q + ch]
  }

  /** Blending white over every pixel gives back the unpainted copy of the
      image, since a white tint keeps every value. */
  lemma BlendWhiteRestores(a: seq<Byte>, p: seq<Byte>, r: seq<Byte>, o: seq<Byte>, mask: seq<bool>)
    requires AlphaAdded(a, o) && BlendedFrom(r, p, o, mask, White)
    requires forall q :: 0 <= q < |o| / 3 ==> mask[q]
    ensures r == a
  {
    forall k | 0 <= k < |r|
      ensures r[k] == a[k]
    {
      var q := k / 4;
      var ch := k % 4;
      assert k == 4 * q + ch && r[k] == Channel(r, q, ch) && a[k] == Channel(a, q, ch);
    }
  }

  /** The copying loop of imread: each pixel's three values, then 255. */
  method AddAlpha(o: seq<Byte>) returns (p: seq<Byte>)
    requires |o| % 3 == 0
    ensures AlphaAdded(p, o)
  {
    p := [];
    var i := 0;
    ghost var n := 0;
    while i < |o|
      invariant 0 <= n <= |o| / 3 && i == 3 * n && |p| == 4 * n
      invariant forall q, ch :: 0 <= q < n && 0 <= ch < 4 ==>
        Channel(p, q, ch) == if ch == 3 then 255 else o[3 * q + ch]
    {
      ghost var prev := p;
      p := p + [o[i], o[i + 1], o[i + 2], 255];
      assert forall q, ch :: 0 <= q < n && 0 <= ch < 4 ==> Channel(p, q, ch) == Channel(prev, q, ch);
      assert Channel(p, n, 0) == o[i] && Channel(p, n, 1) == o[i + 1] && Channel(p, n, 2) == o[i + 2] && Channel(p, n, 3) == 255;
      i := i + 3;
      n := n + 1;
    }
  }

  /** The loop of blend_color over a 4-channel buffer p and the 3-channel
      original o: i walks o and j walks p; a pixel whose mask bit is false
      is skipped. */
  method BlendPixels(p: seq<Byte>, o: seq<Byte>, mask: seq<bool>, color: Rgb) returns (r: seq<Byte>)
    requires |o| % 3 == 0 && |p| == |o| / 3 * 4 && |mask| >= |o| / 3
    ensures BlendedFrom(r, p, o, mask, color)
  {
    r := p;
    var i, j := 0, 0;
    ghost var n := 0;
    while i < |o|
      invariant 0 <= n <= |o| / 3 && i == 3 * n && j == 4 * n && |r| == |p|
      invariant forall q, ch :: 0 <= q < n && 0 <= ch < 4 ==>
        Channel(r, q, ch) == if mask[q] then BlendValue(o, color, q, ch) else Channel(p, q, ch)
      invariant forall q, ch :: n <= q < |o| / 3 && 0 <= ch < 4 ==> Channel(r, q, ch) == Channel(p, q, ch)
    {
      assert i / 3 == n;
      if mask[i / 3] {
        r := r[j := Tint(o[i], color.r)][j + 1 := Tint(o[i + 1], color.g)]
              [j + 2 := Tint(o[i + 2], color.b)][j + 3 := 255];
      }
      i, j := i + 3, j + 4;
      n := n + 1;
    }
  }
}
