/** The row-major image container of include/matrix.hpp: a flat buffer of
    height x width x channels values, channel-interleaved. */
module Matrices {

  /** unsigned char */
  type Byte = x: int | 0 <= x < 256

  /** Shape: height, width and channel count. */
  datatype Shape = Shape(height: nat, width: nat, channels: nat)

  /** size(): the number of values a matrix of this shape holds. */
  function ShapeSize(s: Shape): nat
  {
    s.height * s.width * s.channels
  }

  /** A non-empty matrix has every dimension positive, and its size is a
      multiple of its channel count. */
  lemma ShapeSizeFactors(s: Shape)
    ensures ShapeSize(s) == (s.height * s.width) * s.channels
    ensures ShapeSize(s) > 0 ==> s.height > 0 && s.width > 0 && s.channels > 0
  {
    if s.height == 0 || s.width == 0 {
      assert s.height * s.width == 0;
    }
  }

  /** A 4-channel buffer holds a whole number of pixels. */
  lemma FourChannelSize(s: Shape)
    requires s.channels == 4
    ensures ShapeSize(s) == 4 * (ShapeSize(s) / 4)
  {
    ShapeSizeFactors(s);
  }

  /** Where operator()(row, col, channel) looks in the buffer. */
  function Offset(s: Shape, row: nat, col: nat, ch: nat): nat
  {
    row * s.width * s.channels + col * s.channels + ch
  }

  lemma MulLeq(a: nat, b: nat, c: nat)
    requires a <= b
    ensures a * c <= b * c
  {
  }

  /** a * c + b is a unique decomposition when b < c. */
  lemma MulAddUnique(a: nat, b: nat, a': nat, b': nat, c: nat)
    requires b < c && b' < c && a * c + b == a' * c + b'
    ensures a == a' && b == b'
  {
    if a < a' {
      MulLeq(a + 1, a', c);
    } else if a' < a {
      MulLeq(a' + 1, a, c);
    }
  }

  /** Every cell of the shape lies inside the buffer of size(). */
  lemma OffsetInRange(s: Shape, row: nat, col: nat, ch: nat)
    requires row < s.height && col < s.width && ch < s.channels
    ensures Offset(s, row, col, ch) < ShapeSize(s)
  {
    var c := s.channels;
    MulLeq(col + 1, s.width, c);
    assert col * c + ch < s.width * c;
    MulLeq(row + 1, s.height, s.width * c);
    assert row * s.width * c == row * (s.width * c);
    assert s.height * s.width * c == s.height * (s.width * c);
  }

  /** Distinct cells live at distinct offsets: the layout is row-major with
      the channels of a pixel next to each other. */
  lemma OffsetInjective(s: Shape, row: nat, col: nat, ch: nat, row': nat, col': nat, ch': nat)
    requires row < s.height && col < s.width && ch < s.channels
    requires row' < s.height && col' < s.width && ch' < s.channels
    requires Offset(s, row, col, ch) == Offset(s, row', col', ch')
    ensures row == row' && col == col' && ch == ch'
  {
    var w, c := s.width, s.channels;
    assert row * w * c + col * c == (row * w + col) * c;
    assert row' * w * c + col' * c == (row' * w + col') * c;
    MulAddUnique(row * w + col, ch, row' * w + col', ch', c);
    MulAddUnique(row, col, row', col', w);
  }

  class Matrix<T(==)> {
    var data: seq<T>
    var shape: Shape

    function Size(): nat
      reads this
    {
      ShapeSize(shape)
    }

    /** The buffer holds size() values. */
    ghost predicate Valid()
      reads this
    {
      |data| == Size()
    }

    /** Matrix(): zero shape, empty buffer. */
    constructor Default()
      ensures shape == Shape(0, 0, 0) && data == [] && Valid()
    {
      data := [];
      shape := Shape(0, 0, 0);
    }

    /** Matrix(height, width, channels, val): every value is val. */
    constructor Filled(height: nat, width: nat, channels: nat, val: T)
      ensures shape == Shape(height, width, channels) && Valid()
      ensures forall i :: 0 <= i < |data| ==> data[i] == val
    {
      shape := Shape(height, width, channels);
      data := seq(height * width * channels, _ => val);
    }

    /** Matrix(height, width, channels, data): takes the buffer as it is. */
    constructor FromData(height: nat, width: nat, channels: nat, d: seq<T>)
      ensures shape == Shape(height, width, channels) && data == d
    {
      shape := Shape(height, width, channels);
      data := d;
    }

    /** The copy constructor. */
    constructor Copy(b: Matrix<T>)
      ensures data == b.data && shape == b.shape
    {
      data := b.data;
      shape := b.shape;
    }

    /** operator= */
    method Assign(b: Matrix<T>)
      modifies this
      ensures data == old(b.data) && shape == old(b.shape)
    {
      data := b.data;
      shape := b.shape;
    }

    /** copy() */
    method Clone() returns (m: Matrix<T>)
      ensures fresh(m) && m.data == data && m.shape == shape
    {
      m := new Matrix.Copy(this);
    }

    /** operator()(row, col, channel), read. */
    function At(row: nat, col: nat, ch: nat): T
      reads this
      requires Offset(shape, row, col, ch) < |data|
    {
      data[Offset(shape, row, col, ch)]
    }

    /** Writing through operator()(row, col, channel): that cell changes and
        no other. */
    method SetAt(row: nat, col: nat, ch: nat, val: T)
      requires Offset(shape, row, col, ch) < |data|
      modifies this
      ensures shape == old(shape) && |data| == old(|data|)
      ensures At(row, col, ch) == val
      ensures forall i :: 0 <= i < |data| && i != Offset(shape, row, col, ch) ==> data[i] == old(data[i])
    {
      data := data[Offset(shape, row, col, ch) := val];
    }

    /** get3(row, col): the first three channels of a pixel. */
    function Get3(row: nat, col: nat): (r: seq<T>)
      reads this
      requires Offset(shape, row, col, 0) + 2 < |data|
      ensures |r| == 3
    {
      var pos := Offset(shape, row, col, 0);
      [data[pos], data[pos + 1], data[pos + 2]]
    }

    /** set3(row, col, val): writes the three consecutive values from the
        pixel's offset; get3 then returns val, and nothing else changes. */
    method Set3(row: nat, col: nat, val: seq<T>)
      requires |val| == 3 && Offset(shape, row, col, 0) + 2 < |data|
      modifies this
      ensures shape == old(shape) && |data| == old(|data|)
      ensures Get3(row, col) == val
      ensures forall i :: 0 <= i < |data| && !(Offset(shape, row, col, 0) <= i < Offset(shape, row, col, 0) + 3) ==>
        data[i] == old(data[i])
    {
      var pos := Offset(shape, row, col, 0);
      data := data[pos := val[0]];
      data := data[pos + 1 := val[1]];
      data := data[pos + 2 := val[2]];
    }

    /** set4(row, col, val): writes the four consecutive values from the
        pixel's offset, and nothing else. */
    method Set4(row: nat, col: nat, val: seq<T>)
      requires |val| == 4 && Offset(shape, row, col, 0) + 3 < |data|
      modifies this
      ensures shape == old(shape) && |data| == old(|data|)
      ensures forall k :: 0 <= k < 4 ==> data[Offset(shape, row, col, 0) + k] == val[k]
      ensures forall i :: 0 <= i < |data| && !(Offset(shape, row, col, 0) <= i < Offset(shape, row, col, 0) + 4) ==>
        data[i] == old(data[i])
    {
      var pos := Offset(shape, row, col, 0);
      data := data[pos := val[0]];
      data := data[pos + 1 := val[1]];
      data := data[pos + 2 := val[2]];
      data := data[pos + 3 := val[3]];
    }

    /** operator==: equal shapes, and std::equal over the two buffers (equal
        lengths, equal values in order). */
    method Equal(b: Matrix<T>) returns (r: bool)
      ensures r <==> shape == b.shape && data == b.data
    {
      if shape != b.shape || |data| != |b.data| {
        return false;
      }
      var i := 0;
      while i < |data|
        invariant 0 <= i <= |data| && data[..i] == b.data[..i]
      {
        if data[i] != b.data[i] {
          return false;
        }
        i := i + 1;
      }
      assert data == data[..i];
      r := true;
    }
  }
}
