/**
 * raytracing/src/pixmap.rs: a row-major image buffer of colour vectors and
 * its conversion to RGB bytes. Colour channels are modelled as reals.
 */
module Pixmaps {
  import opened Common

  datatype Vec3 = Vec3(x: real, y: real, z: real)

  /** `Vec3f::default()`. */
  const ZERO: Vec3 := Vec3(0.0, 0.0, 0.0)

  /** `clamp(0.0, 1.0)`. */
  function Clamp01(v: real): (c: real)
    ensures 0.0 <= c <= 1.0
    ensures 0.0 <= v <= 1.0 ==> c == v
    ensures v < 0.0 ==> c == 0.0
    ensures v > 1.0 ==> c == 1.0
  {
    if v < 0.0 then 0.0 else if v > 1.0 then 1.0 else v
  }

  /** Rounding half away from zero, for a non-negative value. */
  function RoundNonNeg(v: real): (n: int)
    requires v >= 0.0
    ensures 0 <= n && (n as real) - 0.5 <= v < (n as real) + 0.5
  {
    (v + 0.5).Floor
  }

  /** One channel: scale the clamped value by 255 and round. */
  function ChannelByte(v: real): (b: byte)
    ensures v <= 0.0 ==> b == 0
    ensures v >= 1.0 ==> b == 255
  {
    var scaled := 255.0 * Clamp01(v);
    var n := RoundNonNeg(scaled);
    assert n <= 255 by {
      assert (n as real) - 0.5 <= 255.0;
    }
    n
  }

  /** Brighter channel values never give smaller bytes. */
  lemma ChannelMonotone(u: real, v: real)
    requires u <= v
    ensures ChannelByte(u) <= ChannelByte(v)
  {
    var a := 255.0 * Clamp01(u);
    var b := 255.0 * Clamp01(v);
    assert Clamp01(u) <= Clamp01(v);
    assert a <= b;
    assert (RoundNonNeg(a) as real) - 0.5 <= a <= b < (RoundNonNeg(b) as real) + 0.5;
  }

  /** The channel value `k/255` converts back to the byte `k`. */
  lemma ChannelOfByte(k: byte)
    ensures ChannelByte(k as real / 255.0) == k
  {
    var v := k as real / 255.0;
    assert 0.0 <= v <= 1.0;
    assert 255.0 * v == k as real;
  }

  /** The three bytes of one pixel. */
  function PixelBytes(p: Vec3): (bs: seq<byte>)
    ensures |bs| == 3
  {
    [ChannelByte(p.x), ChannelByte(p.y), ChannelByte(p.z)]
  }

  /** The bytes of a sequence of pixels, pixel by pixel. */
  function BytesOf(ps: seq<Vec3>): (bs: seq<byte>)
    ensures |bs| == 3 * |ps|
  {
    if ps == [] then [] else BytesOf(ps[..|ps| - 1]) + PixelBytes(ps[|ps| - 1])
  }

  /** Bytes `3i`, `3i+1` and `3i+2` are the x, y and z channels of pixel `i`. */
  lemma {:induction false} BytesOfAt(ps: seq<Vec3>, i: nat)
    requires i < |ps|
    ensures BytesOf(ps)[3 * i] == ChannelByte(ps[i].x)
    ensures BytesOf(ps)[3 * i + 1] == ChannelByte(ps[i].y)
    ensures BytesOf(ps)[3 * i + 2] == ChannelByte(ps[i].z)
  {
    if i < |ps| - 1 {
      BytesOfAt(ps[..|ps| - 1], i);
    }
  }

  /** Pixel (col, row) is stored at `row * cols + col`. */
  function PixelIndex(cols: nat, col: nat, row: nat): nat {
    row * cols + col
  }

  /** Inside a `cols` by `rows` image, the index is in bounds. */
  lemma PixelIndexInBounds(cols: nat, rows: nat, col: nat, row: nat)
    requires col < cols && row < rows
    ensures PixelIndex(cols, col, row) < cols * rows
  {
    assert row * cols <= (rows - 1) * cols by {
      assert (rows - 1) * cols - row * cols == (rows - 1 - row) * cols;
    }
  }

  /** Distinct pixels with `col < cols` have distinct indexes. */
  lemma PixelIndexInjective(cols: nat, col1: nat, row1: nat, col2: nat, row2: nat)
    requires col1 < cols && col2 < cols
    requires PixelIndex(cols, col1, row1) == PixelIndex(cols, col2, row2)
    ensures col1 == col2 && row1 == row2
  {
    ModUnique(PixelIndex(cols, col1, row1), cols, row1, col1);
    ModUnique(PixelIndex(cols, col2, row2), cols, row2, col2);
  }

  class Pixmap {
    const data: array<Vec3>
    const cols: nat

    /** `Pixmap::new`: `cols * rows` pixels, all zero. */
    constructor (cols: nat, rows: nat)
      ensures this.cols == cols && data.Length == cols * rows && fresh(data)
      ensures forall i :: 0 <= i < data.Length ==> data[i] == ZERO
    {
      this.cols := cols;
      data := new Vec3[cols * rows](_ => ZERO);
    }

    /** `bytes`: three bytes per pixel, in storage order. */
    method Bytes() returns (r: seq<byte>)
      ensures r == BytesOf(data[..])
      ensures |r| == 3 * data.Length
    {
      var result := new byte[3 * data.Length](_ => 0);
      for i := 0 to data.Length
        invariant result[..3 * i] == BytesOf(data[..i])
      {
        var v := data[i];
        ghost var before := result[..3 * i];
        result[3 * i] := ChannelByte(v.x);
        result[3 * i + 1] := ChannelByte(v.y);
        result[3 * i + 2] := ChannelByte(v.z);
        assert result[..3 * i] == before;
        assert result[..3 * (i + 1)] == before + PixelBytes(v);
        assert data[..i + 1][..i] == data[..i];
      }
      assert data[..data.Length] == data[..];
      r := result[..];
    }

    /** `get`: the pixel at (col, row); the index must lie in the buffer. */
    method Get(col: nat, row: nat) returns (v: Vec3)
      requires PixelIndex(cols, col, row) < data.Length
      ensures v == data[PixelIndex(cols, col, row)]
    {
      v := data[row * cols + col];
    }

    /** Storing through `get_mut`: only the pixel at (col, row) changes. */
    method Set(col: nat, row: nat, v: Vec3)
      requires PixelIndex(cols, col, row) < data.Length
      modifies data
      ensures data[..] == old(data[..])[PixelIndex(cols, col, row) := v]
    {
      data[row * cols + col] := v;
    }
  }

  /** Writing a pixel then reading it back gives the written value; other pixels keep theirs. */
  method SetThenGet(p: Pixmap, col: nat, row: nat, v: Vec3, col2: nat, row2: nat)
    returns (got: Vec3, other: Vec3)
    requires col < p.cols && col2 < p.cols
    requires PixelIndex(p.cols, col, row) < p.data.Length && PixelIndex(p.cols, col2, row2) < p.data.Length
    modifies p.data
    ensures got == v
    ensures (col2, row2) != (col, row) ==> other == old(p.data[PixelIndex(p.cols, col2, row2)])
  {
    p.Set(col, row, v);
    got := p.Get(col, row);
    other := p.Get(col2, row2);
    if (col2, row2) != (col, row) {
      if PixelIndex(p.cols, col2, row2) == PixelIndex(p.cols, col, row) {
        PixelIndexInjective(p.cols, col2, row2, col, row);
      }
    }
  }
}
