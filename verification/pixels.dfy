/** The captured pixel buffer: a grid of rows of four-channel pixels whose
    channels are stored in B, G, R, A order, and the two ways the analysis
    looks at it — one channel plane at a time, flattened row by row, and as
    the (r, g, b) colour triples the detection rules compare. */
module Pixels {

  /** An 8-bit channel value, as held in the unsigned byte capture buffer. */
  type Byte = x: int | 0 <= x < 256

  /** A position on the last (channel) axis of the buffer. */
  type ChannelIndex = k: int | 0 <= k < 4

  /** One captured pixel in the capture format's channel order. */
  datatype Bgra = Bgra(b: Byte, g: Byte, r: Byte, a: Byte) {

    /** The value at position `k` of the channel axis: 0 is blue, 1 green,
        2 red and 3 the unused alpha channel. */
    function Channel(k: ChannelIndex): Byte {
      if k == 0 then b else if k == 1 then g else if k == 2 then r else a
    }
  }

  /** A colour as the analysis handles it: the (r, g, b) triple built from
      one pixel. The channels stay in 0..255; the rules subtract them as
      integers, so differences may be negative. */
  datatype Rgb = Rgb(r: Byte, g: Byte, b: Byte)

  /** A captured frame: rows from top to bottom, each row left to right. */
  type Frame = seq<seq<Bgra>>

  /** Every row has `width` entries, as in a two-dimensional array. */
  predicate Rectangular<T>(rows: seq<seq<T>>, width: nat) {
    forall i :: 0 <= i < |rows| ==> |rows[i]| == width
  }

  /** Row-major flattening: the first row, then the second, and so on. */
  function Flatten<T>(rows: seq<seq<T>>): seq<T> {
    if rows == [] then [] else rows[0] + Flatten(rows[1..])
  }

  /** A rectangular grid of `h` rows of width `w` flattens to `h * w` entries. */
  lemma {:induction false} FlattenLength<T>(rows: seq<seq<T>>, w: nat)
    requires Rectangular(rows, w)
    ensures |Flatten(rows)| == |rows| * w
  {
    if rows != [] {
      FlattenLength(rows[1..], w);
    }
  }

  /** Row-major order: the pixel at row `i`, column `j` of a grid of width
      `w` lands at position `i * w + j` of the flattened sequence. */
  lemma {:induction false} FlattenRowMajor<T>(rows: seq<seq<T>>, w: nat, i: nat, j: nat)
    requires Rectangular(rows, w)
    requires i < |rows| && j < w
    ensures i * w + j < |Flatten(rows)|
    ensures Flatten(rows)[i * w + j] == rows[i][j]
  {
    FlattenLength(rows, w);
    if i > 0 {
      FlattenRowMajor(rows[1..], w, i - 1, j);
      assert i * w + j == |rows[0]| + ((i - 1) * w + j);
    }
  }

  /** The grid of channel `k` values: `arr[:, :, k]` before flattening. */
  function ChannelGrid(f: Frame, k: ChannelIndex): seq<seq<Byte>> {
    seq(|f|, i requires 0 <= i < |f| =>
      seq(|f[i]|, j requires 0 <= j < |f[i]| => f[i][j].Channel(k)))
  }

  /** Channel `k` of every pixel in row-major order: `arr[:, :, k].flatten()`.
      It has one entry per pixel, and entry `i` is channel `k` of the `i`th
      pixel of the flattened frame. */
  function Plane(f: Frame, k: ChannelIndex): (p: seq<Byte>)
    ensures |p| == |Flatten(f)|
    ensures forall i :: 0 <= i < |Flatten(f)| ==> p[i] == Flatten(f)[i].Channel(k)
  {
    PlaneMapping(f, k);
    Flatten(ChannelGrid(f, k))
  }

  /** Selecting a channel and then flattening gives the same values as
      flattening the pixels and then reading that channel of each one. */
  lemma {:induction false} PlaneMapping(f: Frame, k: ChannelIndex)
    ensures |Flatten(ChannelGrid(f, k))| == |Flatten(f)|
    ensures forall i :: 0 <= i < |Flatten(f)| ==> Flatten(ChannelGrid(f, k))[i] == Flatten(f)[i].Channel(k)
  {
    if f != [] {
      PlaneMapping(f[1..], k);
      assert ChannelGrid(f, k)[1..] == ChannelGrid(f[1..], k);
      assert Flatten(ChannelGrid(f, k)) == ChannelGrid(f, k)[0] + Flatten(ChannelGrid(f[1..], k));
    }
  }

  /** The colour triple of a pixel; alpha is dropped. */
  function ToRgb(p: Bgra): Rgb {
    Rgb(p.r, p.g, p.b)
  }

  /** The colour triples of a flattened buffer, position by position. */
  function Colors(px: seq<Bgra>): (cs: seq<Rgb>)
    ensures |cs| == |px|
  {
    seq(|px|, i requires 0 <= i < |px| => ToRgb(px[i]))
  }
}
