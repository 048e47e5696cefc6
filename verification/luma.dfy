/** Per-pixel brightness of an RGBA buffer, as read back from a 2D canvas. */
module Luma {

  /** One colour channel of a canvas pixel buffer. */
  newtype byte = x: int | 0 <= x < 256

  /** Weights of ITU-R BT.601 luma. They sum to exactly one. */
  const RedWeight: real := 0.299
  const GreenWeight: real := 0.587
  const BlueWeight: real := 0.114

  /** Bytes per pixel in the buffer: red, green, blue, alpha. */
  const Stride: nat := 4

  /** Luma of one pixel. Exact arithmetic: the source computes this in
      IEEE doubles, which this model idealises away. */
  function PixelLuma(red: byte, green: byte, blue: byte): (l: real)
    ensures 0.0 <= l <= 255.0
    ensures red == green == blue ==> l == red as real
    ensures l == 0.0 <==> red == 0 && green == 0 && blue == 0
    ensures l == 255.0 <==> red == 255 && green == 255 && blue == 255
  {
    RedWeight * red as real + GreenWeight * green as real + BlueWeight * blue as real
  }

  /** The pixel buffer as a sequence of 4-byte groups has this many pixels. */
  function PixelCount(data: seq<byte>): nat
  {
    |data| / Stride
  }

  /** One luma per 4-byte group, in buffer order; the alpha byte of each
      group is never read. */
  function Lumas(data: seq<byte>): (r: seq<real>)
    requires |data| % Stride == 0
    ensures |r| == PixelCount(data)
    ensures forall k :: 0 <= k < |r| ==>
      r[k] == PixelLuma(data[Stride * k], data[Stride * k + 1], data[Stride * k + 2])
    decreases |data|
  {
    if |data| == 0 then []
    else
      var rest := Lumas(data[Stride..]);
      var r := [PixelLuma(data[0], data[1], data[2])] + rest;
      assert forall k :: 1 <= k < |r| ==> data[Stride..][Stride * (k - 1)] == data[Stride * k];
      r
  }

  /** The red, green and blue bytes of pixel k are the non-alpha offsets. */
  lemma GroupOffsets(k: nat)
    ensures (Stride * k) % Stride == 0
    ensures (Stride * k + 1) % Stride == 1
    ensures (Stride * k + 2) % Stride == 2
  {
  }

  /** Every luma of a buffer lies in the channel range. */
  lemma LumasInRange(data: seq<byte>)
    requires |data| % Stride == 0
    ensures forall l :: l in Lumas(data) ==> 0.0 <= l <= 255.0
  {
  }

  /** Two buffers that differ only in their alpha bytes give the same lumas. */
  lemma AlphaIgnored(a: seq<byte>, b: seq<byte>)
    requires |a| == |b| && |a| % Stride == 0
    requires forall i :: 0 <= i < |a| && i % Stride != 3 ==> a[i] == b[i]
    ensures Lumas(a) == Lumas(b)
  {
    var la, lb := Lumas(a), Lumas(b);
    forall k | 0 <= k < |la|
      ensures la[k] == lb[k]
    {
      GroupOffsets(k);
    }
  }

  /** A uniformly grey buffer (every pixel with red == green == blue == v)
      yields v for every pixel. */
  lemma GreyBufferLumas(data: seq<byte>, v: byte)
    requires |data| % Stride == 0
    requires forall i :: 0 <= i < |data| && i % Stride != 3 ==> data[i] == v
    ensures forall l :: l in Lumas(data) ==> l == v as real
  {
    var ls := Lumas(data);
    forall k | 0 <= k < |ls|
      ensures ls[k] == v as real
    {
      GroupOffsets(k);
    }
  }
}
