/**
 * Types and small arithmetic shared by the packet handler, the user capture
 * gate and the statistics engine.
 */
module CameraTypes {

  /** A signed 8-bit pixel sample (int8_t). */
  newtype int8 = x: int | -128 <= x < 128

  /** An unsigned byte of a MIPI payload (uint8_t). */
  newtype byte = x: int | 0 <= x < 256

  datatype Option<T> = None | Some(value: T)

  /** APP_IMAGE_CHANNEL_COUNT: the colour planes of the decimated image. */
  const ChannelCount: nat := 3
  const Red: nat := 0
  const Green: nat := 1
  const Blue: nat := 2

  /**
   * One decimated output row, channel-major: a row of pixels for each colour
   * channel (int8_t[APP_IMAGE_CHANNEL_COUNT][APP_IMAGE_WIDTH_PIXELS]).
   */
  type Row = seq<seq<int8>>

  predicate RowOfWidth(row: Row, width: nat) {
    |row| == ChannelCount && forall k :: 0 <= k < ChannelCount ==> |row[k]| == width
  }

  function ZeroRow(width: nat): (row: Row)
    ensures RowOfWidth(row, width)
    ensures forall k, x :: 0 <= k < ChannelCount && 0 <= x < width ==> row[k][x] == 0
  {
    seq(ChannelCount, _ => seq(width, _ => 0 as int8))
  }

  /** 2^n, the value of `1 << n`. */
  function Pow2(n: nat): (p: nat)
    ensures p >= 1
  {
    if n == 0 then 1 else 2 * Pow2(n - 1)
  }

  lemma {:induction false} Pow2Add(a: nat, b: nat)
    ensures Pow2(a + b) == Pow2(a) * Pow2(b)
  {
    if a > 0 {
      Pow2Add(a - 1, b);
      assert Pow2(a + b) == 2 * Pow2(a - 1 + b);
    }
  }

  /** Values of a C `unsigned` (32 bits) lie below U32. */
  const U32: nat := 0x1_0000_0000

  /** `x++` on a 32-bit unsigned counter: wraps to 0 after 2^32 - 1. */
  function Inc32(x: nat): (r: nat)
    requires x < U32
    ensures r < U32
    ensures x + 1 < U32 ==> r == x + 1
    ensures x + 1 == U32 ==> r == 0
  {
    if x + 1 == U32 then 0 else x + 1
  }

  /** Multiplying by a non-negative factor keeps the order. */
  lemma MulMono(x: int, y: int, d: int)
    requires x <= y && 0 <= d
    ensures x * d <= y * d
  {
    assert y * d - x * d == (y - x) * d;
  }

  /** A natural lies between the two multiples of d around its quotient. */
  lemma DivBracket(x: int, d: int)
    requires 0 <= x && 0 < d
    ensures (x / d) * d <= x < (x / d + 1) * d
  {
    var y, r := x / d, x % d;
    assert x == y * d + r;
    assert (y + 1) * d == y * d + d;
  }

  /** A quotient is determined by any decomposition a == x * d + r with 0 <= r < d. */
  lemma DivUnique(a: int, d: int, x: int, r: int)
    requires 0 < d && a == x * d + r && 0 <= r < d
    ensures a / d == x
  {
    var y, m := a / d, a % d;
    assert a == y * d + m && 0 <= m < d;
    if y > x {
      MulMono(x + 1, y, d);
      assert false;
    } else if y < x {
      MulMono(y + 1, x, d);
      assert false;
    }
  }
}
