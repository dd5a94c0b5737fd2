/** The collision mask the graphics importer writes for a sprite from the atlas
    page its frame was packed into: one bit per pixel, set when the pixel's alpha
    is above 0, rows `Stride(maskWidth)` bits apart; then each group of 8 bits is
    reversed and the groups are packed into bytes low bit first, so that the
    first pixel of a group lands in the high bit of its byte.

    The atlas page's alpha channel is an array indexed [x, y]. The mask size is a
    parameter (UndertaleModLib computes it from the sprite). */
module CollisionMask {
  import opened Wrappers
  import opened Geometry

  newtype byte = x: int | 0 <= x < 256

  /** The row stride of a mask, in bits: the width rounded up to a multiple of 8. */
  function Stride(width: nat): (s: nat)
    ensures s % 8 == 0 && width <= s < width + 8
  {
    ((width + 7) / 8) * 8
  }

  /** The number of loop iterations bounded both by the mask and by the node:
      `size` if it is the smaller, never below 0. */
  function Extent(limit: nat, size: int): (n: nat)
    ensures n <= limit && (size >= 0 ==> n <= size)
    ensures n == limit || n == size || (size < 0 && n == 0)
  {
    if size < 0 then 0 else if size < limit then size else limit
  }

  /** Where the node's pixels go: `cols` x `rows` pixels of `bounds` are copied,
      pixel (x, y) to bit origin + y * stride + x of a mask of `length` bits. */
  datatype Copy = Copy(bounds: Rect, cols: nat, rows: nat, stride: nat, origin: nat, length: nat)

  /** The copy of the importer's mask loop: a bounding-box mask starts at bit 0, a
      full-size mask at the texture's target offset within the untrimmed image. */
  function CopyOf(bounds: Rect, maskWidth: nat, maskHeight: nat, bboxMasks: bool,
                  targetX: nat, targetY: nat): (c: Copy)
    ensures c.cols <= c.stride && c.stride == Stride(maskWidth) && c.length == c.stride * maskHeight
    ensures c.rows <= maskHeight && c.cols <= maskWidth
    ensures c.bounds == bounds && (bounds.width >= 0 ==> c.cols <= bounds.width) && (bounds.height >= 0 ==> c.rows <= bounds.height)
  {
    var stride := Stride(maskWidth);
    Copy(bounds, Extent(maskWidth, bounds.width), Extent(maskHeight, bounds.height), stride,
         if bboxMasks then 0 else targetY * stride + targetX, stride * maskHeight)
  }

  /** The pixels read lie inside the atlas page. */
  predicate InAtlas(alpha: array2<byte>, c: Copy) {
    0 <= c.bounds.x && 0 <= c.bounds.y &&
    c.bounds.x + c.cols <= alpha.Length0 && c.bounds.y + c.rows <= alpha.Length1 &&
    c.cols <= c.stride
  }

  /** Every pixel copied lands inside the mask: the last one, the farthest, does. */
  predicate WritesFit(c: Copy) {
    c.rows == 0 || c.cols == 0 || c.origin + (c.rows - 1) * c.stride + (c.cols - 1) < c.length
  }

  predicate Opaque(alpha: array2<byte>, c: Copy, x: nat, y: nat)
    reads alpha
    requires InAtlas(alpha, c) && x < c.cols && y < c.rows
  {
    alpha[c.bounds.x + x, c.bounds.y + y] > 0
  }

  /** The row of offset j in a mask whose rows are `stride` bits apart. */
  function Row(j: nat, stride: nat): nat
    requires stride > 0
    decreases j
  {
    if j < stride then 0 else Row(j - stride, stride) + 1
  }

  /** The column of offset j in a mask whose rows are `stride` bits apart. */
  function Col(j: nat, stride: nat): (x: nat)
    requires stride > 0
    ensures x < stride
    decreases j
  {
    if j < stride then j else Col(j - stride, stride)
  }

  /** Bit k of the mask: set exactly when a copied pixel lands on it and that pixel
      is opaque; clear elsewhere. */
  predicate MaskBit(alpha: array2<byte>, c: Copy, k: int)
    reads alpha
    requires InAtlas(alpha, c)
  {
    var j := k - c.origin;
    0 <= j && 0 < c.cols && Row(j, c.stride) < c.rows && Col(j, c.stride) < c.cols &&
    Opaque(alpha, c, Col(j, c.stride), Row(j, c.stride))
  }

  /** MaskBit for the pixels the loop has copied so far: the rows above `y`, and
      the first `x` pixels of row `y`. */
  predicate PartialBit(alpha: array2<byte>, c: Copy, k: int, y: nat, x: nat)
    reads alpha
    requires InAtlas(alpha, c)
  {
    var j := k - c.origin;
    MaskBit(alpha, c, k) && (Row(j, c.stride) < y || (Row(j, c.stride) == y && Col(j, c.stride) < x))
  }

  /** The bits of the whole mask. */
  function MaskBits(alpha: array2<byte>, c: Copy): (bits: seq<bool>)
    reads alpha
    requires InAtlas(alpha, c)
    ensures |bits| == c.length && forall k :: 0 <= k < c.length ==> bits[k] == MaskBit(alpha, c, k)
  {
    seq(c.length, k requires 0 <= k < c.length reads alpha => MaskBit(alpha, c, k))
  }

  /** Pixel (x, y) sits at offset y * stride + x from the origin, and that offset
      gives back x and y. */
  lemma {:induction false} Decompose(y: nat, x: nat, stride: nat)
    requires x < stride
    ensures Row(y * stride + x, stride) == y && Col(y * stride + x, stride) == x
  {
    if y > 0 {
      Decompose(y - 1, x, stride);
      assert y * stride + x - stride == (y - 1) * stride + x;
    }
  }

  /** Every offset is some pixel's: row times stride plus column. */
  lemma {:induction false} Recompose(j: nat, stride: nat)
    requires stride > 0
    ensures j == Row(j, stride) * stride + Col(j, stride)
    decreases j
  {
    if j >= stride {
      Recompose(j - stride, stride);
      assert (Row(j - stride, stride) + 1) * stride == Row(j - stride, stride) * stride + stride;
    }
  }

  lemma MulMono(a: nat, b: nat, s: nat)
    requires a <= b
    ensures a * s <= b * s
  {
  }

  /** The loop's writes never leave the mask once the last one is inside. */
  lemma FarthestWrite(c: Copy, y: nat, x: nat)
    requires y < c.rows && x < c.cols
    ensures c.origin + y * c.stride + x <= c.origin + (c.rows - 1) * c.stride + (c.cols - 1)
  {
    MulMono(y, c.rows - 1, c.stride);
  }

  /** Copying pixel (x, y) changes the bit it lands on, and only that one. */
  lemma CopyPixel(alpha: array2<byte>, c: Copy, y: nat, x: nat, k: int)
    requires InAtlas(alpha, c) && y < c.rows && x < c.cols
    ensures k == c.origin + y * c.stride + x ==>
      PartialBit(alpha, c, k, y, x + 1) == Opaque(alpha, c, x, y) && !PartialBit(alpha, c, k, y, x)
    ensures k != c.origin + y * c.stride + x ==>
      PartialBit(alpha, c, k, y, x + 1) == PartialBit(alpha, c, k, y, x)
  {
    Decompose(y, x, c.stride);
    var j := k - c.origin;
    if j >= 0 && Row(j, c.stride) == y && Col(j, c.stride) == x {
      Recompose(j, c.stride);
    }
  }

  /** A row copied in full is the same as the next row not yet begun. */
  lemma CopyRowDone(alpha: array2<byte>, c: Copy, y: nat, k: int)
    requires InAtlas(alpha, c)
    ensures PartialBit(alpha, c, k, y, c.cols) == PartialBit(alpha, c, k, y + 1, 0)
  {
  }

  /** The inner loop of the importer's mask loop: copy row y. */
  method CopyRow(alpha: array2<byte>, c: Copy, mask: array<bool>, y: nat) returns (ok: bool)
    requires InAtlas(alpha, c) && mask.Length == c.length && y < c.rows
    requires forall k :: 0 <= k < mask.Length ==> mask[k] == PartialBit(alpha, c, k, y, 0)
    modifies mask
    ensures ok <==> c.cols == 0 || c.origin + y * c.stride + (c.cols - 1) < c.length
    ensures ok ==> forall k :: 0 <= k < mask.Length ==> mask[k] == PartialBit(alpha, c, k, y + 1, 0)
  {
    var x := 0;
    while x < c.cols
      invariant 0 <= x <= c.cols
      invariant forall k :: 0 <= k < mask.Length ==> mask[k] == PartialBit(alpha, c, k, y, x)
      invariant x > 0 ==> c.origin + y * c.stride + (x - 1) < c.length
    {
      var i := c.origin + y * c.stride + x;
      if i >= mask.Length {
        return false;
      }
      ghost var before := mask[..];
      mask[i] := alpha[c.bounds.x + x, c.bounds.y + y] > 0;
      forall k | 0 <= k < mask.Length ensures mask[k] == PartialBit(alpha, c, k, y, x + 1) {
        CopyPixel(alpha, c, y, x, k);
        if k != i {
          assert mask[k] == before[k];
        }
      }
      x := x + 1;
    }
    forall k | 0 <= k < mask.Length
      ensures mask[k] == PartialBit(alpha, c, k, y + 1, 0)
    {
      CopyRowDone(alpha, c, y, k);
    }
    return true;
  }

  /** The mask loop of the importer: for each row y and column x copied, set bit
      origin + y * stride + x from the pixel's alpha. A write past the end of the
      mask is the out-of-range exception of BitArray, and gives None. */
  method Rasterize(alpha: array2<byte>, bounds: Rect, maskWidth: nat, maskHeight: nat,
                   bboxMasks: bool, targetX: nat, targetY: nat) returns (bits: Option<seq<bool>>)
    requires InAtlas(alpha, CopyOf(bounds, maskWidth, maskHeight, bboxMasks, targetX, targetY))
    ensures var c := CopyOf(bounds, maskWidth, maskHeight, bboxMasks, targetX, targetY);
      (bits.Some? <==> WritesFit(c)) && (bits.Some? ==> bits.value == MaskBits(alpha, c))
  {
    var c := CopyOf(bounds, maskWidth, maskHeight, bboxMasks, targetX, targetY);
    var mask := new bool[Stride(maskWidth) * maskHeight](_ => false);
    var y := 0;
    while y < maskHeight && y < bounds.height
      invariant 0 <= y <= c.rows && mask.Length == c.length
      invariant forall k :: 0 <= k < mask.Length ==> mask[k] == PartialBit(alpha, c, k, y, 0)
      invariant y > 0 && c.cols > 0 ==> c.origin + (y - 1) * c.stride + (c.cols - 1) < c.length
    {
      var ok := CopyRow(alpha, c, mask, y);
      if !ok {
        FarthestWrite(c, y, c.cols - 1);
        return None;
      }
      y := y + 1;
    }
    forall k | 0 <= k < mask.Length ensures mask[k] == MaskBit(alpha, c, k) {
    }
    bits := Some(mask[..]);
  }

  // ---------------------------------------------------------------------------
  // Reversal within groups of 8 and packing into bytes

  /** The mask after the reversal loop: bit j of each group of 8 is the group's bit
      7 - j. */
  function ReversedGroups(bits: seq<bool>): (r: seq<bool>)
    requires |bits| % 8 == 0
    ensures |r| == |bits|
  {
    seq(|bits|, k requires 0 <= k < |bits| => bits[k - k % 8 + 7 - k % 8])
  }

  /** The reversal loop: for each group starting at i, bit i + j takes bit i + 7 - j. */
  method ReverseGroups(bits: seq<bool>) returns (out: seq<bool>)
    requires |bits| % 8 == 0
    ensures out == ReversedGroups(bits)
  {
    var temp := new bool[|bits|](_ => false);
    var i := 0;
    while i < |bits|
      invariant 0 <= i <= |bits| && i % 8 == 0
      invariant forall k :: 0 <= k < i ==> temp[k] == bits[k - k % 8 + 7 - k % 8]
    {
      for j := 0 to 8
        invariant forall k :: 0 <= k < i + j ==> temp[k] == bits[k - k % 8 + 7 - k % 8]
      {
        GroupOffset(i, j);
        temp[j + i] := bits[-(j - 7) + i];
      }
      i := i + 8;
    }
    out := temp[..];
  }

  /** Offset j inside the group starting at i: its remainder is j and its group
      starts at i. */
  lemma GroupOffset(i: nat, j: nat)
    requires i % 8 == 0 && j < 8
    ensures (i + j) % 8 == j && (i + j) - (i + j) % 8 + 7 - (i + j) % 8 == -(j - 7) + i
  {
  }

  function Pow2(n: nat): (p: nat)
    ensures p >= 1
  {
    if n == 0 then 1 else 2 * Pow2(n - 1)
  }

  /** The number whose binary digits, low bit first, are `bs`. */
  function PackBits(bs: seq<bool>): (v: nat)
    ensures v < Pow2(|bs|)
  {
    if bs == [] then 0 else (if bs[0] then 1 else 0) + 2 * PackBits(bs[1..])
  }

  /** Bit p of v, counting from the low bit. */
  predicate BitAt(v: nat, p: nat) {
    if p == 0 then v % 2 == 1 else BitAt(v / 2, p - 1)
  }

  /** Reading back bit p of a packed group gives the p-th bit packed. */
  lemma {:induction false} PackBitsAt(bs: seq<bool>, p: nat)
    requires p < |bs|
    ensures BitAt(PackBits(bs), p) == bs[p]
  {
    var v := PackBits(bs);
    var low := if bs[0] then 1 else 0;
    assert v == low + 2 * PackBits(bs[1..]);
    assert v % 2 == low && v / 2 == PackBits(bs[1..]);
    if p > 0 {
      PackBitsAt(bs[1..], p - 1);
    }
  }

  /** BitArray.CopyTo into a byte array: byte b holds bits 8b to 8b + 7, low bit
      first. */
  function CopyToBytes(bits: seq<bool>): (bytes: seq<byte>)
    requires |bits| % 8 == 0
    ensures |bytes| == |bits| / 8
  {
    seq(|bits| / 8, b requires 0 <= b < |bits| / 8 =>
      assert 8 * b + 8 <= |bits|;
      PackBits(bits[8 * b..8 * b + 8]) as byte)
  }

  /** The bytes of the mask, as the importer stores them. */
  function MaskBytes(alpha: array2<byte>, c: Copy): (bytes: seq<byte>)
    reads alpha
    requires InAtlas(alpha, c) && c.length % 8 == 0
    ensures |bytes| == c.length / 8
  {
    CopyToBytes(ReversedGroups(MaskBits(alpha, c)))
  }

  /** The whole encoder: the mask loop, the reversal, CopyTo and the copy into the
      sprite's new mask entry; None where the mask loop writes out of range. The
      entry UndertaleModLib allocates has the byte length of the mask. */
  method EncodeMask(alpha: array2<byte>, bounds: Rect, maskWidth: nat, maskHeight: nat,
                    bboxMasks: bool, targetX: nat, targetY: nat) returns (mask: Option<seq<byte>>)
    requires InAtlas(alpha, CopyOf(bounds, maskWidth, maskHeight, bboxMasks, targetX, targetY))
    ensures var c := CopyOf(bounds, maskWidth, maskHeight, bboxMasks, targetX, targetY);
      c.length % 8 == 0 &&
      mask == if WritesFit(c) then Some(MaskBytes(alpha, c)) else None
  {
    var c := CopyOf(bounds, maskWidth, maskHeight, bboxMasks, targetX, targetY);
    assert c.length % 8 == 0 by { MulEight(c.stride / 8, maskHeight); }
    var bits := Rasterize(alpha, bounds, maskWidth, maskHeight, bboxMasks, targetX, targetY);
    if bits.None? {
      return None;
    }
    var temp := ReverseGroups(bits.value);
    var bytes := CopyToBytes(temp);
    var data := new byte[|bytes|];
    for i := 0 to |bytes|
      invariant forall k :: 0 <= k < i ==> data[k] == bytes[k]
    {
      data[i] := bytes[i];
    }
    assert data[..] == bytes;
    mask := Some(data[..]);
  }

  lemma MulEight(q: nat, h: nat)
    ensures (8 * q) * h % 8 == 0
  {
    assert (8 * q) * h == 8 * (q * h);
  }

  // ---------------------------------------------------------------------------
  // What the bytes say

  /** Pixel j of each group of 8 lands in bit 7 - j of its byte: the first pixel in
      the high bit. */
  lemma MaskByteBit(alpha: array2<byte>, c: Copy, b: nat, j: nat)
    requires InAtlas(alpha, c) && c.length % 8 == 0 && b < c.length / 8 && j < 8
    ensures BitAt(MaskBytes(alpha, c)[b] as nat, 7 - j) == MaskBit(alpha, c, 8 * b + j)
  {
    var bits := MaskBits(alpha, c);
    GroupByteBit(bits, b, j);
  }

  /** The same on any bit sequence: after the reversal and CopyTo, bit 7 - j of
      byte b is bit j of group b. */
  lemma GroupByteBit(bits: seq<bool>, b: nat, j: nat)
    requires |bits| % 8 == 0 && b < |bits| / 8 && j < 8
    ensures BitAt(CopyToBytes(ReversedGroups(bits))[b] as nat, 7 - j) == bits[8 * b + j]
  {
    var temp := ReversedGroups(bits);
    ByteOfGroup(temp, b);
    var group := temp[8 * b..8 * b + 8];
    PackBitsAt(group, 7 - j);
    assert group[7 - j] == temp[8 * b + (7 - j)];
    ReversedAt(bits, b, j);
  }

  /** Bit 7 - j of group b after the reversal is bit j of group b before it. */
  lemma ReversedAt(bits: seq<bool>, b: nat, j: nat)
    requires |bits| % 8 == 0 && b < |bits| / 8 && j < 8
    ensures 8 * b + 8 <= |bits|
    ensures ReversedGroups(bits)[8 * b + (7 - j)] == bits[8 * b + j]
  {
    var i := 8 * b;
    assert i % 8 == 0;
    GroupOffset(i, 7 - j);
  }

  /** Byte b of CopyTo packs group b. */
  lemma ByteOfGroup(bits: seq<bool>, b: nat)
    requires |bits| % 8 == 0 && b < |bits| / 8
    ensures 8 * b + 8 <= |bits|
    ensures CopyToBytes(bits)[b] as nat == PackBits(bits[8 * b..8 * b + 8])
  {
  }

  /** Where every copied pixel goes: when the writes fit, pixel (x, y) decides the
      bit at origin + y * stride + x, which lies inside the mask. */
  lemma MaskPixel(alpha: array2<byte>, c: Copy, x: nat, y: nat)
    requires InAtlas(alpha, c) && WritesFit(c) && x < c.cols && y < c.rows
    ensures c.origin + y * c.stride + x < c.length
    ensures MaskBit(alpha, c, c.origin + y * c.stride + x) == Opaque(alpha, c, x, y)
  {
    FarthestWrite(c, y, x);
    Decompose(y, x, c.stride);
  }

  /** A bit no copied pixel lands on stays clear. */
  lemma MaskBitIsSomePixel(alpha: array2<byte>, c: Copy, k: int)
    requires InAtlas(alpha, c) && MaskBit(alpha, c, k)
    ensures exists x: nat, y: nat ::
      (x < c.cols && y < c.rows && k == c.origin + y * c.stride + x && Opaque(alpha, c, x, y))
  {
    var j := k - c.origin;
    Recompose(j, c.stride);
    var x, y := Col(j, c.stride), Row(j, c.stride);
    assert k == c.origin + y * c.stride + x;
  }
}
