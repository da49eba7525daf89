/** The PinDMD2 wire format: a 4-byte sync header followed by four bit-planes of
    512 bytes each. Every plane byte packs one luminosity bit of eight horizontally
    adjacent pixels of the 128x32 display. */
module Frame {

  const Width: int := 128
  const Height: int := 32
  /** Number of 8-pixel groups in one row: Width / 8 */
  const GroupsPerRow: int := 16
  /** Bytes in one bit-plane, one bit per pixel: Width * Height / 8 */
  const PlaneSize: int := 512
  const HeaderSize: int := 4
  /** 4 bits per pixel plus the sync header */
  const FrameSize: int := Width * Height / 2 + HeaderSize

  /** The frame sync bytes the transmit buffer starts with */
  const Header: seq<bv8> := [0x81, 0xC3, 0xE7, 0x00]

  /** A bitmap as the encoder sees it: its dimensions, the bits per pixel of its
      pixel format, and the 8-bit luminosity of every pixel (the conversion from
      the pixel's colour bytes is not modelled) */
  datatype Image = Image(width: int, height: int, bitsPerPixel: nat, lum: (int, int) -> bv8)

  predicate HasNativeSize(img: Image)
  {
    img.width == Width && img.height == Height
  }

  /** Bytes of one pixel, rounded up, as the encoder sizes its one-pixel buffer */
  function BytesPerPixel(img: Image): nat
  {
    (img.bitsPerPixel + 7) / 8
  }

  /** Whether a pixel has the three colour bytes (blue, green, red) the
      luminosity conversion reads; Gray8 and other narrow formats do not */
  predicate HasColourBytes(img: Image)
  {
    BytesPerPixel(img) >= 3
  }

  /** Bit j of b, as 0 or 1 */
  function Bit(b: bv8, j: nat): bv8
    requires j < 8
  {
    (b >> j) & 1
  }

  /** The luminosity mask tested for plane p: 16, 32, 64 or 128 */
  function PlaneMask(p: nat): bv8
    requires p < 4
  {
    if p == 0 then 16 else if p == 1 then 32 else if p == 2 then 64 else 128
  }

  /** What one pixel contributes to the accumulator of plane p: 1 when its
      luminosity has the plane's mask bit set */
  function PlaneBit(l: bv8, p: nat): bv8
    requires p < 4
  {
    if l & PlaneMask(p) != 0 then 1 else 0
  }

  /** The mask test picks out bit 4+p of the luminosity */
  lemma PlaneBitIsBit(l: bv8, p: nat)
    requires p < 4
    ensures PlaneBit(l, p) == Bit(l, 4 + p)
  {
  }

  /** The plane-p accumulator of the group starting at column x of row y once the
      columns x+7, x+6, ..., x+k have been shifted in, in that order (k == 8: none
      yet). Each step shifts left by one, dropping the top bit as a byte does, and
      ORs in the new pixel's bit. */
  function Acc(img: Image, x: int, y: int, p: nat, k: nat): bv8
    requires p < 4 && k <= 8
    decreases 8 - k
  {
    if k == 8 then 0
    else (Acc(img, x, y, p, k + 1) << 1) | PlaneBit(img.lum(x + k, y), p)
  }

  /** The plane-p byte of the 8-pixel group starting at column x of row y */
  function GroupByte(img: Image, x: int, y: int, p: nat): bv8
    requires p < 4
  {
    Acc(img, x, y, p, 0)
  }

  /** Offset, from the end of the header, of the plane-p byte of group g of row y */
  function Slot(y: int, g: int, p: int): int
  {
    GroupsPerRow * y + g + PlaneSize * p
  }

  predicate InGrid(y: int, g: int, p: int)
  {
    0 <= y < Height && 0 <= g < GroupsPerRow && 0 <= p < 4
  }

  /** The 2048 plane bytes, plane after plane, each plane row-major by group */
  function Payload(img: Image): (s: seq<bv8>)
    ensures |s| == 4 * PlaneSize
  {
    seq(4 * PlaneSize, i requires 0 <= i < 4 * PlaneSize =>
      GroupByte(img, 8 * (i % GroupsPerRow), (i % PlaneSize) / GroupsPerRow, i / PlaneSize))
  }

  /** The whole transmit buffer after a frame has been encoded */
  function WireFrame(img: Image): (s: seq<bv8>)
    ensures |s| == FrameSize
    ensures s[..HeaderSize] == Header
  {
    Header + Payload(img)
  }

  predicate AllLum(img: Image, l: bv8)
  {
    forall x, y :: 0 <= x < Width && 0 <= y < Height ==> img.lum(x, y) == l
  }

  // ---------------------------------------------------------------------------
  // Layout

  /** The buffer size is 2052 and the four planes exactly fill it after the header */
  lemma FrameSizeIs2052()
    ensures FrameSize == 2052
    ensures PlaneSize == Width * Height / 8 && GroupsPerRow == Width / 8
    ensures HeaderSize + 4 * PlaneSize == FrameSize
  {
  }

  /** The group of row y starting at column 8g lands, for plane p, at offset
      16y + g + 512p of the payload */
  lemma PayloadLayout(img: Image, y: int, g: int, p: nat)
    requires InGrid(y, g, p)
    ensures 0 <= Slot(y, g, p) < 4 * PlaneSize
    ensures Payload(img)[Slot(y, g, p)] == GroupByte(img, 8 * g, y, p)
  {
    var i := Slot(y, g, p);
    DivModPlane(i, p, GroupsPerRow * y + g);
    DivModGroup(GroupsPerRow * y + g, y, g);
    DivModGroup(i, y + 32 * p, g);
  }

  lemma DivModPlane(n: int, q: int, r: int)
    requires 0 <= r < PlaneSize && n == PlaneSize * q + r
    ensures n / PlaneSize == q && n % PlaneSize == r
  {
  }

  lemma DivModGroup(n: int, q: int, r: int)
    requires 0 <= r < GroupsPerRow && n == GroupsPerRow * q + r
    ensures n / GroupsPerRow == q && n % GroupsPerRow == r
  {
  }

  /** Distinct (row, group, plane) triples have distinct slots: no payload byte is
      written twice */
  lemma SlotsDistinct(y1: int, g1: int, p1: int, y2: int, g2: int, p2: int)
    requires InGrid(y1, g1, p1) && InGrid(y2, g2, p2)
    requires Slot(y1, g1, p1) == Slot(y2, g2, p2)
    ensures y1 == y2 && g1 == g2 && p1 == p2
  {
    var i := Slot(y1, g1, p1);
    DivModPlane(i, p1, GroupsPerRow * y1 + g1);
    DivModPlane(i, p2, GroupsPerRow * y2 + g2);
    DivModGroup(GroupsPerRow * y1 + g1, y1, g1);
    DivModGroup(GroupsPerRow * y2 + g2, y2, g2);
  }

  /** Every payload offset is the slot of some (row, group, plane): no payload
      byte is left unwritten */
  lemma SlotCovers(i: int) returns (y: int, g: int, p: int)
    requires 0 <= i < 4 * PlaneSize
    ensures InGrid(y, g, p) && Slot(y, g, p) == i
  {
    p := i / PlaneSize;
    y := (i % PlaneSize) / GroupsPerRow;
    g := i % GroupsPerRow;
    DivModGroup(i % PlaneSize, y, (i % PlaneSize) % GroupsPerRow);
    DivModGroup(i, 32 * p + y, (i % PlaneSize) % GroupsPerRow);
  }

  // ---------------------------------------------------------------------------
  // Bit positions

  /** Shifting left and ORing in a 0/1 bit moves every bit up by one */
  lemma ShiftInBit(a: bv8, b: bv8, j: nat)
    requires b == 0 || b == 1
    requires j < 8
    ensures Bit((a << 1) | b, j) == if j == 0 then b else Bit(a, j - 1)
  {
  }

  /** After columns x+7 .. x+k were shifted in, bit j holds column x+k+j's plane
      bit, and the bits above the ones shifted in are still 0 */
  lemma {:induction false} AccBits(img: Image, x: int, y: int, p: nat, k: nat, j: nat)
    requires p < 4 && k <= 8 && j < 8
    ensures Bit(Acc(img, x, y, p, k), j) ==
            if j < 8 - k then Bit(img.lum(x + k + j, y), 4 + p) else 0
    decreases 8 - k
  {
    if k < 8 {
      var b := PlaneBit(img.lum(x + k, y), p);
      PlaneBitIsBit(img.lum(x + k, y), p);
      ShiftInBit(Acc(img, x, y, p, k + 1), b, j);
      if j > 0 {
        AccBits(img, x, y, p, k + 1, j - 1);
      }
    }
  }

  /** Bit j of the plane-p byte of the group starting at column x is bit 4+p of
      the luminosity at column x+j: the first column sampled (x+7) ends in bit 7,
      the last one (x) in bit 0 */
  lemma GroupByteBit(img: Image, x: int, y: int, p: nat, j: nat)
    requires p < 4 && j < 8
    ensures Bit(GroupByte(img, x, y, p), j) == Bit(img.lum(x + j, y), 4 + p)
  {
    AccBits(img, x, y, p, 0, j);
  }

  /** Two bytes with the same eight bits are equal */
  lemma BitsDetermineByte(a: bv8, b: bv8)
    requires forall j :: 0 <= j < 8 ==> Bit(a, j) == Bit(b, j)
    ensures a == b
  {
    assert Bit(a, 0) == Bit(b, 0) && Bit(a, 1) == Bit(b, 1) && Bit(a, 2) == Bit(b, 2);
    assert Bit(a, 3) == Bit(b, 3) && Bit(a, 4) == Bit(b, 4) && Bit(a, 5) == Bit(b, 5);
    assert Bit(a, 6) == Bit(b, 6) && Bit(a, 7) == Bit(b, 7);
  }

  /** The payload byte at slot (y, g, p) has bit j equal to bit 4+p of pixel
      (8g + j, y): the exact pixel-to-wire correspondence */
  lemma PayloadBit(img: Image, y: int, g: int, p: nat, j: nat)
    requires InGrid(y, g, p) && j < 8
    ensures Bit(Payload(img)[Slot(y, g, p)], j) == Bit(img.lum(8 * g + j, y), 4 + p)
  {
    PayloadLayout(img, y, g, p);
    GroupByteBit(img, 8 * g, y, p, j);
  }

  // ---------------------------------------------------------------------------
  // Consequences

  /** Only the top four luminosity bits reach the wire: images that agree on
      them everywhere encode to the same payload */
  lemma {:induction false} LowNibbleIgnored(a: Image, b: Image)
    requires forall x, y :: 0 <= x < Width && 0 <= y < Height ==>
               a.lum(x, y) & 0xF0 == b.lum(x, y) & 0xF0
    ensures Payload(a) == Payload(b)
  {
    forall i | 0 <= i < 4 * PlaneSize
      ensures Payload(a)[i] == Payload(b)[i]
    {
      var y, g, p := SlotCovers(i);
      forall j | 0 <= j < 8
        ensures Bit(Payload(a)[i], j) == Bit(Payload(b)[i], j)
      {
        PayloadBit(a, y, g, p, j);
        PayloadBit(b, y, g, p, j);
        HighBitsAgree(a.lum(8 * g + j, y), b.lum(8 * g + j, y), p);
      }
      BitsDetermineByte(Payload(a)[i], Payload(b)[i]);
    }
  }

  lemma HighBitsAgree(l1: bv8, l2: bv8, p: nat)
    requires p < 4 && l1 & 0xF0 == l2 & 0xF0
    ensures Bit(l1, 4 + p) == Bit(l2, 4 + p)
  {
  }

  /** Every plane byte of an image of one luminosity l has, in every bit, the
      plane's bit of l */
  lemma {:induction false} UniformImage(img: Image, l: bv8, i: int, j: nat)
    requires AllLum(img, l)
    requires 0 <= i < 4 * PlaneSize && j < 8
    ensures Bit(Payload(img)[i], j) == Bit(l, 4 + i / PlaneSize)
  {
    var y, g, p := SlotCovers(i);
    PayloadBit(img, y, g, p, j);
    DivModPlane(i, p, GroupsPerRow * y + g);
  }

  /** An all-zero image yields an all-zero payload */
  lemma {:induction false} BlankImage(img: Image)
    requires AllLum(img, 0)
    ensures forall i :: 0 <= i < 4 * PlaneSize ==> Payload(img)[i] == 0
  {
    forall i | 0 <= i < 4 * PlaneSize
      ensures Payload(img)[i] == 0
    {
      forall j | 0 <= j < 8 ensures Bit(Payload(img)[i], j) == Bit(0, j) {
        UniformImage(img, 0, i, j);
      }
      BitsDetermineByte(Payload(img)[i], 0);
    }
  }

  /** An all-255 image yields an all-0xFF payload */
  lemma {:induction false} FullImage(img: Image)
    requires AllLum(img, 0xFF)
    ensures forall i :: 0 <= i < 4 * PlaneSize ==> Payload(img)[i] == 0xFF
  {
    forall i | 0 <= i < 4 * PlaneSize
      ensures Payload(img)[i] == 0xFF
    {
      forall j | 0 <= j < 8 ensures Bit(Payload(img)[i], j) == Bit(0xFF, j) {
        UniformImage(img, 0xFF, i, j);
      }
      BitsDetermineByte(Payload(img)[i], 0xFF);
    }
  }

  /** A single lit pixel (cx, cy) of luminosity l on a black image: the payload
      byte of its group in plane p is the plane's bit of l moved to bit cx % 8,
      and every byte of every other group is 0 */
  lemma {:induction false} SinglePixel(img: Image, cx: int, cy: int, l: bv8, y: int, g: int, p: nat)
    requires 0 <= cx < Width && 0 <= cy < Height
    requires forall x, y :: 0 <= x < Width && 0 <= y < Height ==>
               img.lum(x, y) == if x == cx && y == cy then l else 0
    requires InGrid(y, g, p)
    ensures Payload(img)[Slot(y, g, p)] ==
            if y == cy && g == cx / 8 then PlaneBit(l, p) << (cx % 8) else 0
  {
    var expected: bv8 := if y == cy && g == cx / 8 then PlaneBit(l, p) << (cx % 8) else 0;
    PlaneBitIsBit(l, p);
    forall j | 0 <= j < 8
      ensures Bit(Payload(img)[Slot(y, g, p)], j) == Bit(expected, j)
    {
      PayloadBit(img, y, g, p, j);
      if y == cy && g == cx / 8 {
        ShiftedBit(PlaneBit(l, p), cx % 8, j);
      }
    }
    BitsDetermineByte(Payload(img)[Slot(y, g, p)], expected);
  }

  lemma ShiftedBit(b: bv8, s: nat, j: nat)
    requires b == 0 || b == 1
    requires s < 8 && j < 8
    ensures Bit(b << s, j) == if j == s then b else 0
  {
  }
}
