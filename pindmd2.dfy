/** The PinDMD2 output device: a session that owns the USB handle, the
    availability flag and the transmit buffer, and encodes each frame into that
    buffer before one bulk write. The USB library is outside the model: what it
    returns is passed in, and what the session asks of it is returned as a list
    of calls. */
module PinDmd2Device {
  import opened Frame

  datatype Option<T> = None | Some(value: T)

  /** The product-string fragment a genuine device reports */
  const ProductTag: string := "pinDMD V2"
  /** Endpoint Ep01 and the 2000 ms timeout of the bulk write */
  const WriteEndpoint: int := 1
  const WriteTimeoutMs: int := 2000

  /** An opened USB device as the library hands it out: its product string,
      whether it is a whole device (one whose configuration and interfaces can be
      set and claimed), and whether it is open */
  datatype UsbHandle = UsbHandle(productString: string, isWholeDevice: bool, isOpen: bool)

  /** The requests the session makes of the USB library, in order */
  datatype UsbCall =
    | SetConfiguration(config: int)
    | ClaimInterface(iface: int)
    | ReleaseInterface(iface: int)
    | Close
    | BulkWrite(endpoint: int, data: seq<bv8>, timeoutMs: int)
    | Exit

  /** Why a render failed: the device is not available, the image has the wrong
      size, a pixel is too narrow for the colour bytes read from it (an index out
      of range in the C# code), the handle is gone (a null dereference in the C#
      code), or the transfer reported an error with the library's last error
      message */
  datatype RenderError =
    | SourceNotAvailable
    | DimensionMismatch(width: int, height: int)
    | PixelTooNarrow(bytesPerPixel: int)
    | NullDevice
    | TransferFailed(message: string)

  datatype Outcome = Pass | Fail(error: RenderError)

  /** Ordinal substring test, as the product-string check does it */
  function Contains(s: string, sub: string): bool
    decreases |s|
  {
    if sub <= s then true
    else if s == [] then false
    else Contains(s[1..], sub)
  }

  predicate OccursAt(s: string, sub: string, i: int)
  {
    0 <= i <= |s| && sub <= s[i..]
  }

  /** Contains holds exactly when sub occurs somewhere in s */
  lemma {:induction false} ContainsIff(s: string, sub: string)
    ensures Contains(s, sub) <==> exists i :: OccursAt(s, sub, i)
    decreases |s|
  {
    if sub <= s {
      assert OccursAt(s, sub, 0);
    } else if s == [] {
    } else {
      ContainsIff(s[1..], sub);
      if Contains(s[1..], sub) {
        var i :| OccursAt(s[1..], sub, i);
        assert s[1..][i..] == s[i + 1..];
        assert OccursAt(s, sub, i + 1);
      } else {
        forall i | OccursAt(s, sub, i) ensures false {
          if i > 0 {
            assert s[1..][i - 1..] == s[i..];
            assert OccursAt(s[1..], sub, i - 1);
          }
        }
      }
    }
  }

  /** The availability rule of Init: a device was found and its product string
      names a PinDMD2 */
  function Accepts(found: Option<UsbHandle>): (ok: bool)
    ensures ok <==> found.Some? && exists i :: OccursAt(found.value.productString, ProductTag, i)
  {
    if found.Some? then (ContainsIff(found.value.productString, ProductTag); Contains(found.value.productString, ProductTag))
    else false
  }

  /** The 128x32 output target */
  class PinDmd2 {
    /** Whether the last Init found a genuine device */
    var isAvailable: bool
    /** The open USB device, None for the null reference */
    var device: Option<UsbHandle>
    /** The transmit buffer, allocated once and reused for every frame */
    const frameBuffer: array<bv8>

    /** The buffer keeps its size and its sync header for the session's life */
    ghost predicate Valid()
      reads this, frameBuffer
    {
      frameBuffer.Length == FrameSize && frameBuffer[..HeaderSize] == Header
    }

    /** Allocates the buffer (4 bits per pixel plus the 4 sync bytes) and writes
        the header; no device yet */
    constructor ()
      ensures Valid() && fresh(frameBuffer)
      ensures frameBuffer[..] == Header + seq(4 * PlaneSize, _ => 0)
      ensures !isAvailable && device == None
    {
      var size := (Width * Height / 2) + 4;
      frameBuffer := new bv8[size](_ => 0);
      new;
      frameBuffer[0] := 0x81;
      frameBuffer[1] := 0xC3;
      frameBuffer[2] := 0xE7;
      frameBuffer[3] := 0x0;
      isAvailable := false;
      device := None;
      assert frameBuffer[..HeaderSize] == Header;
      assert frameBuffer[..] == Header + seq(4 * PlaneSize, _ => 0);
    }

    /** Takes the device the library opened (found). Without one, or with one whose
        product string does not name a PinDMD2, the session is unavailable; the
        handle is kept in either case. A whole device then has configuration 1 set
        and interface 0 claimed. */
    method Init(found: Option<UsbHandle>) returns (calls: seq<UsbCall>)
      requires Valid()
      modifies this
      ensures Valid()
      ensures device == found
      ensures isAvailable == Accepts(found)
      ensures calls == if isAvailable && found.value.isWholeDevice
                       then [SetConfiguration(1), ClaimInterface(0)] else []
    {
      device := found;
      calls := [];
      if device.None? {
        isAvailable := false;
        return;
      }
      if !Contains(device.value.productString, ProductTag) {
        isAvailable := false;
        return;
      }
      if device.value.isWholeDevice {
        calls := calls + [SetConfiguration(1), ClaimInterface(0)];
      }
      isAvailable := true;
    }

    /** Renders one frame: refuses an unavailable session, an image of the
        wrong size and an image whose pixels have fewer than three bytes (the
        first colour read overruns the one-pixel buffer) before touching the
        buffer, then encodes the image and sends
        the whole buffer. The outcome of the transfer (writeOk) and the library's
        last error message are given. */
    method Render(img: Image, writeOk: bool, lastError: string) returns (r: Outcome, calls: seq<UsbCall>)
      requires Valid()
      modifies frameBuffer
      ensures Valid()
      ensures !isAvailable ==>
                r == Fail(SourceNotAvailable) && calls == [] && frameBuffer[..] == old(frameBuffer[..])
      ensures isAvailable && !HasNativeSize(img) ==>
                r == Fail(DimensionMismatch(img.width, img.height)) && calls == []
                && frameBuffer[..] == old(frameBuffer[..])
      ensures isAvailable && HasNativeSize(img) && !HasColourBytes(img) ==>
                r == Fail(PixelTooNarrow(BytesPerPixel(img))) && calls == []
                && frameBuffer[..] == old(frameBuffer[..])
      ensures isAvailable && HasNativeSize(img) && HasColourBytes(img) ==> frameBuffer[..] == WireFrame(img)
      ensures isAvailable && HasNativeSize(img) && HasColourBytes(img) && device.None? ==>
                r == Fail(NullDevice) && calls == []
      ensures isAvailable && HasNativeSize(img) && HasColourBytes(img) && device.Some? ==>
                calls == [BulkWrite(WriteEndpoint, WireFrame(img), WriteTimeoutMs)]
                && r == (if writeOk then Pass else Fail(TransferFailed(lastError)))
    {
      if !isAvailable {
        return Fail(SourceNotAvailable), [];
      }
      if img.width != Width || img.height != Height {
        return Fail(DimensionMismatch(img.width, img.height)), [];
      }
      var bytesPerPixel := (img.bitsPerPixel + 7) / 8;
      if bytesPerPixel < 3 {
        return Fail(PixelTooNarrow(bytesPerPixel)), [];
      }
      Encode(img);
      if device.None? {
        return Fail(NullDevice), [];
      }
      calls := [BulkWrite(WriteEndpoint, frameBuffer[..], WriteTimeoutMs)];
      r := if writeOk then Pass else Fail(TransferFailed(lastError));
    }

    /** The frame encoder: walks the image row by row in 8-column groups, builds
        the four plane bytes of each group by shifting in columns x+7 down to x,
        and stores them 512 bytes apart, advancing byteIdx once per group */
    method Encode(img: Image)
      requires Valid()
      modifies frameBuffer
      ensures Valid()
      ensures frameBuffer[..] == WireFrame(img)
    {
      ghost var before := frameBuffer[..];
      ProgressStart(before, img);
      var byteIdx := 4;
      var y := 0;
      while y < Height
        invariant 0 <= y <= Height
        invariant byteIdx == HeaderSize + GroupsPerRow * y
        invariant frameBuffer[..] == Progress(before, img, GroupsPerRow * y)
      {
        var x := 0;
        while x < Width
          invariant 0 <= x <= Width && x % 8 == 0
          invariant byteIdx == HeaderSize + GroupsPerRow * y + x / 8
          invariant frameBuffer[..] == Progress(before, img, GroupsPerRow * y + x / 8)
        {
          var bd0, bd1, bd2, bd3 := PackGroup(img, x, y);
          ProgressStep(before, img, y, x / 8);
          ghost var cur := frameBuffer[..];
          frameBuffer[byteIdx] := bd0;
          frameBuffer[byteIdx + 512] := bd1;
          frameBuffer[byteIdx + 1024] := bd2;
          frameBuffer[byteIdx + 1536] := bd3;
          assert frameBuffer[..] == cur[byteIdx := bd0][byteIdx + 512 := bd1]
                                       [byteIdx + 1024 := bd2][byteIdx + 1536 := bd3];
          byteIdx := byteIdx + 1;
          x := x + 8;
        }
        y := y + 1;
      }
      ProgressDone(before, img);
    }

    /** Releases and closes an open handle, forgets it and shuts the library
        down; harmless to repeat. The availability flag is left as it was. */
    method Dispose() returns (calls: seq<UsbCall>)
      requires Valid()
      modifies this
      ensures Valid()
      ensures device == None && isAvailable == old(isAvailable)
      ensures calls == ReleaseCalls(old(device)) + [Exit]
    {
      calls := [];
      if device.Some? {
        if device.value.isOpen {
          if device.value.isWholeDevice {
            calls := calls + [ReleaseInterface(0)];
          }
          calls := calls + [Close];
        }
      }
      device := None;
      calls := calls + [Exit];
    }
  }

  /** The four plane bytes of the 8-pixel group starting at column x of row y:
      columns x+7 down to x are sampled in turn, and each plane's accumulator is
      shifted left and gets the pixel's bit 4, 5, 6 or 7 ORed in */
  method PackGroup(img: Image, x: int, y: int) returns (bd0: bv8, bd1: bv8, bd2: bv8, bd3: bv8)
    ensures bd0 == GroupByte(img, x, y, 0) && bd1 == GroupByte(img, x, y, 1)
    ensures bd2 == GroupByte(img, x, y, 2) && bd3 == GroupByte(img, x, y, 3)
  {
    bd0, bd1, bd2, bd3 := 0, 0, 0, 0;
    var v := 7;
      while v >= 0
        invariant -1 <= v <= 7
        invariant bd0 == Acc(img, x, y, 0, v + 1) && bd1 == Acc(img, x, y, 1, v + 1)
        invariant bd2 == Acc(img, x, y, 2, v + 1) && bd3 == Acc(img, x, y, 3, v + 1)
      {
        var pixel := img.lum(x + v, y);
        assert Acc(img, x, y, 0, v) == (Acc(img, x, y, 0, v + 1) << 1) | PlaneBit(pixel, 0);
        assert Acc(img, x, y, 1, v) == (Acc(img, x, y, 1, v + 1) << 1) | PlaneBit(pixel, 1);
        assert Acc(img, x, y, 2, v) == (Acc(img, x, y, 2, v + 1) << 1) | PlaneBit(pixel, 2);
        assert Acc(img, x, y, 3, v) == (Acc(img, x, y, 3, v + 1) << 1) | PlaneBit(pixel, 3);
        bd0 := bd0 << 1;
        bd1 := bd1 << 1;
        bd2 := bd2 << 1;
        bd3 := bd3 << 1;
        if pixel & 16 != 0 {
          bd0 := bd0 | 1;
        }
        if pixel & 32 != 0 {
          bd1 := bd1 | 1;
        }
        if pixel & 64 != 0 {
          bd2 := bd2 | 1;
        }
        if pixel & 128 != 0 {
          bd3 := bd3 | 1;
        }
        assert bd0 == Acc(img, x, y, 0, v) && bd1 == Acc(img, x, y, 1, v);
        assert bd2 == Acc(img, x, y, 2, v) && bd3 == Acc(img, x, y, 3, v);
        v := v - 1;
      }
  }

  /** The buffer during encoding, once the first n groups of every plane are
      stored: those bytes hold the payload, all others their earlier value */
  function Progress(before: seq<bv8>, img: Image, n: int): (s: seq<bv8>)
    requires |before| == FrameSize
    ensures |s| == FrameSize
  {
    seq(FrameSize, i requires 0 <= i < FrameSize =>
      if HeaderSize <= i && (i - HeaderSize) % PlaneSize < n then Payload(img)[i - HeaderSize]
      else before[i])
  }

  lemma ProgressStart(before: seq<bv8>, img: Image)
    requires |before| == FrameSize
    ensures Progress(before, img, 0) == before
  {
  }

  /** Storing the four plane bytes of group g of row y, 512 bytes apart,
      advances the encoding by one group */
  lemma ProgressStep(before: seq<bv8>, img: Image, y: int, g: int)
    requires |before| == FrameSize && InGrid(y, g, 0)
    ensures var n := Slot(y, g, 0);
            Progress(before, img, n)
              [HeaderSize + n := GroupByte(img, 8 * g, y, 0)]
              [HeaderSize + n + PlaneSize := GroupByte(img, 8 * g, y, 1)]
              [HeaderSize + n + 2 * PlaneSize := GroupByte(img, 8 * g, y, 2)]
              [HeaderSize + n + 3 * PlaneSize := GroupByte(img, 8 * g, y, 3)]
            == Progress(before, img, n + 1)
  {
    var n := Slot(y, g, 0);
    var stored := Progress(before, img, n)
      [HeaderSize + n := GroupByte(img, 8 * g, y, 0)]
      [HeaderSize + n + PlaneSize := GroupByte(img, 8 * g, y, 1)]
      [HeaderSize + n + 2 * PlaneSize := GroupByte(img, 8 * g, y, 2)]
      [HeaderSize + n + 3 * PlaneSize := GroupByte(img, 8 * g, y, 3)];
    var next := Progress(before, img, n + 1);
    forall i | 0 <= i < FrameSize
      ensures stored[i] == next[i]
    {
      ProgressStepAt(before, img, y, g, i);
    }
    assert stored == next;
  }

  /** One byte of that step: the four stored offsets are exactly the ones whose
      in-plane offset is the group's slot */
  lemma ProgressStepAt(before: seq<bv8>, img: Image, y: int, g: int, i: int)
    requires |before| == FrameSize && InGrid(y, g, 0) && 0 <= i < FrameSize
    ensures var n := Slot(y, g, 0);
            Progress(before, img, n + 1)[i] ==
              if i == HeaderSize + n then GroupByte(img, 8 * g, y, 0)
              else if i == HeaderSize + n + PlaneSize then GroupByte(img, 8 * g, y, 1)
              else if i == HeaderSize + n + 2 * PlaneSize then GroupByte(img, 8 * g, y, 2)
              else if i == HeaderSize + n + 3 * PlaneSize then GroupByte(img, 8 * g, y, 3)
              else Progress(before, img, n)[i]
  {
    var n := Slot(y, g, 0);
    if HeaderSize <= i {
      var q, r := (i - HeaderSize) / PlaneSize, (i - HeaderSize) % PlaneSize;
      assert i - HeaderSize == PlaneSize * q + r && 0 <= q < 4;
      if r == n {
        PayloadLayout(img, y, g, q);
      }
    }
  }

  /** Once every group is stored the buffer is the sync header and the payload */
  lemma ProgressDone(before: seq<bv8>, img: Image)
    requires |before| == FrameSize && before[..HeaderSize] == Header
    ensures Progress(before, img, PlaneSize) == WireFrame(img)
  {
    assert forall i :: 0 <= i < HeaderSize ==> before[i] == before[..HeaderSize][i];
  }

  /** The release requests Dispose makes for a handle */
  function ReleaseCalls(device: Option<UsbHandle>): seq<UsbCall>
  {
    if device.Some? && device.value.isOpen then
      (if device.value.isWholeDevice then [ReleaseInterface(0)] else []) + [Close]
    else []
  }

  /** Holds the one instance of the output target, a static field of the C#
      class */
  class Registry {
    var instance: PinDmd2?

    /** Creates the instance on the first call only, and re-initialises it on
        every call */
    method GetInstance(found: Option<UsbHandle>) returns (inst: PinDmd2, calls: seq<UsbCall>)
      requires instance != null ==> instance.Valid()
      modifies this, instance
      ensures instance == inst && inst.Valid()
      ensures old(instance) != null ==>
                (inst == old(instance) && inst.frameBuffer[..] == old(instance.frameBuffer[..]))
      ensures old(instance) == null ==>
                (fresh(inst) && fresh(inst.frameBuffer)
                 && inst.frameBuffer[..] == Header + seq(4 * PlaneSize, _ => 0))
      ensures inst.device == found && inst.isAvailable == Accepts(found)
      ensures calls == if inst.isAvailable && found.value.isWholeDevice
                       then [SetConfiguration(1), ClaimInterface(0)] else []
    {
      if instance == null {
        instance := new PinDmd2();
      }
      inst := instance;
      calls := inst.Init(found);
    }
  }

  /** A session disposed twice can be initialised again, and the second Dispose
      only shuts the library down */
  method DisposeTwiceThenInit(found: Option<UsbHandle>) returns (available: bool, second: seq<UsbCall>)
    ensures second == [Exit]
    ensures available == Accepts(found)
  {
    var session := new PinDmd2();
    var _ := session.Init(found);
    var _ := session.Dispose();
    second := session.Dispose();
    var _ := session.Init(found);
    available := session.isAvailable;
  }

  /** Dispose leaves the availability flag set, so a render after it passes the
      availability check, rewrites the buffer, and then finds no handle */
  method RenderAfterDispose(found: Option<UsbHandle>, img: Image, writeOk: bool, lastError: string)
    returns (r: Outcome, encoded: seq<bv8>)
    requires Accepts(found) && HasNativeSize(img) && HasColourBytes(img)
    ensures r == Fail(NullDevice)
    ensures encoded == WireFrame(img)
  {
    var session := new PinDmd2();
    var _ := session.Init(found);
    var _ := session.Dispose();
    var calls;
    r, calls := session.Render(img, writeOk, lastError);
    encoded := session.frameBuffer[..];
  }

  /** A Gray8 image, the monochrome processor's default output, has one byte per
      pixel: rendering it fails on the first pixel, before the buffer changes and
      before any transfer */
  method RenderGray8(found: Option<UsbHandle>, img: Image, writeOk: bool, lastError: string)
    returns (r: Outcome, calls: seq<UsbCall>, buffer: seq<bv8>)
    requires Accepts(found) && HasNativeSize(img) && img.bitsPerPixel == 8
    ensures r == Fail(PixelTooNarrow(1)) && calls == []
    ensures buffer == Header + seq(4 * PlaneSize, _ => 0)
  {
    var session := new PinDmd2();
    var _ := session.Init(found);
    r, calls := session.Render(img, writeOk, lastError);
    buffer := session.frameBuffer[..];
  }
}
