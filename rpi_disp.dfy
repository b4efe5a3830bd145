/**
 * The "hardware" back end of the Raspberry Pi display: its blit and fill
 * entry points (which only ever accept empty requests), and the pure
 * decisions of `rpi_disp_init` / `rpi_disp_close` around the device I/O.
 * The results of open, ioctl and mmap are parameters.
 */
module RpiDisp {
  import opened Blt2d

  /** 2^32: `uint32_t` arithmetic wraps modulo this. */
  const U32: nat := 0x1_0000_0000

  /** Whether an address lies in the framebuffer `[addr, addr + size)`. */
  predicate InFramebuffer(fbAddr: nat, fbSize: nat, p: nat)
  {
    fbAddr <= p < fbAddr + fbSize
  }

  /**
   * rpi_blt: a blit whose source or destination base lies outside the
   * framebuffer is declined; otherwise an empty blit counts as done and a
   * non-empty one is declined (the accelerated path is not implemented, and
   * the size thresholds after the early `return 0` are never reached).
   */
  function RpiBlt(fbAddr: nat, fbSize: nat, r: BltRequest): (ok: bool)
  {
    if !InFramebuffer(fbAddr, fbSize, r.srcBits) || !InFramebuffer(fbAddr, fbSize, r.dstBits) then false
    else if r.width <= 0 || r.height <= 0 then true
    else false
  }

  /** rpi_fill: an empty fill counts as done; every other fill is declined, wherever it lies. */
  function RpiFill(fbAddr: nat, fbSize: nat, f: FillRequest): (ok: bool)
  {
    if f.width <= 0 || f.height <= 0 then true
    else false
  }

  /** rpi_blt succeeds exactly for empty blits whose two bases lie in the framebuffer. */
  lemma RpiBltAccepts(fbAddr: nat, fbSize: nat, r: BltRequest)
    ensures RpiBlt(fbAddr, fbSize, r) <==>
      InFramebuffer(fbAddr, fbSize, r.srcBits) && InFramebuffer(fbAddr, fbSize, r.dstBits) &&
      (r.width <= 0 || r.height <= 0)
  {
  }

  /** The residency check comes first: even an empty blit is declined when either base is outside. */
  lemma RpiBltEmptyOutsideDeclined(fbAddr: nat, fbSize: nat, r: BltRequest)
    requires r.width <= 0 || r.height <= 0
    requires !InFramebuffer(fbAddr, fbSize, r.srcBits) || !InFramebuffer(fbAddr, fbSize, r.dstBits)
    ensures !RpiBlt(fbAddr, fbSize, r)
  {
  }

  /** No non-empty blit is ever done by rpi_blt. */
  lemma RpiBltNeverCopies(fbAddr: nat, fbSize: nat, r: BltRequest)
    requires r.width > 0 && r.height > 0
    ensures !RpiBlt(fbAddr, fbSize, r)
  {
  }

  /** rpi_fill does not look at the framebuffer or the target: it succeeds exactly for empty fills. */
  lemma RpiFillAccepts(fbAddr: nat, fbSize: nat, f: FillRequest)
    ensures RpiFill(fbAddr, fbSize, f) <==> f.width <= 0 || f.height <= 0
  {
  }

  // ---------------------------------------------------------------------------
  // rpi_disp_init / rpi_disp_close

  /**
   * The framebuffer device: NULL means "/dev/fb0"; "/dev/fb0" and "/dev/fb1"
   * are framebuffers 0 and 1; any other name is refused.
   */
  function FbIdOf(device: Option<string>): (id: Option<int>)
    ensures id == Some(0) <==> device == None || device == Some("/dev/fb0")
    ensures id == Some(1) <==> device == Some("/dev/fb1")
    ensures id == None <==> device != None && device != Some("/dev/fb0") && device != Some("/dev/fb1")
  {
    var name := if device == None then "/dev/fb0" else device.value;
    if name == "/dev/fb0" then Some(0)
    else if name == "/dev/fb1" then Some(1)
    else None
  }

  /**
   * The size of the primary layer, `xres * yres * bits_per_pixel / 8`: the
   * product is taken in 32-bit unsigned arithmetic (bits_per_pixel is a
   * `__u32`), so it wraps before the division.
   */
  function GfxLayerSize(xres: nat, yres: nat, bitsPerPixel: nat): (size: nat)
    ensures size < U32
  {
    ((xres * yres * bitsPerPixel) % U32) / 8
  }

  /** When the product does not wrap, the layer fits exactly when the framebuffer holds all its bits. */
  lemma LayerCheckWithoutWrap(xres: nat, yres: nat, bitsPerPixel: nat, framebufferSize: nat)
    requires xres * yres * bitsPerPixel < U32
    ensures framebufferSize >= GfxLayerSize(xres, yres, bitsPerPixel) <==>
            framebufferSize * 8 + 7 >= xres * yres * bitsPerPixel
  {
    var p := xres * yres * bitsPerPixel;
    assert p % U32 == p;
    assert p / 8 * 8 <= p < p / 8 * 8 + 8;
  }

  /** What the two FBIOGET ioctls report. */
  datatype ScreenInfo = ScreenInfo(xres: nat, yres: nat, bitsPerPixel: nat, smemStart: nat, smemLen: nat)

  /** The I/O results rpi_disp_init depends on. */
  datatype DeviceIo = DeviceIo(openOk: bool, ioctlsOk: bool, info: ScreenInfo, mmapResult: Option<nat>)

  /** The state of the display back end (rpi_disp_t) after a successful init. */
  class RpiDisp {
    var fbId: int
    var xres: nat
    var yres: nat
    var bitsPerPixel: nat
    var framebufferPaddr: nat
    var framebufferSize: nat
    var gfxLayerSize: nat
    var framebufferAddr: nat
    /** The mapping done by the X server, 0 when there is none. */
    var xserverFbmem: nat
    var cursorEnabled: bool
    var cursorX: int
    var cursorY: int
    var blt2d: Table

    /** The remaining steps of rpi_disp_init once every check has passed. */
    constructor (fbId: int, xserverFbmem: nat, info: ScreenInfo, framebufferAddr: nat)
      ensures this.fbId == fbId && this.xserverFbmem == xserverFbmem
      ensures xres == info.xres && yres == info.yres && bitsPerPixel == info.bitsPerPixel
      ensures framebufferPaddr == info.smemStart && framebufferSize == info.smemLen
      ensures gfxLayerSize == GfxLayerSize(info.xres, info.yres, info.bitsPerPixel)
      ensures this.framebufferAddr == framebufferAddr
      ensures !cursorEnabled && cursorX == -1 && cursorY == -1
      ensures blt2d == Table(RpiBltEntry, None, Some(RpiFillEntry))
    {
      this.fbId := fbId;
      this.xserverFbmem := xserverFbmem;
      xres := info.xres;
      yres := info.yres;
      bitsPerPixel := info.bitsPerPixel;
      framebufferPaddr := info.smemStart;
      framebufferSize := info.smemLen;
      gfxLayerSize := GfxLayerSize(info.xres, info.yres, info.bitsPerPixel);
      this.framebufferAddr := framebufferAddr;
      cursorEnabled := false;
      cursorX := -1;
      cursorY := -1;
      blt2d := Table(RpiBltEntry, None, Some(RpiFillEntry));
    }

    /**
     * rpi_disp_close: unmap the framebuffer only when this back end mapped
     * it itself (no X server mapping was supplied); always returns 0.
     * The result names the mapping released, if any.
     */
    method Close() returns (ret: int, unmapped: Option<(nat, nat)>)
      ensures ret == 0
      ensures unmapped == (if xserverFbmem == 0 then Some((framebufferAddr, framebufferSize)) else None)
    {
      unmapped := None;
      if xserverFbmem == 0 {
        unmapped := Some((framebufferAddr, framebufferSize));
      }
      ret := 0;
    }
  }

  /** Whether rpi_disp_init succeeds, given the device name, the X server mapping and the I/O results. */
  predicate InitSucceeds(device: Option<string>, xserverFbmem: nat, io: DeviceIo)
  {
    FbIdOf(device) != None && io.openOk && io.ioctlsOk &&
    io.info.smemLen >= GfxLayerSize(io.info.xres, io.info.yres, io.info.bitsPerPixel) &&
    (xserverFbmem != 0 || io.mmapResult != None)
  }

  /**
   * rpi_disp_init: map the device name, open it, read the screen info,
   * check that the primary layer fits, and reuse the X server's mapping or
   * map the framebuffer; any failure gives NULL.
   */
  method RpiDispInit(device: Option<string>, xserverFbmem: nat, io: DeviceIo) returns (ctx: RpiDisp?)
    ensures ctx != null <==> InitSucceeds(device, xserverFbmem, io)
    ensures ctx != null ==>
      && fresh(ctx)
      && Some(ctx.fbId) == FbIdOf(device)
      && ctx.xres == io.info.xres && ctx.yres == io.info.yres && ctx.bitsPerPixel == io.info.bitsPerPixel
      && ctx.framebufferPaddr == io.info.smemStart && ctx.framebufferSize == io.info.smemLen
      && ctx.gfxLayerSize == GfxLayerSize(io.info.xres, io.info.yres, io.info.bitsPerPixel)
      && ctx.framebufferAddr == (if xserverFbmem != 0 then xserverFbmem else io.mmapResult.value)
      && ctx.xserverFbmem == xserverFbmem
      && !ctx.cursorEnabled && ctx.cursorX == -1 && ctx.cursorY == -1
      && ctx.blt2d == Table(RpiBltEntry, None, Some(RpiFillEntry))
  {
    var id := FbIdOf(device);
    if id == None {
      return null;
    }
    if !io.openOk || !io.ioctlsOk {
      return null;
    }
    var layer := GfxLayerSize(io.info.xres, io.info.yres, io.info.bitsPerPixel);
    if io.info.smemLen < layer {
      return null;
    }
    var addr: nat;
    if xserverFbmem != 0 {
      addr := xserverFbmem;
    } else {
      if io.mmapResult == None {
        return null;
      }
      addr := io.mmapResult.value;
    }
    ctx := new RpiDisp(id.value, xserverFbmem, io.info, addr);
  }
}
