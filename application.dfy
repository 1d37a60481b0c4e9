// The window defaults and the framebuffer sizing of
// src/application/application.cpp.  Floats are reals.

module Applications {

  /** The framebuffer edges `ComputeFramebufferSize` chooses from. */
  const Small := 1024
  const Medium := 2048
  const Large := 4096

  /** The framebuffer edge for a window whose longer side is `size`. */
  function FramebufferSizeFor(size: int): (r: int)
    ensures r == Small || r == Medium || r == Large
    ensures size <= Large ==> size <= r
  {
    if size <= Small then Small
    else if size <= Medium then Medium
    else Large
  }

  /** The smallest of the three edges that holds the window is chosen, and the largest when none does. */
  lemma FramebufferSizeIsSmallestFit(size: int, edge: int)
    requires edge == Small || edge == Medium || edge == Large
    requires size <= edge
    ensures FramebufferSizeFor(size) <= edge
  {
  }

  /** A larger window never gets a smaller framebuffer. */
  lemma FramebufferSizeMonotone(a: int, b: int)
    requires a <= b
    ensures FramebufferSizeFor(a) <= FramebufferSizeFor(b)
  {
  }

  function Max(a: int, b: int): int
  {
    if a < b then b else a
  }

  class Application {
    var width: int
    var height: int
    var aspectRatio: real
    var colorBits: nat
    var depthBits: nat
    var stencilBits: nat
    var needTakeScreenshot: bool
    var framebufferSize: int
    var invFramebufferSize: real

    /** The defaults: an 800 by 600 window with 32 colour, 24 depth and no stencil bits. */
    constructor ()
      ensures width == 800 && height == 600 && aspectRatio == 1.0
      ensures colorBits == 32 && depthBits == 24 && stencilBits == 0
      ensures !needTakeScreenshot && framebufferSize == 0 && invFramebufferSize == 0.0
    {
      width, height, aspectRatio := 800, 600, 1.0;
      colorBits, depthBits, stencilBits := 32, 24, 0;
      needTakeScreenshot := false;
      framebufferSize, invFramebufferSize := 0, 0.0;
    }

    /** `ComputeFramebufferSize`: the edge for the longer window side, and its inverse for the shaders. */
    method ComputeFramebufferSize()
      modifies this
      ensures framebufferSize == FramebufferSizeFor(Max(width, height))
      ensures invFramebufferSize * framebufferSize as real == 1.0
      ensures width == old(width) && height == old(height) && aspectRatio == old(aspectRatio)
      ensures colorBits == old(colorBits) && depthBits == old(depthBits) && stencilBits == old(stencilBits)
      ensures needTakeScreenshot == old(needTakeScreenshot)
    {
      var size := Max(width, height);
      if size <= Small {
        framebufferSize := Small;
      } else if size <= Medium {
        framebufferSize := Medium;
      } else {
        framebufferSize := Large;
      }
      invFramebufferSize := 1.0 / framebufferSize as real;
    }

    /** `GetDesiredFrameRate`. */
    function DesiredFrameRate(): (r: real)
      ensures r > 0.0
    {
      60.0
    }

    /** `GetFrameTime`: one frame at the desired rate. */
    function FrameTime(): (r: real)
      ensures r * DesiredFrameRate() == 1.0
    {
      1.0 / DesiredFrameRate()
    }
  }

  /** The default window gets the smallest framebuffer. */
  method ApplicationScenario()
  {
    var app := new Application();
    app.ComputeFramebufferSize();
    assert app.framebufferSize == 1024;
    app.width := 1920;
    app.height := 1080;
    app.ComputeFramebufferSize();
    assert app.framebufferSize == 2048;
  }
}
