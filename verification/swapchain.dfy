/** Swapchain parameters: surface format, present mode, extent, image count and
    sharing mode, as chosen on creation and on resize. */
module Swapchain {
  import opened Wrappers
  import opened Bits
  import opened VkTypes

  /** The pair the program prefers. */
  const PREFERRED_FORMAT := SurfaceFormat(FORMAT_B8G8R8A8_UNORM, COLOR_SPACE_SRGB_NONLINEAR)

  datatype SwapchainError =
    | NoSurfaceFormat    // `formats[0]` on an empty list
    | ImageCountOverflow // `min_image_count + 1` past `u32::MAX`

  /** The first format of the list equal to `f`, as `Iterator::find` returns it. */
  function FindFormat(formats: seq<SurfaceFormat>, f: SurfaceFormat): (r: Option<SurfaceFormat>)
    ensures r.Some? <==> f in formats
    ensures r.Some? ==> r.value == f
  {
    if |formats| == 0 then None
    else if formats[0] == f then Some(f)
    else
      assert forall x :: x in formats <==> x == formats[0] || x in formats[1..];
      FindFormat(formats[1..], f)
  }

  /** A single UNDEFINED entry means the surface accepts anything, and the
      preferred pair is used; otherwise the preferred pair if offered, else the
      first offered format. */
  function ChooseSurfaceFormat(formats: seq<SurfaceFormat>): (r: Result<SurfaceFormat, SwapchainError>)
    ensures r.Failure? <==> |formats| == 0
    ensures r.Failure? ==> r.error == NoSurfaceFormat
    ensures r.Success? ==> r.value in formats || r.value == PREFERRED_FORMAT
  {
    if |formats| == 1 && formats[0].format == FORMAT_UNDEFINED then Success(PREFERRED_FORMAT)
    else if |formats| == 0 then Failure(NoSurfaceFormat)
    else Success(FindFormat(formats, PREFERRED_FORMAT).GetOr(formats[0]))
  }

  /** The preferred pair is chosen exactly when it is offered or the surface
      leaves the choice open; any other choice is the first entry. */
  lemma SurfaceFormatChoice(formats: seq<SurfaceFormat>)
    requires |formats| > 0
    ensures var r := ChooseSurfaceFormat(formats).value;
      && (r == PREFERRED_FORMAT
          <==> PREFERRED_FORMAT in formats || (|formats| == 1 && formats[0].format == FORMAT_UNDEFINED))
      && (r != PREFERRED_FORMAT ==> r == formats[0])
  {
  }

  function ContainsMode(modes: seq<nat>, m: nat): (r: bool)
    ensures r <==> m in modes
  {
    if |modes| == 0 then false
    else
      assert forall x :: x in modes <==> x == modes[0] || x in modes[1..];
      modes[0] == m || ContainsMode(modes[1..], m)
  }

  /** Immediate presentation when the surface offers it, FIFO (which every surface
      supports) otherwise. */
  function ChoosePresentMode(modes: seq<nat>): (r: nat)
    ensures r == PRESENT_MODE_IMMEDIATE || r == PRESENT_MODE_FIFO
    ensures r == PRESENT_MODE_IMMEDIATE <==> PRESENT_MODE_IMMEDIATE in modes
  {
    if ContainsMode(modes, PRESENT_MODE_IMMEDIATE) then PRESENT_MODE_IMMEDIATE else PRESENT_MODE_FIFO
  }

  /** The fields of `VkSurfaceCapabilitiesKHR` the swapchain reads. */
  datatype SurfaceCapabilities = SurfaceCapabilities(
    minImageCount: nat,
    currentExtent: Extent2D,
    minImageExtent: Extent2D,
    maxImageExtent: Extent2D)

  function Min(a: nat, b: nat): nat { if a <= b then a else b }
  function Max(a: nat, b: nat): nat { if a >= b then a else b }

  /** `req.min(max).max(min)`. */
  function Clamp(req: nat, lo: nat, hi: nat): (r: nat)
    ensures lo <= hi ==> lo <= r <= hi
    ensures lo <= hi && lo <= req <= hi ==> r == req
    ensures hi < lo ==> r == lo
    ensures r == req || r == lo || r == hi
  {
    Max(Min(req, hi), lo)
  }

  /** A current extent whose width is the special value `0xFFFFFFFF` means the
      surface size is set by the swapchain; the window size, clamped to the
      surface limits, is used then. Otherwise the swapchain must match the
      surface. */
  function ChooseExtent(caps: SurfaceCapabilities, width: nat, height: nat): (r: Extent2D)
    ensures caps.currentExtent.width != U32_MAX ==> r == caps.currentExtent
    ensures caps.currentExtent.width == U32_MAX ==>
      && r.width == Clamp(width, caps.minImageExtent.width, caps.maxImageExtent.width)
      && r.height == Clamp(height, caps.minImageExtent.height, caps.maxImageExtent.height)
  {
    if caps.currentExtent.width != U32_MAX then caps.currentExtent
    else
      Extent2D(Max(Min(width, caps.maxImageExtent.width), caps.minImageExtent.width),
               Max(Min(height, caps.maxImageExtent.height), caps.minImageExtent.height))
  }

  /** With a free extent and consistent limits, the extent is within the limits
      and equals the window size when that fits. */
  lemma ExtentWithinLimits(caps: SurfaceCapabilities, width: nat, height: nat)
    requires caps.currentExtent.width == U32_MAX
    requires caps.minImageExtent.width <= caps.maxImageExtent.width
    requires caps.minImageExtent.height <= caps.maxImageExtent.height
    ensures var e := ChooseExtent(caps, width, height);
      && caps.minImageExtent.width <= e.width <= caps.maxImageExtent.width
      && caps.minImageExtent.height <= e.height <= caps.maxImageExtent.height
      && (caps.minImageExtent.width <= width <= caps.maxImageExtent.width ==> e.width == width)
      && (caps.minImageExtent.height <= height <= caps.maxImageExtent.height ==> e.height == height)
  {
  }

  datatype SharingMode = Exclusive | Concurrent(queueFamilyIndices: seq<nat>)

  /** Images are shared between the two families only when they differ. */
  function ChooseSharingMode(graphicsIndex: nat, presentIndex: nat): (r: SharingMode)
    ensures r.Exclusive? <==> graphicsIndex == presentIndex
    ensures r.Concurrent? ==> r.queueFamilyIndices == [graphicsIndex, presentIndex]
  {
    if graphicsIndex != presentIndex then Concurrent([graphicsIndex, presentIndex]) else Exclusive
  }

  /** `VkSwapchainCreateInfoKHR`, the parts chosen by the program. */
  datatype CreateInfo = CreateInfo(
    minImageCount: nat,
    imageFormat: nat,
    imageColorSpace: nat,
    imageExtent: Extent2D,
    sharing: SharingMode,
    presentMode: nat)

  /** The swapchain state; `handle`, `images` and `views` stand for the objects the
      driver hands back. */
  datatype Swapchain = Swapchain(
    handle: nat,
    extent: Extent2D,
    format: nat,
    colorSpace: nat,
    presentMode: nat,
    images: seq<nat>,
    views: seq<nat>)

  /** The creation parameters of `Swapchain::new`; the image count is one more than
      the minimum, an addition that overflows at `u32::MAX`. */
  function NewCreateInfo(formats: seq<SurfaceFormat>, modes: seq<nat>, caps: SurfaceCapabilities,
                         width: nat, height: nat, graphicsIndex: nat, presentIndex: nat)
    : (r: Result<CreateInfo, SwapchainError>)
    requires IsU32(caps.minImageCount)
    ensures r.Success? <==> |formats| > 0 && caps.minImageCount < U32_MAX
    ensures r.Success? ==>
      && r.value.minImageCount == caps.minImageCount + 1
      && SurfaceFormat(r.value.imageFormat, r.value.imageColorSpace) == ChooseSurfaceFormat(formats).value
      && r.value.imageExtent == ChooseExtent(caps, width, height)
      && r.value.presentMode == ChoosePresentMode(modes)
      && r.value.sharing == ChooseSharingMode(graphicsIndex, presentIndex)
  {
    var format :- ChooseSurfaceFormat(formats);
    var presentMode := ChoosePresentMode(modes);
    var extent := ChooseExtent(caps, width, height);
    var imageCount :- CheckedAdd(caps.minImageCount, 1).ToResult(ImageCountOverflow);
    Success(CreateInfo(imageCount, format.format, format.colorSpace, extent,
                       ChooseSharingMode(graphicsIndex, presentIndex), presentMode))
  }

  /** `Swapchain::new`: one view per image the driver returns. */
  function NewSwapchain(formats: seq<SurfaceFormat>, modes: seq<nat>, caps: SurfaceCapabilities,
                        width: nat, height: nat, graphicsIndex: nat, presentIndex: nat,
                        handle: nat, images: seq<nat>, views: seq<nat>)
    : (r: Result<Swapchain, SwapchainError>)
    requires IsU32(caps.minImageCount)
    requires |views| == |images|
    ensures r.Success? <==> |formats| > 0 && caps.minImageCount < U32_MAX
    ensures r.Success? ==>
      var info := NewCreateInfo(formats, modes, caps, width, height, graphicsIndex, presentIndex).value;
      && r.value.format == info.imageFormat && r.value.colorSpace == info.imageColorSpace
      && r.value.presentMode == info.presentMode && r.value.extent == info.imageExtent
      && r.value.images == images && |r.value.views| == |r.value.images|
  {
    var info :- NewCreateInfo(formats, modes, caps, width, height, graphicsIndex, presentIndex);
    Success(Swapchain(handle, info.imageExtent, info.imageFormat, info.imageColorSpace,
                      info.presentMode, images, views))
  }

  /** The creation parameters of `Swapchain::resize`: the stored format, colour
      space and present mode, a fresh extent, and the minimum image count. */
  function ResizeCreateInfo(sc: Swapchain, caps: SurfaceCapabilities, width: nat, height: nat,
                            graphicsIndex: nat, presentIndex: nat): (r: CreateInfo)
    ensures r.minImageCount == caps.minImageCount
    ensures r.imageFormat == sc.format && r.imageColorSpace == sc.colorSpace
    ensures r.presentMode == sc.presentMode
    ensures r.imageExtent == ChooseExtent(caps, width, height)
    ensures r.sharing == ChooseSharingMode(graphicsIndex, presentIndex)
  {
    CreateInfo(caps.minImageCount, sc.format, sc.colorSpace, ChooseExtent(caps, width, height),
               ChooseSharingMode(graphicsIndex, presentIndex), sc.presentMode)
  }

  /** `Swapchain::resize`: only the handle, the extent, the images and the views
      are replaced. */
  function Resize(sc: Swapchain, caps: SurfaceCapabilities, width: nat, height: nat,
                  handle: nat, images: seq<nat>, views: seq<nat>): (r: Swapchain)
    requires |views| == |images|
    ensures r.format == sc.format && r.colorSpace == sc.colorSpace && r.presentMode == sc.presentMode
    ensures r.extent == ChooseExtent(caps, width, height)
    ensures r == sc.(handle := r.handle, extent := r.extent, images := r.images, views := r.views)
    ensures |r.views| == |r.images|
  {
    Swapchain(handle, ChooseExtent(caps, width, height), sc.format, sc.colorSpace, sc.presentMode,
              images, views)
  }

  /** However often the window is resized, the swapchain keeps the format, colour
      space and present mode chosen on creation. */
  lemma ResizeTwiceKeepsChoices(sc: Swapchain, c1: SurfaceCapabilities, c2: SurfaceCapabilities,
                                w1: nat, h1: nat, w2: nat, h2: nat, i1: seq<nat>, i2: seq<nat>)
    ensures var r := Resize(Resize(sc, c1, w1, h1, 1, i1, i1), c2, w2, h2, 2, i2, i2);
      && r.format == sc.format && r.colorSpace == sc.colorSpace && r.presentMode == sc.presentMode
      && r.extent == ChooseExtent(c2, w2, h2)
  {
  }
}
