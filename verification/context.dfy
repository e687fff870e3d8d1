/** Context creation: the builder's settings and the choice of a physical device
    with a graphics queue family and a present queue family. */
module Context {
  import opened Wrappers
  import opened Queue
  import opened Device
  import opened PhysicalDevices
  import opened Instance
  import opened Version

  datatype ContextBuilder = ContextBuilder(
    vulkanVersion: Version,
    appName: string,
    requiredExtensions: seq<string>,
    requiredDeviceFeatures: DeviceFeatures,
    withRaytracingContext: bool)

  /** `ContextBuilder::new`: Vulkan 1.2, no name, no extensions, no features, no
      ray tracing context. */
  function NewBuilder(): (r: ContextBuilder)
    ensures r.vulkanVersion == FromMajorMinor(1, 2) && r.appName == []
    ensures r.requiredExtensions == [] && r.requiredDeviceFeatures == DEFAULT_FEATURES
    ensures !r.withRaytracingContext
  {
    ContextBuilder(VERSION_1_2, "", [], DEFAULT_FEATURES, false)
  }

  function SetVulkanVersion(b: ContextBuilder, v: Version): (r: ContextBuilder)
    ensures r.vulkanVersion == v
    ensures r.(vulkanVersion := b.vulkanVersion) == b
  {
    b.(vulkanVersion := v)
  }

  function SetAppName(b: ContextBuilder, name: string): (r: ContextBuilder)
    ensures r.appName == name
    ensures r.(appName := b.appName) == b
  {
    b.(appName := name)
  }

  function SetRequiredExtensions(b: ContextBuilder, exts: seq<string>): (r: ContextBuilder)
    ensures r.requiredExtensions == exts
    ensures r.(requiredExtensions := b.requiredExtensions) == b
  {
    b.(requiredExtensions := exts)
  }

  function SetRequiredDeviceFeatures(b: ContextBuilder, f: DeviceFeatures): (r: ContextBuilder)
    ensures r.requiredDeviceFeatures == f
    ensures r.(requiredDeviceFeatures := b.requiredDeviceFeatures) == b
  {
    b.(requiredDeviceFeatures := f)
  }

  function SetWithRaytracingContext(b: ContextBuilder, on: bool): (r: ContextBuilder)
    ensures r.withRaytracingContext == on
    ensures r.(withRaytracingContext := b.withRaytracingContext) == b
  {
    b.(withRaytracingContext := on)
  }

  /** Setters of different fields commute, and the last call of a setter wins. */
  lemma SettersCommute(b: ContextBuilder, v: Version, name: string, name2: string, on: bool)
    ensures SetAppName(SetVulkanVersion(b, v), name) == SetVulkanVersion(SetAppName(b, name), v)
    ensures SetWithRaytracingContext(SetAppName(b, name), on)
         == SetAppName(SetWithRaytracingContext(b, on), name)
    ensures SetAppName(SetAppName(b, name), name2) == SetAppName(b, name2)
  {
  }

  // ---------------------------------------------------------------------------
  // Queue families

  /** A family the graphics queue may come from. */
  predicate IsGraphicsFamily(f: QueueFamily) {
    f.HasQueues() && f.SupportsGraphics() && f.SupportsCompute() && f.SupportsTimestampQueries()
  }

  /** A family the present queue may come from. */
  predicate IsPresentFamily(f: QueueFamily) {
    f.HasQueues() && f.SupportsPresent()
  }

  /** The first family of the list satisfying the graphics condition. */
  function FirstGraphics(fams: seq<QueueFamily>): (r: Option<QueueFamily>)
    ensures r.None? <==> forall i :: 0 <= i < |fams| ==> !IsGraphicsFamily(fams[i])
    ensures r.Some? ==>
      exists i ::
        && 0 <= i < |fams| && fams[i] == r.value && IsGraphicsFamily(fams[i])
        && forall j :: 0 <= j < i ==> !IsGraphicsFamily(fams[j])
  {
    if |fams| == 0 then None
    else if IsGraphicsFamily(fams[0]) then Some(fams[0])
    else
      var r := FirstGraphics(fams[1..]);
      assert forall i :: 0 < i < |fams| ==> fams[i] == fams[1..][i - 1];
      if r.Some? then
        var i :| 0 <= i < |fams[1..]| && fams[1..][i] == r.value && IsGraphicsFamily(fams[1..][i])
          && forall j :: 0 <= j < i ==> !IsGraphicsFamily(fams[1..][j]);
        assert fams[i + 1] == r.value;
        r
      else r
  }

  /** The first family of the list satisfying the present condition. */
  function FirstPresent(fams: seq<QueueFamily>): (r: Option<QueueFamily>)
    ensures r.None? <==> forall i :: 0 <= i < |fams| ==> !IsPresentFamily(fams[i])
    ensures r.Some? ==>
      exists i ::
        && 0 <= i < |fams| && fams[i] == r.value && IsPresentFamily(fams[i])
        && forall j :: 0 <= j < i ==> !IsPresentFamily(fams[j])
  {
    if |fams| == 0 then None
    else if IsPresentFamily(fams[0]) then Some(fams[0])
    else
      var r := FirstPresent(fams[1..]);
      assert forall i :: 0 < i < |fams| ==> fams[i] == fams[1..][i - 1];
      if r.Some? then
        var i :| 0 <= i < |fams[1..]| && fams[1..][i] == r.value && IsPresentFamily(fams[1..][i])
          && forall j :: 0 <= j < i ==> !IsPresentFamily(fams[1..][j]);
        assert fams[i + 1] == r.value;
        r
      else r
  }

  function OrElse(o: Option<QueueFamily>, other: Option<QueueFamily>): Option<QueueFamily> {
    if o.Some? then o else other
  }

  /** The family loop of one candidate device: families without queues are
      skipped; a family fills the graphics and the present slot if it qualifies
      and the slot is still empty; the loop stops once both slots are filled. */
  function ScanFamilies(fams: seq<QueueFamily>, graphics: Option<QueueFamily>, present: Option<QueueFamily>)
    : (Option<QueueFamily>, Option<QueueFamily>)
  {
    if |fams| == 0 then (graphics, present)
    else if !fams[0].HasQueues() then ScanFamilies(fams[1..], graphics, present)
    else
      var f := fams[0];
      var g := if f.SupportsGraphics() && f.SupportsCompute() && f.SupportsTimestampQueries() && graphics.None?
               then Some(f) else graphics;
      var p := if f.SupportsPresent() && present.None? then Some(f) else present;
      if g.Some? && p.Some? then (g, p) else ScanFamilies(fams[1..], g, p)
  }

  /** The loop keeps a slot that is already filled and otherwise fills it with the
      first qualifying family: stopping early never loses a first match. */
  lemma {:induction false} ScanFindsFirst(fams: seq<QueueFamily>, graphics: Option<QueueFamily>, present: Option<QueueFamily>)
    ensures ScanFamilies(fams, graphics, present)
         == (OrElse(graphics, FirstGraphics(fams)), OrElse(present, FirstPresent(fams)))
    decreases |fams|
  {
    if |fams| > 0 {
      var f := fams[0];
      if !f.HasQueues() {
        ScanFindsFirst(fams[1..], graphics, present);
      } else {
        var g := if IsGraphicsFamily(f) && graphics.None? then Some(f) else graphics;
        var p := if IsPresentFamily(f) && present.None? then Some(f) else present;
        if !(g.Some? && p.Some?) {
          ScanFindsFirst(fams[1..], g, p);
        }
      }
    }
  }

  /** The conditions on the device itself. */
  predicate MeetsRequirements(d: PhysicalDevice, extensions: seq<string>, features: DeviceFeatures) {
    && SupportsExtensions(d, extensions)
    && |d.supportedSurfaceFormats| > 0
    && |d.supportedPresentModes| > 0
    && d.supportedDeviceFeatures.IsCompatibleWith(features)
  }

  /** A device that qualifies on its own: it has a graphics family and a present
      family and meets the requirements. */
  predicate Suitable(d: PhysicalDevice, extensions: seq<string>, features: DeviceFeatures) {
    && FirstGraphics(d.queueFamilies).Some?
    && FirstPresent(d.queueFamilies).Some?
    && MeetsRequirements(d, extensions, features)
  }

  type Selection = (PhysicalDevice, QueueFamily, QueueFamily)

  const NO_SUITABLE_DEVICE := "Could not find a suitable device"

  // ---------------------------------------------------------------------------
  // Selection as written: the two slots live outside the search closure.

  function FindFrom(devices: seq<PhysicalDevice>, i: nat, extensions: seq<string>, features: DeviceFeatures,
                    graphics: Option<QueueFamily>, present: Option<QueueFamily>)
    : (r: Result<Selection, string>)
    requires i <= |devices|
    ensures r.Failure? ==> r.error == NO_SUITABLE_DEVICE
    ensures r.Success? ==> exists j ::
      i <= j < |devices| && r.value.0 == devices[j] && MeetsRequirements(devices[j], extensions, features)
    decreases |devices| - i
  {
    if i == |devices| then Failure(NO_SUITABLE_DEVICE)
    else
      var (g, p) := ScanFamilies(devices[i].queueFamilies, graphics, present);
      if g.Some? && p.Some? && MeetsRequirements(devices[i], extensions, features)
      then Success((devices[i], g.value, p.value))
      else FindFrom(devices, i + 1, extensions, features, g, p)
  }

  /** `select_suitable_physical_device` as the source has it. The chosen device
      meets the requirements and the families qualify, but they may have been
      recorded while scanning an earlier, rejected device. */
  function SelectSuitablePhysicalDevice(devices: seq<PhysicalDevice>, extensions: seq<string>, features: DeviceFeatures)
    : (r: Result<Selection, string>)
    ensures r.Failure? ==> r.error == NO_SUITABLE_DEVICE
    ensures r.Success? ==>
      && r.value.0 in devices
      && MeetsRequirements(r.value.0, extensions, features)
      && IsGraphicsFamily(r.value.1) && IsPresentFamily(r.value.2)
    ensures (exists j :: 0 <= j < |devices| && Suitable(devices[j], extensions, features)) ==> r.Success?
  {
    FindFromSound(devices, 0, extensions, features, None, None);
    SuitableDeviceIsFound(devices, extensions, features);
    FindFrom(devices, 0, extensions, features, None, None)
  }

  lemma SuitableDeviceIsFound(devices: seq<PhysicalDevice>, extensions: seq<string>, features: DeviceFeatures)
    ensures (exists j :: 0 <= j < |devices| && Suitable(devices[j], extensions, features))
        ==> FindFrom(devices, 0, extensions, features, None, None).Success?
  {
    if exists j :: 0 <= j < |devices| && Suitable(devices[j], extensions, features) {
      var j :| 0 <= j < |devices| && Suitable(devices[j], extensions, features);
      FindFromComplete(devices, 0, j, extensions, features, None, None);
    }
  }

  lemma {:induction false} FindFromSound(devices: seq<PhysicalDevice>, i: nat, extensions: seq<string>,
                                         features: DeviceFeatures, graphics: Option<QueueFamily>,
                                         present: Option<QueueFamily>)
    requires i <= |devices|
    requires graphics.Some? ==> IsGraphicsFamily(graphics.value)
    requires present.Some? ==> IsPresentFamily(present.value)
    ensures var r := FindFrom(devices, i, extensions, features, graphics, present);
      && (r.Failure? ==> r.error == NO_SUITABLE_DEVICE)
      && (r.Success? ==>
        && r.value.0 in devices[i..]
        && MeetsRequirements(r.value.0, extensions, features)
        && IsGraphicsFamily(r.value.1) && IsPresentFamily(r.value.2))
    decreases |devices| - i
  {
    if i < |devices| {
      ScanFindsFirst(devices[i].queueFamilies, graphics, present);
      var (g, p) := ScanFamilies(devices[i].queueFamilies, graphics, present);
      FindFromSound(devices, i + 1, extensions, features, g, p);
      assert devices[i] == devices[i..][0];
      assert devices[i + 1..] == devices[i..][1..];
    }
  }

  lemma {:induction false} FindFromComplete(devices: seq<PhysicalDevice>, i: nat, j: nat, extensions: seq<string>,
                                            features: DeviceFeatures, graphics: Option<QueueFamily>,
                                            present: Option<QueueFamily>)
    requires i <= j < |devices|
    requires Suitable(devices[j], extensions, features)
    ensures FindFrom(devices, i, extensions, features, graphics, present).Success?
    decreases j - i
  {
    ScanFindsFirst(devices[i].queueFamilies, graphics, present);
    if i < j {
      var (g, p) := ScanFamilies(devices[i].queueFamilies, graphics, present);
      FindFromComplete(devices, i + 1, j, extensions, features, g, p);
    }
  }

  // ---------------------------------------------------------------------------
  // Counterexample to the as-written selection.

  const GRAPHICS_ONLY := QueueFamily(0, QueueFamilyProperties(3, 1, 64), false)
  const PRESENT_ONLY := QueueFamily(0, QueueFamilyProperties(0, 1, 0), true)

  /** A device whose only family can run graphics and compute work but cannot
      present; it is rejected. */
  const DEVICE_A := PhysicalDevice("A", 2, [GRAPHICS_ONLY], [], [SurfaceFormatOf(44)], [2], DEFAULT_FEATURES)
  /** A device whose only family can present but has no graphics capability. */
  const DEVICE_B := PhysicalDevice("B", 2, [PRESENT_ONLY], [], [SurfaceFormatOf(44)], [2], DEFAULT_FEATURES)

  function SurfaceFormatOf(format: nat): VkTypes.SurfaceFormat {
    VkTypes.SurfaceFormat(format, 0)
  }

  /** As written, the selection returns device B together with device A's family
      as its graphics family, although B has no graphics-capable family and no
      device is suitable on its own. */
  lemma CarryOverSelectsForeignFamily()
    ensures !Suitable(DEVICE_A, [], DEFAULT_FEATURES) && !Suitable(DEVICE_B, [], DEFAULT_FEATURES)
    ensures SelectSuitablePhysicalDevice([DEVICE_A, DEVICE_B], [], DEFAULT_FEATURES)
         == Success((DEVICE_B, GRAPHICS_ONLY, PRESENT_ONLY))
    ensures GRAPHICS_ONLY !in DEVICE_B.queueFamilies
  {
    assert Bits.Pow2(0) == 1 && Bits.Pow2(1) == 2;
    Bits.ContainsBit(3, 0);
    Bits.ContainsBit(3, 1);
    Bits.ContainsBit(0, 0);
    assert IsGraphicsFamily(GRAPHICS_ONLY);
    assert !IsPresentFamily(GRAPHICS_ONLY);
    assert !IsGraphicsFamily(PRESENT_ONLY);
    assert IsPresentFamily(PRESENT_ONLY);
    assert [GRAPHICS_ONLY][1..] == [];
    assert [PRESENT_ONLY][1..] == [];
    assert FirstPresent(DEVICE_A.queueFamilies) == None;
    assert FirstGraphics(DEVICE_B.queueFamilies) == None;
    var ds := [DEVICE_A, DEVICE_B];
    assert ScanFamilies(DEVICE_A.queueFamilies, None, None) == (Some(GRAPHICS_ONLY), None);
    assert ScanFamilies(DEVICE_B.queueFamilies, Some(GRAPHICS_ONLY), None) == (Some(GRAPHICS_ONLY), Some(PRESENT_ONLY));
    assert MeetsRequirements(DEVICE_B, [], DEFAULT_FEATURES);
    assert FindFrom(ds, 1, [], DEFAULT_FEATURES, Some(GRAPHICS_ONLY), None)
        == Success((DEVICE_B, GRAPHICS_ONLY, PRESENT_ONLY));
    assert FindFrom(ds, 0, [], DEFAULT_FEATURES, None, None)
        == FindFrom(ds, 1, [], DEFAULT_FEATURES, Some(GRAPHICS_ONLY), None);
  }

  // ---------------------------------------------------------------------------
  // Selection with the slots reset for every candidate device.

  function FirstSuitableFrom(devices: seq<PhysicalDevice>, i: nat, extensions: seq<string>, features: DeviceFeatures)
    : (r: Result<Selection, string>)
    requires i <= |devices|
    decreases |devices| - i
  {
    if i == |devices| then Failure(NO_SUITABLE_DEVICE)
    else
      var (g, p) := ScanFamilies(devices[i].queueFamilies, None, None);
      if g.Some? && p.Some? && MeetsRequirements(devices[i], extensions, features)
      then Success((devices[i], g.value, p.value))
      else FirstSuitableFrom(devices, i + 1, extensions, features)
  }

  /** The selection the code evidently intends: the first device in list order that
      is suitable on its own, with its own first graphics family and its own first
      present family. */
  function SelectSuitablePhysicalDeviceFixed(devices: seq<PhysicalDevice>, extensions: seq<string>, features: DeviceFeatures)
    : (r: Result<Selection, string>)
    ensures r.Failure? <==> forall j :: 0 <= j < |devices| ==> !Suitable(devices[j], extensions, features)
    ensures r.Failure? ==> r.error == NO_SUITABLE_DEVICE
    ensures r.Success? ==>
      exists j ::
        && 0 <= j < |devices|
        && (forall k :: 0 <= k < j ==> !Suitable(devices[k], extensions, features))
        && Suitable(devices[j], extensions, features)
        && r.value == (devices[j], FirstGraphics(devices[j].queueFamilies).value,
                       FirstPresent(devices[j].queueFamilies).value)
  {
    FirstSuitableCorrect(devices, 0, extensions, features);
    FirstSuitableFrom(devices, 0, extensions, features)
  }

  lemma {:induction false} FirstSuitableCorrect(devices: seq<PhysicalDevice>, i: nat, extensions: seq<string>,
                                                features: DeviceFeatures)
    requires i <= |devices|
    ensures var r := FirstSuitableFrom(devices, i, extensions, features);
      && (r.Failure? <==> forall j :: i <= j < |devices| ==> !Suitable(devices[j], extensions, features))
      && (r.Failure? ==> r.error == NO_SUITABLE_DEVICE)
      && (r.Success? ==>
        exists j ::
          && i <= j < |devices|
          && (forall k :: i <= k < j ==> !Suitable(devices[k], extensions, features))
          && Suitable(devices[j], extensions, features)
          && r.value == (devices[j], FirstGraphics(devices[j].queueFamilies).value,
                         FirstPresent(devices[j].queueFamilies).value))
    decreases |devices| - i
  {
    if i < |devices| {
      var d := devices[i];
      ScanFindsFirst(d.queueFamilies, None, None);
      if Suitable(d, extensions, features) {
        var sel := (d, FirstGraphics(d.queueFamilies).value, FirstPresent(d.queueFamilies).value);
        assert FirstSuitableFrom(devices, i, extensions, features) == Success(sel);
      } else {
        var r := FirstSuitableFrom(devices, i + 1, extensions, features);
        assert FirstSuitableFrom(devices, i, extensions, features) == r;
        FirstSuitableCorrect(devices, i + 1, extensions, features);
        assert (forall j :: i <= j < |devices| ==> !Suitable(devices[j], extensions, features))
           <==> (forall j :: i + 1 <= j < |devices| ==> !Suitable(devices[j], extensions, features));
        if r.Success? {
          var j :| && i + 1 <= j < |devices|
                   && (forall k :: i + 1 <= k < j ==> !Suitable(devices[k], extensions, features))
                   && Suitable(devices[j], extensions, features)
                   && r.value == (devices[j], FirstGraphics(devices[j].queueFamilies).value,
                                  FirstPresent(devices[j].queueFamilies).value);
          assert forall k :: i <= k < j ==> !Suitable(devices[k], extensions, features);
        }
      }
    }
  }

  /** Both chosen families belong to the chosen device, have queues, and are the
      first qualifying ones of its list. */
  lemma FixedFamiliesBelongToDevice(devices: seq<PhysicalDevice>, extensions: seq<string>, features: DeviceFeatures)
    ensures var r := SelectSuitablePhysicalDeviceFixed(devices, extensions, features);
      r.Success? ==>
      var (d, g, p) := r.value;
      && d in devices
      && g in d.queueFamilies && IsGraphicsFamily(g) && g.HasQueues()
      && p in d.queueFamilies && IsPresentFamily(p) && p.HasQueues()
  {
  }

  // ---------------------------------------------------------------------------
  // Context creation

  /** What context creation decides before talking to the driver again. */
  datatype ContextInfo = ContextInfo(
    physicalDevice: PhysicalDevice,
    graphicsQueueFamily: QueueFamily,
    presentQueueFamily: QueueFamily,
    queueCreateIndices: seq<nat>,
    rayTracing: bool,
    bufferDeviceAddress: bool)

  /** `Context::new` from the device list on: enumerate (or reuse the cache),
      select a device, and create the device with the graphics and the present
      family, in that order. */
  function ContextNew(b: ContextBuilder, cache: seq<PhysicalDevice>, enumerated: Result<seq<PhysicalDevice>, string>)
    : (r: Result<ContextInfo, string>)
    ensures r.Success? ==>
      && r.value.queueCreateIndices
         == (if r.value.graphicsQueueFamily.index == r.value.presentQueueFamily.index
             then [r.value.graphicsQueueFamily.index]
             else [r.value.graphicsQueueFamily.index, r.value.presentQueueFamily.index])
      && MeetsRequirements(r.value.physicalDevice, b.requiredExtensions, b.requiredDeviceFeatures)
      && r.value.graphicsQueueFamily in r.value.physicalDevice.queueFamilies
      && r.value.presentQueueFamily in r.value.physicalDevice.queueFamilies
      && r.value.rayTracing == b.withRaytracingContext
    ensures |cache| > 0 ==>
      (r.Success? <==> exists j :: 0 <= j < |cache| && Suitable(cache[j], b.requiredExtensions, b.requiredDeviceFeatures))
    ensures |cache| == 0 ==>
      (r.Success? <==> (
        && enumerated.Success?
        && exists d :: d in enumerated.value && Suitable(d, b.requiredExtensions, b.requiredDeviceFeatures)))
  {
    var devices :- EnumeratePhysicalDevices(cache, enumerated);
    EnumeratedSuitable(cache, enumerated, b.requiredExtensions, b.requiredDeviceFeatures);
    var sel := SelectSuitablePhysicalDeviceFixed(devices, b.requiredExtensions, b.requiredDeviceFeatures);
    FixedFamiliesBelongToDevice(devices, b.requiredExtensions, b.requiredDeviceFeatures);
    var (d, g, p) :- sel;
    GraphicsPresentQueues(g, p);
    Success(ContextInfo(d, g, p, QueueCreateIndices([g, p]), b.withRaytracingContext,
                        b.requiredDeviceFeatures.bufferDeviceAddress))
  }

  /** With an empty cache, the listed devices hold a suitable one exactly
      when the driver reported one. */
  lemma EnumeratedSuitable(cache: seq<PhysicalDevice>, enumerated: Result<seq<PhysicalDevice>, string>,
                           extensions: seq<string>, features: DeviceFeatures)
    requires EnumeratePhysicalDevices(cache, enumerated).Success?
    ensures |cache| == 0 ==> var devices := EnumeratePhysicalDevices(cache, enumerated).value;
      (exists j :: 0 <= j < |devices| && Suitable(devices[j], extensions, features))
      <==> (exists d :: d in enumerated.value && Suitable(d, extensions, features))
  {
    if |cache| == 0 {
      SuitableAmongRanked(EnumeratePhysicalDevices(cache, enumerated).value, enumerated.value, extensions, features);
    }
  }

  /** Ranking the devices does not change whether a suitable one exists. */
  lemma SuitableAmongRanked(ranked: seq<PhysicalDevice>, reported: seq<PhysicalDevice>,
                            extensions: seq<string>, features: DeviceFeatures)
    requires multiset(ranked) == multiset(reported)
    ensures (exists j :: 0 <= j < |ranked| && Suitable(ranked[j], extensions, features))
        <==> (exists d :: d in reported && Suitable(d, extensions, features))
  {
    if exists j :: 0 <= j < |ranked| && Suitable(ranked[j], extensions, features) {
      var j :| 0 <= j < |ranked| && Suitable(ranked[j], extensions, features);
      assert ranked[j] in multiset(ranked);
    }
    if exists d :: d in reported && Suitable(d, extensions, features) {
      var d :| d in reported && Suitable(d, extensions, features);
      assert d in multiset(ranked);
      var j :| 0 <= j < |ranked| && ranked[j] == d;
    }
  }
}
