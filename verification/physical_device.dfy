/** What the program records about each physical device, and the extension check
    the device selection makes. */
module PhysicalDevices {
  import opened VkTypes
  import opened Queue
  import opened Device

  datatype PhysicalDevice = PhysicalDevice(
    name: string,
    deviceType: nat,
    queueFamilies: seq<QueueFamily>,
    supportedExtensions: seq<string>,
    supportedSurfaceFormats: seq<SurfaceFormat>,
    supportedPresentModes: seq<nat>,
    supportedDeviceFeatures: DeviceFeatures)

  /** `supports_extensions`: every requested name is among the supported ones,
      checked name by name as `Iterator::all` does. */
  function SupportsExtensions(d: PhysicalDevice, extensions: seq<string>): (r: bool)
    ensures r <==> forall e :: e in extensions ==> e in d.supportedExtensions
  {
    if |extensions| == 0 then true
    else
      assert forall e :: e in extensions <==> e == extensions[0] || e in extensions[1..];
      extensions[0] in d.supportedExtensions && SupportsExtensions(d, extensions[1..])
  }

  /** Asking for nothing always succeeds. */
  lemma EmptyExtensionsSupported(d: PhysicalDevice)
    ensures SupportsExtensions(d, [])
  {
  }

  /** Only the set of requested names matters: reordering or repeating them does
      not change the answer. */
  lemma ExtensionOrderIrrelevant(d: PhysicalDevice, a: seq<string>, b: seq<string>)
    requires forall e :: e in a <==> e in b
    ensures SupportsExtensions(d, a) == SupportsExtensions(d, b)
  {
  }

  /** Supporting a list means supporting every list drawn from its names. */
  lemma ExtensionSubsetSupported(d: PhysicalDevice, a: seq<string>, b: seq<string>)
    requires SupportsExtensions(d, a)
    requires forall e :: e in b ==> e in a
    ensures SupportsExtensions(d, b)
  {
  }
}
