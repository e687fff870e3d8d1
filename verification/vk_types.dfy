/** The Vulkan enumeration values the selection rules compare against. Values the
    driver reports are kept as plain numbers so that codes the program does not
    know about can appear in the model too. */
module VkTypes {
  /** `VkFormat` codes. */
  const FORMAT_UNDEFINED: nat := 0
  const FORMAT_R8G8B8A8_UNORM: nat := 37
  const FORMAT_R8G8B8A8_SRGB: nat := 43
  const FORMAT_B8G8R8A8_UNORM: nat := 44

  /** `VkColorSpaceKHR` codes. */
  const COLOR_SPACE_SRGB_NONLINEAR: nat := 0

  /** `VkPresentModeKHR` codes. */
  const PRESENT_MODE_IMMEDIATE: nat := 0
  const PRESENT_MODE_MAILBOX: nat := 1
  const PRESENT_MODE_FIFO: nat := 2
  const PRESENT_MODE_FIFO_RELAXED: nat := 3

  /** `VkPhysicalDeviceType` codes. */
  const DEVICE_TYPE_OTHER: nat := 0
  const DEVICE_TYPE_INTEGRATED_GPU: nat := 1
  const DEVICE_TYPE_DISCRETE_GPU: nat := 2
  const DEVICE_TYPE_VIRTUAL_GPU: nat := 3
  const DEVICE_TYPE_CPU: nat := 4

  /** `VkQueueFlagBits` used by the queue family predicates. */
  const QUEUE_GRAPHICS: nat := 1
  const QUEUE_COMPUTE: nat := 2

  datatype SurfaceFormat = SurfaceFormat(format: nat, colorSpace: nat)

  datatype Extent2D = Extent2D(width: nat, height: nat)
}
