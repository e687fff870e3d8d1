/** The instance's list of physical devices: enumerated once, ranked by device
    type, then served from the cache. */
module Instance {
  import opened Wrappers
  import opened VkTypes
  import opened Sorting
  import opened PhysicalDevices

  /** Discrete GPUs first, then integrated GPUs, then everything else. */
  function Rank(d: PhysicalDevice): (r: nat)
    ensures r <= 2
    ensures r == 0 <==> d.deviceType == DEVICE_TYPE_DISCRETE_GPU
    ensures r == 1 <==> d.deviceType == DEVICE_TYPE_INTEGRATED_GPU
  {
    if d.deviceType == DEVICE_TYPE_DISCRETE_GPU then 0
    else if d.deviceType == DEVICE_TYPE_INTEGRATED_GPU then 1
    else 2
  }

  /** `sort_by_key` on the rank: a stable sort. */
  function RankDevices(devices: seq<PhysicalDevice>): (r: seq<PhysicalDevice>)
    ensures multiset(r) == multiset(devices)
    ensures forall i, j :: 0 <= i < j < |r| ==> Rank(r[i]) <= Rank(r[j])
    ensures forall k :: WithKey(r, Rank, k) == WithKey(devices, Rank, k)
  {
    SortCorrect(devices, Rank);
    SortByKey(devices, Rank)
  }

  /** `enumerate_physical_devices`. The cache is filled only while it is empty;
      `enumerated` stands for what the driver reports, or its error. The result is
      both the new cache and the returned list. */
  function EnumeratePhysicalDevices(cache: seq<PhysicalDevice>, enumerated: Result<seq<PhysicalDevice>, string>)
    : (r: Result<seq<PhysicalDevice>, string>)
    ensures |cache| > 0 ==> r == Success(cache)
    ensures |cache| == 0 ==> (r.Success? <==> enumerated.Success?)
    ensures |cache| == 0 && r.Success? ==>
      && multiset(r.value) == multiset(enumerated.value)
      && (forall i, j :: 0 <= i < j < |r.value| ==> Rank(r.value[i]) <= Rank(r.value[j]))
      && (forall k :: WithKey(r.value, Rank, k) == WithKey(enumerated.value, Rank, k))
  {
    if |cache| > 0 then Success(cache)
    else
      var devices :- enumerated;
      Success(RankDevices(devices))
  }

  /** Once a non-empty list is cached, later calls return it whatever the driver
      would report. */
  lemma CachedListIsStable(cache: seq<PhysicalDevice>, first: Result<seq<PhysicalDevice>, string>,
                           second: Result<seq<PhysicalDevice>, string>)
    requires EnumeratePhysicalDevices(cache, first).Success?
    requires |EnumeratePhysicalDevices(cache, first).value| > 0
    ensures var c := EnumeratePhysicalDevices(cache, first).value;
      EnumeratePhysicalDevices(c, second) == Success(c)
  {
  }
}
