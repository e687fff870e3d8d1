/** Queue families as reported for one physical device, and the capability
    predicates the device selection asks of them. */
module Queue {
  import opened Bits
  import opened VkTypes

  /** `VkQueueFamilyProperties`, reduced to the fields the predicates read. */
  datatype QueueFamilyProperties = QueueFamilyProperties(
    queueFlags: nat, queueCount: nat, timestampValidBits: nat)

  datatype QueueFamily = QueueFamily(
    index: nat, props: QueueFamilyProperties, presentSupport: bool)
  {
    /** `queue_flags.contains(COMPUTE)`: bit 1 of the flag word. */
    predicate SupportsCompute()
      ensures SupportsCompute() <==> (props.queueFlags / 2) % 2 == 1
    {
      assert Pow2(1) == 2;
      ContainsBit(props.queueFlags, 1);
      Contains(props.queueFlags, QUEUE_COMPUTE)
    }

    /** `queue_flags.contains(GRAPHICS)`: bit 0 of the flag word. */
    predicate SupportsGraphics()
      ensures SupportsGraphics() <==> props.queueFlags % 2 == 1
    {
      assert Pow2(0) == 1;
      ContainsBit(props.queueFlags, 0);
      Contains(props.queueFlags, QUEUE_GRAPHICS)
    }

    /** The surface's answer recorded when the family was made. */
    predicate SupportsPresent()
      ensures SupportsPresent() ==> this == QueueFamily(index, props, true)
    {
      presentSupport
    }

    /** At least one queue. */
    predicate HasQueues()
      ensures !HasQueues() ==> props.queueCount == 0
    {
      props.queueCount > 0
    }

    /** Timestamps are written with a positive number of valid bits. */
    predicate SupportsTimestampQueries()
      ensures !SupportsTimestampQueries() ==> props.timestampValidBits == 0
    {
      props.timestampValidBits > 0
    }
  }

  /** `QueueFamily::new` keeps what it is given; present support is the answer the
      surface gave for this family. */
  function NewQueueFamily(index: nat, props: QueueFamilyProperties, presentSupport: bool)
    : (r: QueueFamily)
    ensures r.index == index && r.props == props
    ensures r.SupportsPresent() <==> presentSupport
  {
    QueueFamily(index, props, presentSupport)
  }

  /** The flag tests read single bits of the flag word: graphics is bit 0 and
      compute is bit 1. */
  lemma QueueFlagBits(f: QueueFamily)
    ensures f.SupportsGraphics() <==> f.props.queueFlags % 2 == 1
    ensures f.SupportsCompute() <==> (f.props.queueFlags / 2) % 2 == 1
  {
    assert Pow2(0) == 1;
    assert Pow2(1) == 2;
    ContainsBit(f.props.queueFlags, 0);
    ContainsBit(f.props.queueFlags, 1);
  }

  /** Queue families are numbered by their position in the driver's list, and each
      carries the surface's answer for its own index. */
  function FamiliesFromProperties(props: seq<QueueFamilyProperties>, present: nat -> bool)
    : (r: seq<QueueFamily>)
    ensures |r| == |props|
    ensures forall i :: 0 <= i < |r| ==>
      r[i].index == i && r[i].props == props[i] && (r[i].SupportsPresent() <==> present(i))
  {
    seq(|props|, i requires 0 <= i < |props| => QueueFamily(i, props[i], present(i)))
  }
}
