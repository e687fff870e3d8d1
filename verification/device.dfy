/** Logical device creation inputs: the optional features a device offers or a
    program requires, and the queue families a device is created with. */
module Device {
  import opened Queue

  datatype DeviceFeatures = DeviceFeatures(
    rayTracingPipeline: bool,
    accelerationStructure: bool,
    runtimeDescriptorArray: bool,
    bufferDeviceAddress: bool,
    dynamicRendering: bool,
    synchronization2: bool)
  {
    /** Does a device offering these features satisfy `requirements`? Each
        feature the requirements ask for must be offered. */
    predicate IsCompatibleWith(requirements: DeviceFeatures)
      ensures requirements == this ==> IsCompatibleWith(requirements)
      ensures requirements == DeviceFeatures(false, false, false, false, false, false) ==> IsCompatibleWith(requirements)
      ensures this == DeviceFeatures(true, true, true, true, true, true) ==> IsCompatibleWith(requirements)
    {
      && (!requirements.rayTracingPipeline || rayTracingPipeline)
      && (!requirements.accelerationStructure || accelerationStructure)
      && (!requirements.runtimeDescriptorArray || runtimeDescriptorArray)
      && (!requirements.bufferDeviceAddress || bufferDeviceAddress)
      && (!requirements.dynamicRendering || dynamicRendering)
      && (!requirements.synchronization2 || synchronization2)
    }

    /** The six features as a list, in declaration order. */
    function AsList(): (r: seq<bool>)
      ensures |r| == 6
    {
      [rayTracingPipeline, accelerationStructure, runtimeDescriptorArray,
       bufferDeviceAddress, dynamicRendering, synchronization2]
    }
  }

  /** `DeviceFeatures::default()`: nothing required. */
  const DEFAULT_FEATURES := DeviceFeatures(false, false, false, false, false, false)

  /** Compatibility is the feature-wise implication "required implies offered". */
  lemma CompatibleIffFieldwise(offered: DeviceFeatures, required: DeviceFeatures)
    ensures offered.IsCompatibleWith(required)
        <==> forall i :: 0 <= i < 6 ==> required.AsList()[i] ==> offered.AsList()[i]
  {
    var o := offered.AsList();
    var q := required.AsList();
    if forall i :: 0 <= i < 6 ==> q[i] ==> o[i] {
      assert q[0] ==> o[0];
      assert q[1] ==> o[1];
      assert q[2] ==> o[2];
      assert q[3] ==> o[3];
      assert q[4] ==> o[4];
      assert q[5] ==> o[5];
    }
  }

  /** Every feature set satisfies itself. */
  lemma CompatibleReflexive(f: DeviceFeatures)
    ensures f.IsCompatibleWith(f)
  {
  }

  /** Requiring nothing is satisfied by every device, and a device offering nothing
      satisfies only the empty requirement. */
  lemma DefaultRequirementsAlwaysMet(f: DeviceFeatures)
    ensures f.IsCompatibleWith(DEFAULT_FEATURES)
    ensures DEFAULT_FEATURES.IsCompatibleWith(f) <==> f == DEFAULT_FEATURES
  {
  }

  /** If `a` satisfies `b` and `b` satisfies `c`, then `a` satisfies `c`. */
  lemma CompatibleTransitive(a: DeviceFeatures, b: DeviceFeatures, c: DeviceFeatures)
    requires a.IsCompatibleWith(b) && b.IsCompatibleWith(c)
    ensures a.IsCompatibleWith(c)
  {
  }

  predicate NoAdjacentDuplicates(s: seq<nat>) {
    forall i :: 0 <= i < |s| - 1 ==> s[i] != s[i + 1]
  }

  /** `Vec::dedup`: removes consecutive repeats, keeping the first of each run. */
  function Dedup(s: seq<nat>): (r: seq<nat>)
    ensures |r| <= |s|
    ensures |s| > 0 ==> |r| > 0 && r[0] == s[0]
    ensures NoAdjacentDuplicates(r)
    ensures forall x :: x in r <==> x in s
  {
    if |s| <= 1 then s
    else if s[0] == s[1] then Dedup(s[1..])
    else [s[0]] + Dedup(s[1..])
  }

  /** A list without consecutive repeats is left as it is, so `Dedup` is
      idempotent. */
  lemma {:induction false} DedupKeepsDistinctNeighbours(s: seq<nat>)
    requires NoAdjacentDuplicates(s)
    ensures Dedup(s) == s
    decreases |s|
  {
    if |s| > 1 {
      DedupKeepsDistinctNeighbours(s[1..]);
    }
  }

  lemma DedupIdempotent(s: seq<nat>)
    ensures Dedup(Dedup(s)) == Dedup(s)
  {
    DedupKeepsDistinctNeighbours(Dedup(s));
  }

  /** The heads of runs from position `i` on, in order: element `j` is kept
      exactly when it is the first element or differs from the one before. */
  function RunHeadsFrom(s: seq<nat>, i: nat): (r: seq<nat>)
    requires i <= |s|
    ensures |r| <= |s| - i
    decreases |s| - i
  {
    if i == |s| then []
    else (if i == 0 || s[i] != s[i - 1] then [s[i]] else []) + RunHeadsFrom(s, i + 1)
  }

  /** `Dedup` keeps exactly the heads of runs, in order. */
  lemma DedupKeepsRunHeads(s: seq<nat>)
    ensures Dedup(s) == RunHeadsFrom(s, 0)
  {
    if |s| > 0 {
      DedupSuffix(s, 0);
      assert s[0..] == s;
    }
  }

  lemma {:induction false} DedupSuffix(s: seq<nat>, i: nat)
    requires i < |s|
    ensures Dedup(s[i..]) == [s[i]] + RunHeadsFrom(s, i + 1)
    decreases |s| - i
  {
    if i + 1 < |s| {
      DedupSuffix(s, i + 1);
      assert s[i..][1..] == s[i + 1..];
      var next := i + 2;
      assert RunHeadsFrom(s, i + 1) == (if s[i + 1] != s[i] then [s[i + 1]] else []) + RunHeadsFrom(s, next);
    }
  }

  function FamilyIndices(families: seq<QueueFamily>): (r: seq<nat>)
    ensures |r| == |families|
    ensures forall i :: 0 <= i < |r| ==> r[i] == families[i].index
  {
    seq(|families|, i requires 0 <= i < |families| => families[i].index)
  }

  /** One queue create info per family index after removing consecutive
      repeats: the indices in family order, each kept exactly when it differs
      from the family before it. */
  function QueueCreateIndices(families: seq<QueueFamily>): (r: seq<nat>)
    ensures r == RunHeadsFrom(FamilyIndices(families), 0)
    ensures NoAdjacentDuplicates(r)
    ensures forall x :: x in r <==> exists i :: 0 <= i < |families| && families[i].index == x
  {
    var idx := FamilyIndices(families);
    assert forall x :: x in idx <==> exists i :: 0 <= i < |families| && families[i].index == x by {
      forall x | x in idx
        ensures exists i :: 0 <= i < |families| && families[i].index == x
      {
        var i :| 0 <= i < |idx| && idx[i] == x;
        assert families[i].index == x;
      }
      forall x | exists i :: 0 <= i < |families| && families[i].index == x
        ensures x in idx
      {
        var i :| 0 <= i < |families| && families[i].index == x;
        assert idx[i] == x;
      }
    }
    DedupKeepsRunHeads(idx);
    Dedup(idx)
  }

  /** The device is created with the graphics and the present family: one queue
      create info when they are the same family, two otherwise. */
  lemma GraphicsPresentQueues(graphics: QueueFamily, present: QueueFamily)
    ensures QueueCreateIndices([graphics, present])
         == if graphics.index == present.index then [graphics.index]
            else [graphics.index, present.index]
  {
    var idx := FamilyIndices([graphics, present]);
    assert idx == [graphics.index, present.index];
    assert idx[1..] == [present.index];
  }
}
