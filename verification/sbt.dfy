/** The shader binding table: how shader group handles fetched from the driver are
    laid out in one buffer of three regions (ray generation, miss, hit), each handle
    padded to the handle alignment and each region padded to the group base alignment,
    and the strided address regions the trace call is given. */
module ShaderBindingTable {
  import opened Wrappers
  import opened Bits
  import opened Align
  import RT = RayTracingPipeline

  /** The three fields of `VkPhysicalDeviceRayTracingPipelinePropertiesKHR` the table uses. */
  datatype RtProperties = RtProperties(handleSize: nat, handleAlignment: nat, baseAlignment: nat)

  predicate ValidProperties(p: RtProperties) {
    IsU32(p.handleSize) && IsU32(p.handleAlignment) && IsU32(p.baseAlignment)
  }

  predicate ValidInfo(i: RT.ShaderGroupInfo) {
    IsU32(i.groupCount) && IsU32(i.raygenCount) && IsU32(i.missCount) && IsU32(i.hitCount)
  }

  datatype SbtError = AlignFailed(e: AlignError) | PadUnderflow | U32Overflow | HandlesTooShort

  /** The sizes the table is built from.  Region 0 is ray generation, 1 miss, 2 hit. */
  datatype SbtLayout = SbtLayout(
    handleSize: nat, handlePad: nat, baseAlignment: nat,
    counts: seq<nat>, groupPads: seq<nat>, dataSize: nat)
  {
    ghost predicate WellFormed() { |counts| == 3 && |groupPads| == 3 }

    function AlignedHandleSize(): nat { handleSize + handlePad }

    function RegionSize(g: nat): nat
      requires |counts| == 3 && |groupPads| == 3 && g < 3
    {
      Mul(counts[g], AlignedHandleSize()) + groupPads[g]
    }

    /** Byte offset of region g in the table. */
    function RegionOffset(g: nat): nat
      requires |counts| == 3 && |groupPads| == 3 && g <= 3
    {
      if g == 0 then 0 else RegionOffset(g - 1) + RegionSize(g - 1)
    }

    function BufferSize(): nat
      requires |counts| == 3 && |groupPads| == 3
    {
      RegionOffset(3)
    }

    /** Number of handles that belong to regions before g. */
    function HandlesBefore(g: nat): nat
      requires |counts| == 3 && g <= 3
    {
      if g == 0 then 0 else HandlesBefore(g - 1) + counts[g - 1]
    }

    /** Bytes of handle data the copy reads. */
    function HandleBytesNeeded(): nat
      requires |counts| == 3
    {
      Mul(HandlesBefore(3), handleSize)
    }
  }

  function Lift(o: Option<nat>, e: SbtError): (r: Result<nat, SbtError>)
    ensures r.Success? <==> o.Some?
    ensures r.Success? ==> r.value == o.value
  {
    if o.Some? then Success(o.value) else Failure(e)
  }

  function AlignU32(size: nat, alignment: nat): (r: Result<nat, SbtError>)
    requires IsU32(size) && IsU32(alignment)
    ensures r.Success? <==> ComputeAlignedSize(size, alignment).Success?
    ensures r.Success? ==> r.value == ComputeAlignedSize(size, alignment).value
  {
    match ComputeAlignedSize(size, alignment)
    case Success(v) => Success(v)
    case Failure(e) => Failure(AlignFailed(e))
  }

  /** `compute_aligned_size(count * aligned_handle_size, group_alignment)`. */
  function RegionSizeOf(count: nat, aligned: nat, baseAlignment: nat): (r: Result<nat, SbtError>)
    requires IsU32(count) && IsU32(aligned) && IsU32(baseAlignment)
    ensures r.Success? <==>
      count * aligned <= U32_MAX && ComputeAlignedSize(count * aligned, baseAlignment).Success?
    ensures r.Success? ==> r.value == ComputeAlignedSize(count * aligned, baseAlignment).value
  {
    var groupSize :- Lift(CheckedMul(count, aligned), U32Overflow);
    AlignU32(groupSize, baseAlignment)
  }

  /** The padding that takes a region of `count` handles to its aligned size
      (`aligned_group_size - group_size` in the copy loop). */
  function RegionPad(count: nat, aligned: nat, baseAlignment: nat): (r: Result<nat, SbtError>)
    requires IsU32(count) && IsU32(aligned) && IsU32(baseAlignment)
    ensures r.Success? ==>
      && RegionSizeOf(count, aligned, baseAlignment).Success?
      && count * aligned + r.value == RegionSizeOf(count, aligned, baseAlignment).value
  {
    var regionSize :- RegionSizeOf(count, aligned, baseAlignment);
    Lift(CheckedSub(regionSize, count * aligned), PadUnderflow)
  }

  /** The size computations of `ShaderBindingTable::new`, with every `u32` step checked.
      The three region sizes are summed before the pads are taken, as in the source. */
  function ComputeLayout(props: RtProperties, info: RT.ShaderGroupInfo): (r: Result<SbtLayout, SbtError>)
    requires ValidProperties(props) && ValidInfo(info)
    ensures r.Success? ==>
      var l := r.value;
      && l.WellFormed()
      && l.handleSize == props.handleSize && l.baseAlignment == props.baseAlignment
      && l.counts == [info.raygenCount, info.missCount, info.hitCount]
      && l.dataSize == info.groupCount * props.handleSize && IsU32(l.dataSize)
      && IsU32(l.BufferSize())
      && AlignU32(props.handleSize, props.handleAlignment) == Success(l.AlignedHandleSize())
      && IsU32(l.AlignedHandleSize())
      && RegionSizeOf(l.counts[0], l.AlignedHandleSize(), l.baseAlignment) == Success(l.RegionSize(0))
      && RegionSizeOf(l.counts[1], l.AlignedHandleSize(), l.baseAlignment) == Success(l.RegionSize(1))
      && RegionSizeOf(l.counts[2], l.AlignedHandleSize(), l.baseAlignment) == Success(l.RegionSize(2))
  {
    var hs := props.handleSize;
    var ba := props.baseAlignment;
    var aligned :- AlignU32(hs, props.handleAlignment);
    var handlePad :- Lift(CheckedSub(aligned, hs), PadUnderflow);
    var dataSize :- Lift(CheckedMul(info.groupCount, hs), U32Overflow);
    var raygenSize :- RegionSizeOf(info.raygenCount, aligned, ba);
    var missSize :- RegionSizeOf(info.missCount, aligned, ba);
    var hitSize :- RegionSizeOf(info.hitCount, aligned, ba);
    var partial :- Lift(CheckedAdd(raygenSize, missSize), U32Overflow);
    var bufferSize :- Lift(CheckedAdd(partial, hitSize), U32Overflow);
    var pad0 :- RegionPad(info.raygenCount, aligned, ba);
    var pad1 :- RegionPad(info.missCount, aligned, ba);
    var pad2 :- RegionPad(info.hitCount, aligned, ba);
    var l := SbtLayout(hs, handlePad, ba, [info.raygenCount, info.missCount, info.hitCount],
                       [pad0, pad1, pad2], dataSize);
    MulIsProduct(info.raygenCount, aligned);
    MulIsProduct(info.missCount, aligned);
    MulIsProduct(info.hitCount, aligned);
    LayoutSums(l, raygenSize, missSize, hitSize);
    Success(l)
  }

  lemma LayoutSums(l: SbtLayout, s0: nat, s1: nat, s2: nat)
    requires l.WellFormed()
    requires l.RegionSize(0) == s0 && l.RegionSize(1) == s1 && l.RegionSize(2) == s2
    ensures l.BufferSize() == s0 + s1 + s2
  {
    assert l.RegionOffset(1) == s0;
    assert l.RegionOffset(2) == s0 + s1;
  }

  /** With power-of-two alignments (as Vulkan guarantees) every size is the rounded-up
      size, every pad is shorter than its alignment, and regions start aligned. */
  lemma LayoutWithPowerOfTwoAlignments(props: RtProperties, info: RT.ShaderGroupInfo, ka: nat, kb: nat)
    requires ValidProperties(props) && ValidInfo(info)
    requires props.handleAlignment == Pow2(ka) && props.baseAlignment == Pow2(kb)
    requires ComputeLayout(props, info).Success?
    ensures var l := ComputeLayout(props, info).value;
      && l.AlignedHandleSize() == RoundUp(props.handleSize, props.handleAlignment)
      && l.handlePad < props.handleAlignment
      && forall g :: 0 <= g < 3 ==>
           && l.RegionSize(g) == RoundUp(Mul(l.counts[g], l.AlignedHandleSize()), props.baseAlignment)
           && l.groupPads[g] < props.baseAlignment
           && l.RegionOffset(g) % props.baseAlignment == 0
  {
    var l := ComputeLayout(props, info).value;
    AlignedSizeRoundsUp(props.handleSize, ka);
    RegionRoundsUp(l, 0, kb);
    RegionRoundsUp(l, 1, kb);
    RegionRoundsUp(l, 2, kb);
    forall g | 0 <= g < 3
      ensures l.RegionOffset(g) % props.baseAlignment == 0
    {
      RegionOffsetsAligned(l, g, props.baseAlignment);
    }
  }

  lemma RegionRoundsUp(l: SbtLayout, g: nat, kb: nat)
    requires l.WellFormed() && g < 3 && l.baseAlignment == Pow2(kb)
    requires IsU32(l.counts[g]) && IsU32(l.AlignedHandleSize()) && IsU32(l.baseAlignment)
    requires RegionSizeOf(l.counts[g], l.AlignedHandleSize(), l.baseAlignment) == Success(l.RegionSize(g))
    ensures l.RegionSize(g) == RoundUp(Mul(l.counts[g], l.AlignedHandleSize()), l.baseAlignment)
    ensures l.groupPads[g] < l.baseAlignment
    ensures l.RegionSize(g) % l.baseAlignment == 0
  {
    MulIsProduct(l.counts[g], l.AlignedHandleSize());
    AlignedSizeRoundsUp(l.counts[g] * l.AlignedHandleSize(), kb);
  }

  lemma {:induction false} RegionOffsetsAligned(l: SbtLayout, g: nat, b: nat)
    requires l.WellFormed() && g <= 3 && b > 0
    requires forall h :: 0 <= h < 3 ==> l.RegionSize(h) % b == 0
    ensures l.RegionOffset(g) % b == 0
  {
    if g > 0 {
      RegionOffsetsAligned(l, g - 1, b);
      ModAddMultiple(l.RegionOffset(g - 1), l.RegionSize(g - 1), b);
    }
  }

  predicate OverflowError(e: SbtError) { e == U32Overflow || e == AlignFailed(SizeOverflow) }

  /** With a power-of-two alignment a region size fails only by overflow and is never
      smaller than the group it pads, so the pad subtraction cannot underflow. */
  lemma RegionPadOnlyOverflows(count: nat, aligned: nat, kb: nat)
    requires IsU32(count) && IsU32(aligned) && IsU32(Pow2(kb))
    ensures RegionSizeOf(count, aligned, Pow2(kb)).Success? ==>
      RegionSizeOf(count, aligned, Pow2(kb)).value >= count * aligned
    ensures RegionSizeOf(count, aligned, Pow2(kb)).Failure? ==>
      OverflowError(RegionSizeOf(count, aligned, Pow2(kb)).error)
    ensures RegionPad(count, aligned, Pow2(kb)).Failure? ==>
      OverflowError(RegionPad(count, aligned, Pow2(kb)).error)
  {
    if count * aligned <= U32_MAX && count * aligned + Pow2(kb) - 1 <= U32_MAX {
      AlignedSizeRoundsUp(count * aligned, kb);
    }
  }

  /** With power-of-two alignments the only way the size computations fail is an
      overflow of `u32`: no pad subtraction underflows. */
  lemma LayoutFailsOnlyByOverflow(props: RtProperties, info: RT.ShaderGroupInfo, ka: nat, kb: nat)
    requires ValidProperties(props) && ValidInfo(info)
    requires props.handleAlignment == Pow2(ka) && props.baseAlignment == Pow2(kb)
    ensures ComputeLayout(props, info).Failure? ==> OverflowError(ComputeLayout(props, info).error)
  {
    var hs := props.handleSize;
    if hs + props.handleAlignment - 1 <= U32_MAX {
      AlignedSizeRoundsUp(hs, ka);
      var a := RoundUp(hs, props.handleAlignment);
      RegionPadOnlyOverflows(info.raygenCount, a, kb);
      RegionPadOnlyOverflows(info.missCount, a, kb);
      RegionPadOnlyOverflows(info.hitCount, a, kb);
    }
  }

  function Zeros(n: nat): (r: seq<Byte>)
    ensures |r| == n && forall i :: 0 <= i < n ==> r[i] == 0
  {
    seq(n, _ => 0)
  }

  /** `count` handles of `hs` bytes starting at byte `start`, copied one after
      another, each followed by `pad` zero bytes. */
  function GroupBytes(handles: seq<Byte>, start: nat, count: nat, hs: nat, pad: nat): seq<Byte>
    requires start + Mul(count, hs) <= |handles|
    decreases count
  {
    if count == 0 then []
    else
      GroupBytes(handles, start, count - 1, hs, pad)
        + handles[start + Mul(count - 1, hs) .. start + Mul(count, hs)] + Zeros(pad)
  }

  function Region(handles: seq<Byte>, l: SbtLayout, g: nat): seq<Byte>
    requires l.WellFormed() && g < 3 && l.HandleBytesNeeded() <= |handles|
  {
    RegionHandlesFit(l, g);
    GroupBytes(handles, Mul(l.HandlesBefore(g), l.handleSize), l.counts[g], l.handleSize, l.handlePad)
      + Zeros(l.groupPads[g])
  }

  lemma {:induction false} HandlesBeforeMono(l: SbtLayout, g: nat, h: nat)
    requires l.WellFormed() && g <= h <= 3
    ensures l.HandlesBefore(g) <= l.HandlesBefore(h)
    decreases h
  {
    if g < h {
      HandlesBeforeMono(l, g, h - 1);
    }
  }

  /** Region g reads handle bytes `[HandlesBefore(g) * hs, HandlesBefore(g + 1) * hs)`,
      which lie inside what the whole table reads. */
  lemma RegionHandlesFit(l: SbtLayout, g: nat)
    requires l.WellFormed() && g < 3
    ensures Mul(l.HandlesBefore(g), l.handleSize) + Mul(l.counts[g], l.handleSize)
            == Mul(l.HandlesBefore(g + 1), l.handleSize) <= l.HandleBytesNeeded()
  {
    HandlesBeforeMono(l, g + 1, 3);
    MulMono(l.HandlesBefore(g + 1), l.HandlesBefore(3), l.handleSize);
    MulAdd(l.HandlesBefore(g), l.counts[g], l.handleSize);
  }

  /** A region is its slots followed by its padding, `RegionSize(g)` bytes in all. */
  lemma RegionParts(handles: seq<Byte>, l: SbtLayout, g: nat)
    requires l.WellFormed() && g < 3 && l.HandleBytesNeeded() <= |handles|
    ensures Mul(l.HandlesBefore(g), l.handleSize) + Mul(l.counts[g], l.handleSize) <= |handles|
    ensures Region(handles, l, g)
      == GroupBytes(handles, Mul(l.HandlesBefore(g), l.handleSize), l.counts[g], l.handleSize, l.handlePad)
         + Zeros(l.groupPads[g])
    ensures |Region(handles, l, g)| == l.RegionSize(g)
  {
    RegionHandlesFit(l, g);
    GroupBytesLength(handles, Mul(l.HandlesBefore(g), l.handleSize), l.counts[g], l.handleSize, l.handlePad);
  }

  /** The table's contents: the three regions one after another. */
  function RegionsUpTo(handles: seq<Byte>, l: SbtLayout, g: nat): seq<Byte>
    requires l.WellFormed() && g <= 3 && l.HandleBytesNeeded() <= |handles|
  {
    if g == 0 then [] else RegionsUpTo(handles, l, g - 1) + Region(handles, l, g - 1)
  }

  function SbtBytes(handles: seq<Byte>, l: SbtLayout): seq<Byte>
    requires l.WellFormed() && l.HandleBytesNeeded() <= |handles|
  {
    RegionsUpTo(handles, l, 3)
  }

  /** One handle slot: the handle's bytes, then `pad` zero bytes. */
  method CopySlot(handles: seq<Byte>, data: seq<Byte>, s0: nat, hs: nat, pad: nat)
    returns (out: seq<Byte>)
    requires s0 + hs <= |handles|
    ensures out == data + handles[s0..s0 + hs] + Zeros(pad)
  {
    out := data;
    var offset := s0;
    for b := 0 to hs
      invariant offset == s0 + b
      invariant out == data + handles[s0..offset]
    {
      out := out + [handles[offset]];
      offset := offset + 1;
    }
    for p := 0 to pad
      invariant out == data + handles[s0..s0 + hs] + Zeros(p)
    {
      out := out + [0];
    }
  }

  /** One region: `count` slots, then the region's padding. */
  method CopyRegion(handles: seq<Byte>, data: seq<Byte>, start: nat, count: nat, hs: nat,
                    pad: nat, groupPad: nat)
    returns (out: seq<Byte>)
    requires start + Mul(count, hs) <= |handles|
    ensures out == data + GroupBytes(handles, start, count, hs, pad) + Zeros(groupPad)
  {
    out := data;
    var offset := start;
    for j := 0 to count
      invariant offset == start + Mul(j, hs) && Mul(j, hs) <= Mul(count, hs)
      invariant out == data + GroupBytes(handles, start, j, hs, pad)
    {
      MulMono(j + 1, count, hs);
      out := CopySlot(handles, out, offset, hs, pad);
      offset := offset + hs;
    }
    for p := 0 to groupPad
      invariant out == data + GroupBytes(handles, start, count, hs, pad) + Zeros(p)
    {
      out := out + [0];
    }
  }

  /** The copy loops of `ShaderBindingTable::new`: for each region, for each of its
      shaders, the handle bytes then the handle padding, then the region padding.
      Reading past the fetched handles is an out-of-bounds panic in the source. */
  method BuildSbtData(handles: seq<Byte>, l: SbtLayout) returns (r: Result<seq<Byte>, SbtError>)
    requires l.WellFormed()
    ensures r.Success? <==> l.HandleBytesNeeded() <= |handles|
    ensures r.Success? ==> r.value == SbtBytes(handles, l)
  {
    if l.HandleBytesNeeded() > |handles| {
      return Failure(HandlesTooShort);
    }
    var data: seq<Byte> := [];
    var offset := 0;
    for g := 0 to 3
      invariant offset == Mul(l.HandlesBefore(g), l.handleSize)
      invariant data == RegionsUpTo(handles, l, g)
    {
      RegionHandlesFit(l, g);
      data := CopyRegion(handles, data, offset, l.counts[g], l.handleSize, l.handlePad, l.groupPads[g]);
      offset := offset + Mul(l.counts[g], l.handleSize);
    }
    return Success(data);
  }

  lemma {:induction false} GroupBytesLength(handles: seq<Byte>, start: nat, count: nat, hs: nat, pad: nat)
    requires start + Mul(count, hs) <= |handles|
    ensures |GroupBytes(handles, start, count, hs, pad)| == Mul(count, hs + pad)
    decreases count
  {
    if count > 0 {
      GroupBytesLength(handles, start, count - 1, hs, pad);
    }
  }

  lemma SlotIndexBound(k: nat, c: nat, w: nat, b: nat)
    requires k < c && b < w
    ensures Mul(k, w) + b < Mul(c, w)
  {
    MulMono(k + 1, c, w);
  }

  /** The last slot of a region, and the part before it. */
  lemma GroupBytesSnoc(handles: seq<Byte>, start: nat, count: nat, hs: nat, pad: nat)
    requires start + Mul(count, hs) <= |handles| && count > 0
    ensures start + Mul(count - 1, hs) + hs == start + Mul(count, hs)
    ensures GroupBytes(handles, start, count, hs, pad)
      == GroupBytes(handles, start, count - 1, hs, pad)
         + handles[start + Mul(count - 1, hs) .. start + Mul(count, hs)] + Zeros(pad)
    ensures |GroupBytes(handles, start, count - 1, hs, pad)| == Mul(count - 1, hs + pad)
  {
    GroupBytesLength(handles, start, count - 1, hs, pad);
  }

  lemma SlotAt(prev: seq<Byte>, slot: seq<Byte>, pad: nat, b: nat)
    requires b < |slot| + pad
    ensures |prev| + b < |prev + slot + Zeros(pad)|
    ensures (prev + slot + Zeros(pad))[|prev| + b] == if b < |slot| then slot[b] else 0
  {
  }

  /** Byte b of the last slot of a region. */
  lemma LastSlotAt(handles: seq<Byte>, start: nat, count: nat, hs: nat, pad: nat, b: nat)
    requires start + Mul(count, hs) <= |handles| && count > 0 && b < hs + pad
    ensures Mul(count - 1, hs + pad) + b < |GroupBytes(handles, start, count, hs, pad)|
    ensures b < hs ==> start + Mul(count - 1, hs) + b < |handles|
    ensures GroupBytes(handles, start, count, hs, pad)[Mul(count - 1, hs + pad) + b]
        == if b < hs then handles[start + Mul(count - 1, hs) + b] else 0
  {
    GroupBytesSnoc(handles, start, count, hs, pad);
    var prev := GroupBytes(handles, start, count - 1, hs, pad);
    var slot := handles[start + Mul(count - 1, hs) .. start + Mul(count, hs)];
    SlotAt(prev, slot, pad, b);
  }

  /** Appending a slot keeps the bytes before it. */
  lemma EarlierSlotAt(handles: seq<Byte>, start: nat, count: nat, hs: nat, pad: nat, i: nat)
    requires start + Mul(count, hs) <= |handles| && count > 0
    requires i < |GroupBytes(handles, start, count - 1, hs, pad)|
    ensures i < |GroupBytes(handles, start, count, hs, pad)|
    ensures GroupBytes(handles, start, count, hs, pad)[i] == GroupBytes(handles, start, count - 1, hs, pad)[i]
  {
  }

  /** Inside a region, byte b of slot k is byte b of the region's k-th handle, or a
      zero once past the handle. */
  lemma {:induction false} GroupBytesAt(handles: seq<Byte>, start: nat, count: nat, hs: nat, pad: nat, k: nat, b: nat)
    requires start + Mul(count, hs) <= |handles| && k < count && b < hs + pad
    ensures |GroupBytes(handles, start, count, hs, pad)| == Mul(count, hs + pad)
    ensures Mul(k, hs + pad) + b < Mul(count, hs + pad)
    ensures b < hs ==> start + Mul(k, hs) + b < |handles|
    ensures GroupBytes(handles, start, count, hs, pad)[Mul(k, hs + pad) + b]
        == if b < hs then handles[start + Mul(k, hs) + b] else 0
    decreases count
  {
    GroupBytesLength(handles, start, count, hs, pad);
    SlotIndexBound(k, count, hs + pad, b);
    if k == count - 1 {
      LastSlotAt(handles, start, count, hs, pad, b);
    } else {
      MulMono(count - 1, count, hs);
      GroupBytesAt(handles, start, count - 1, hs, pad, k, b);
      EarlierSlotValue(handles, start, count, hs, pad, k, b);
    }
  }

  /** A slot before the last one reads the same in the shorter region. */
  lemma EarlierSlotValue(handles: seq<Byte>, start: nat, count: nat, hs: nat, pad: nat, k: nat, b: nat)
    requires start + Mul(count, hs) <= |handles| && k < count - 1 && b < hs + pad
    requires start + Mul(count - 1, hs) <= |handles|
    requires Mul(k, hs + pad) + b < Mul(count - 1, hs + pad)
    requires |GroupBytes(handles, start, count - 1, hs, pad)| == Mul(count - 1, hs + pad)
    requires b < hs ==> start + Mul(k, hs) + b < |handles|
    requires GroupBytes(handles, start, count - 1, hs, pad)[Mul(k, hs + pad) + b]
        == if b < hs then handles[start + Mul(k, hs) + b] else 0
    ensures Mul(k, hs + pad) + b < |GroupBytes(handles, start, count, hs, pad)|
    ensures GroupBytes(handles, start, count, hs, pad)[Mul(k, hs + pad) + b]
        == if b < hs then handles[start + Mul(k, hs) + b] else 0
  {
    EarlierSlotAt(handles, start, count, hs, pad, Mul(k, hs + pad) + b);
  }

  lemma {:induction false} RegionsUpToLength(handles: seq<Byte>, l: SbtLayout, g: nat)
    requires l.WellFormed() && g <= 3 && l.HandleBytesNeeded() <= |handles|
    ensures |RegionsUpTo(handles, l, g)| == l.RegionOffset(g)
  {
    if g > 0 {
      RegionsUpToLength(handles, l, g - 1);
      RegionParts(handles, l, g - 1);
    }
  }

  /** The table is exactly `buffer_size` bytes long. */
  lemma SbtBytesLength(handles: seq<Byte>, l: SbtLayout)
    requires l.WellFormed() && l.HandleBytesNeeded() <= |handles|
    ensures |SbtBytes(handles, l)| == l.BufferSize()
  {
    RegionsUpToLength(handles, l, 3);
  }

  lemma {:induction false} RegionInTable(handles: seq<Byte>, l: SbtLayout, g: nat, h: nat, i: nat)
    requires l.WellFormed() && g < h <= 3 && l.HandleBytesNeeded() <= |handles|
    requires i < |Region(handles, l, g)|
    ensures |RegionsUpTo(handles, l, h)| == l.RegionOffset(h)
    ensures l.RegionOffset(g) + i < l.RegionOffset(h)
    ensures RegionsUpTo(handles, l, h)[l.RegionOffset(g) + i] == Region(handles, l, g)[i]
    decreases h
  {
    RegionsUpToLength(handles, l, g);
    RegionsUpToLength(handles, l, h);
    RegionsUpToLength(handles, l, h - 1);
    if g < h - 1 {
      RegionInTable(handles, l, g, h - 1, i);
    }
  }

  /** Byte b of the k-th slot of region g, read inside the region. */
  lemma SlotInRegion(handles: seq<Byte>, l: SbtLayout, g: nat, k: nat, b: nat)
    requires l.WellFormed() && l.HandleBytesNeeded() <= |handles|
    requires g < 3 && k < l.counts[g] && b < l.AlignedHandleSize()
    ensures Mul(k, l.AlignedHandleSize()) + b < l.RegionSize(g)
    ensures |Region(handles, l, g)| == l.RegionSize(g)
    ensures b < l.handleSize ==> Mul(l.HandlesBefore(g) + k, l.handleSize) + b < |handles|
    ensures Region(handles, l, g)[Mul(k, l.AlignedHandleSize()) + b]
      == if b < l.handleSize then handles[Mul(l.HandlesBefore(g) + k, l.handleSize) + b] else 0
  {
    SlotOffset(l, k);
    RegionLength(handles, l, g);
    RegionSlotAt(handles, l, g, k, b);
    MulAdd(l.HandlesBefore(g), k, l.handleSize);
  }

  /** Byte b of the k-th slot of region g, with the handle offset split into the
      regions before and the slots before. */
  lemma RegionSlotAt(handles: seq<Byte>, l: SbtLayout, g: nat, k: nat, b: nat)
    requires l.WellFormed() && l.HandleBytesNeeded() <= |handles|
    requires g < 3 && k < l.counts[g] && b < l.handleSize + l.handlePad
    ensures Mul(k, l.handleSize + l.handlePad) + b < |Region(handles, l, g)|
    ensures b < l.handleSize ==> Mul(l.HandlesBefore(g), l.handleSize) + Mul(k, l.handleSize) + b < |handles|
    ensures Region(handles, l, g)[Mul(k, l.handleSize + l.handlePad) + b]
      == if b < l.handleSize then handles[Mul(l.HandlesBefore(g), l.handleSize) + Mul(k, l.handleSize) + b] else 0
  {
    var hs, pad := l.handleSize, l.handlePad;
    var start := Mul(l.HandlesBefore(g), hs);
    RegionHandlesFit(l, g);
    GroupBytesAt(handles, start, l.counts[g], hs, pad, k, b);
    RegionByteAt(handles, l, g, Mul(k, hs + pad) + b);
  }

  lemma SlotOffset(l: SbtLayout, k: nat)
    ensures Mul(k, l.AlignedHandleSize()) == Mul(k, l.handleSize + l.handlePad)
  {
  }

  lemma RegionLength(handles: seq<Byte>, l: SbtLayout, g: nat)
    requires l.WellFormed() && g < 3 && l.HandleBytesNeeded() <= |handles|
    ensures |Region(handles, l, g)| == l.RegionSize(g)
  {
    RegionParts(handles, l, g);
  }

  /** The bytes of a region before its padding are those of its slots. */
  lemma RegionByteAt(handles: seq<Byte>, l: SbtLayout, g: nat, i: nat)
    requires l.WellFormed() && g < 3 && l.HandleBytesNeeded() <= |handles|
    requires Mul(l.HandlesBefore(g), l.handleSize) + Mul(l.counts[g], l.handleSize) <= |handles|
    requires i < |GroupBytes(handles, Mul(l.HandlesBefore(g), l.handleSize), l.counts[g], l.handleSize, l.handlePad)|
    ensures i < |Region(handles, l, g)|
    ensures Region(handles, l, g)[i]
         == GroupBytes(handles, Mul(l.HandlesBefore(g), l.handleSize), l.counts[g], l.handleSize, l.handlePad)[i]
  {
    var slots := GroupBytes(handles, Mul(l.HandlesBefore(g), l.handleSize), l.counts[g], l.handleSize, l.handlePad);
    assert Region(handles, l, g) == slots + Zeros(l.groupPads[g]);
    PrefixAt(slots, Zeros(l.groupPads[g]), i);
  }

  lemma PrefixAt<T>(a: seq<T>, b: seq<T>, i: nat)
    requires i < |a|
    ensures (a + b)[i] == a[i]
  {
  }

  /** Byte b of the k-th handle slot of region g: the handle's bytes followed by zero
      padding up to the aligned handle size. */
  lemma HandleInTable(handles: seq<Byte>, l: SbtLayout, g: nat, k: nat, b: nat)
    requires l.WellFormed() && l.HandleBytesNeeded() <= |handles|
    requires g < 3 && k < l.counts[g] && b < l.AlignedHandleSize()
    ensures |SbtBytes(handles, l)| == l.BufferSize()
    ensures l.RegionOffset(g) + Mul(k, l.AlignedHandleSize()) + b < |SbtBytes(handles, l)|
    ensures b < l.handleSize ==> Mul(l.HandlesBefore(g) + k, l.handleSize) + b < |handles|
    ensures SbtBytes(handles, l)[l.RegionOffset(g) + Mul(k, l.AlignedHandleSize()) + b]
      == if b < l.handleSize then handles[Mul(l.HandlesBefore(g) + k, l.handleSize) + b] else 0
  {
    SlotInRegion(handles, l, g, k, b);
    TableAt(handles, l, g, Mul(k, l.AlignedHandleSize()) + b);
  }

  /** Byte i of region g sits at the region's offset in the table. */
  lemma TableAt(handles: seq<Byte>, l: SbtLayout, g: nat, i: nat)
    requires l.WellFormed() && l.HandleBytesNeeded() <= |handles|
    requires g < 3 && i < |Region(handles, l, g)|
    ensures |SbtBytes(handles, l)| == l.BufferSize()
    ensures l.RegionOffset(g) + i < |SbtBytes(handles, l)|
    ensures SbtBytes(handles, l)[l.RegionOffset(g) + i] == Region(handles, l, g)[i]
  {
    SbtBytesLength(handles, l);
    RegionInTable(handles, l, g, 3, i);
  }

  /** Past its last slot a region holds only zeros. */
  lemma RegionPaddingIsZero(handles: seq<Byte>, l: SbtLayout, g: nat, i: nat)
    requires l.WellFormed() && l.HandleBytesNeeded() <= |handles|
    requires g < 3 && Mul(l.counts[g], l.AlignedHandleSize()) <= i < l.RegionSize(g)
    ensures |SbtBytes(handles, l)| == l.BufferSize()
    ensures l.RegionOffset(g) + i < |SbtBytes(handles, l)|
    ensures SbtBytes(handles, l)[l.RegionOffset(g) + i] == 0
  {
    SbtBytesLength(handles, l);
    RegionParts(handles, l, g);
    RegionInTable(handles, l, g, 3, i);
  }

  /** `VkStridedDeviceAddressRegionKHR`. */
  datatype StridedRegion = StridedRegion(deviceAddress: nat, size: nat, stride: nat)

  /** The three regions handed to the trace call, in order ray generation, miss, hit. */
  function SbtRegions(address: nat, l: SbtLayout): (rs: seq<StridedRegion>)
    requires l.WellFormed()
    ensures |rs| == 3
  {
    var raygen := StridedRegion(address, l.RegionSize(0), l.RegionSize(0));
    var miss := StridedRegion(address + raygen.size, l.RegionSize(1), l.AlignedHandleSize());
    var hit := StridedRegion(address + raygen.size + miss.size, l.RegionSize(2), l.AlignedHandleSize());
    [raygen, miss, hit]
  }

  /** The regions tile the buffer, and record k of a region (k = 0 only for ray
      generation, whose stride is its size) starts with the handle of that shader. */
  lemma RegionsAddressHandles(handles: seq<Byte>, l: SbtLayout, address: nat, g: nat, k: nat, b: nat)
    requires l.WellFormed() && l.HandleBytesNeeded() <= |handles|
    requires g < 3 && k < l.counts[g] && b < l.handleSize && (g == 0 ==> k == 0)
    ensures var rs := SbtRegions(address, l);
      && (forall h :: 0 <= h < 3 ==>
            rs[h].deviceAddress == address + l.RegionOffset(h) && rs[h].size == l.RegionSize(h))
      && rs[2].deviceAddress + rs[2].size == address + l.BufferSize()
    ensures |SbtBytes(handles, l)| == l.BufferSize()
    ensures Mul(l.HandlesBefore(g) + k, l.handleSize) + b < |handles|
    ensures var rs := SbtRegions(address, l);
      var at := rs[g].deviceAddress - address + Mul(k, rs[g].stride) + b;
      at < |SbtBytes(handles, l)|
      && SbtBytes(handles, l)[at] == handles[Mul(l.HandlesBefore(g) + k, l.handleSize) + b]
  {
    SbtBytesLength(handles, l);
    HandleInTable(handles, l, g, k, b);
  }
}
