/** Ray tracing pipeline creation: how the list of shaders becomes shader stages,
    shader group records and the per-kind counts the shader binding table needs. */
module RayTracingPipeline {
  import opened Wrappers
  import opened Bits

  datatype ShaderGroup = RayGen | Miss | ClosestHit | AnyHit | ShadowAnyHit | ShadowMiss

  datatype GroupType = General | TrianglesHitGroup

  /** `VK_SHADER_UNUSED_KHR`, i.e. `~0U`. */
  const SHADER_UNUSED: nat := 0xFFFF_FFFF

  /** The pipeline always asks for two levels of ray recursion. */
  const MAX_PIPELINE_RAY_RECURSION_DEPTH: nat := 2

  datatype GroupRecord = GroupRecord(
    ty: GroupType, general: nat, closestHit: nat, anyHit: nat, intersection: nat)

  datatype ShaderGroupInfo = ShaderGroupInfo(
    groupCount: nat, raygenCount: nat, missCount: nat, hitCount: nat)

  datatype PipelineDesc = PipelineDesc(
    stages: seq<ShaderGroup>, groups: seq<GroupRecord>, info: ShaderGroupInfo,
    maxRecursionDepth: nat)

  /** The two `assert!`s of the first pass, and a `u32` count that leaves its
      range (the group count underflowing, or a per-kind count overflowing). */
  datatype PipelineError = DuplicateAnyHit | DuplicateShadowAnyHit | CountOverflow

  function Count(shaders: seq<ShaderGroup>, g: ShaderGroup): nat {
    if |shaders| == 0 then 0
    else (if shaders[|shaders| - 1] == g then 1 else 0) + Count(shaders[..|shaders| - 1], g)
  }

  predicate IsGeneral(g: ShaderGroup) { g == RayGen || g == Miss || g == ShadowMiss }

  /** First pass: remember the index of the any-hit and shadow any-hit shader,
      failing on the second occurrence of either. */
  function ScanAnyHits(shaders: seq<ShaderGroup>, i: nat, anyhit: Option<nat>, shadow: Option<nat>)
    : (r: Result<(Option<nat>, Option<nat>), PipelineError>)
    requires i <= |shaders|
    ensures r.Failure? ==> r.error != CountOverflow
    ensures r.Success? && anyhit.Some? ==> r.value.0 == anyhit
    ensures r.Success? && shadow.Some? ==> r.value.1 == shadow
    ensures r.Success? && anyhit.None? && r.value.0.Some? ==>
      i <= r.value.0.value < |shaders| && shaders[r.value.0.value] == AnyHit
    ensures r.Success? && shadow.None? && r.value.1.Some? ==>
      i <= r.value.1.value < |shaders| && shaders[r.value.1.value] == ShadowAnyHit
    decreases |shaders| - i
  {
    if i == |shaders| then Success((anyhit, shadow))
    else match shaders[i]
      case AnyHit =>
        if anyhit.Some? then Failure(DuplicateAnyHit)
        else ScanAnyHits(shaders, i + 1, Some(i), shadow)
      case ShadowAnyHit =>
        if shadow.Some? then Failure(DuplicateShadowAnyHit)
        else ScanAnyHits(shaders, i + 1, anyhit, Some(i))
      case _ => ScanAnyHits(shaders, i + 1, anyhit, shadow)
  }

  /** The group record of the shader at `index`; `AnyHit` never gets one.
      Shader indices are stored `as u32`. */
  function GroupFor(g: ShaderGroup, index: nat, anyhit: Option<nat>): (r: GroupRecord)
    requires g != AnyHit
    ensures r.ty == TrianglesHitGroup <==> !IsGeneral(g)
    ensures r.intersection == SHADER_UNUSED
    ensures IsGeneral(g) ==> r.general == AsU32(index) && r.closestHit == r.anyHit == SHADER_UNUSED
    ensures g == ClosestHit ==> r.general == SHADER_UNUSED && r.closestHit == AsU32(index)
    ensures g == ClosestHit ==> (r.anyHit == SHADER_UNUSED <==> anyhit.None? || AsU32(anyhit.value) == SHADER_UNUSED)
    ensures g == ShadowAnyHit ==> r.general == r.closestHit == SHADER_UNUSED && r.anyHit == AsU32(index)
  {
    var base := GroupRecord(General, SHADER_UNUSED, SHADER_UNUSED, SHADER_UNUSED, SHADER_UNUSED);
    match g
    case ClosestHit =>
      base.(ty := TrianglesHitGroup, closestHit := AsU32(index),
            anyHit := if anyhit.Some? then AsU32(anyhit.value) else SHADER_UNUSED)
    case ShadowAnyHit => base.(ty := TrianglesHitGroup, anyHit := AsU32(index))
    case _ => base.(general := AsU32(index))
  }

  /** Indices of the shaders that get a group, in order. */
  function GroupedIndices(shaders: seq<ShaderGroup>, i: nat): (r: seq<nat>)
    requires i <= |shaders|
    ensures forall k :: 0 <= k < |r| ==> i <= r[k] < |shaders| && shaders[r[k]] != AnyHit
    ensures forall k, l :: 0 <= k < l < |r| ==> r[k] < r[l]
    decreases |shaders| - i
  {
    if i == |shaders| then []
    else if shaders[i] == AnyHit then GroupedIndices(shaders, i + 1)
    else [i] + GroupedIndices(shaders, i + 1)
  }

  /** One record per shader that is not the any-hit shader, in shader order. */
  function Groups(shaders: seq<ShaderGroup>, anyhit: Option<nat>): (r: seq<GroupRecord>)
    ensures |r| == |shaders| - Count(shaders, AnyHit)
    ensures forall k :: 0 <= k < |r| ==> r[k].intersection == SHADER_UNUSED
  {
    var idx := GroupedIndices(shaders, 0);
    GroupedIndicesCount(shaders, 0);
    assert shaders[0..] == shaders;
    seq(|idx|, k requires 0 <= k < |idx| => GroupFor(shaders[idx[k]], idx[k], anyhit))
  }

  /** `RayTracingPipeline::new` without the driver calls: one stage per shader,
      one group per shader that is not the any-hit shader, and the counts. The
      group count is `shaders.len() as u32` less one for an any-hit shader, so it
      wraps for more than 2^32 - 1 shaders and underflows when the cast length is
      0; the per-kind counts are `u32` and overflow past 2^32 - 1. */
  function PipelineNew(shaders: seq<ShaderGroup>, requestedDepth: nat): (r: Result<PipelineDesc, PipelineError>)
    ensures r.Success? <==>
      && Count(shaders, AnyHit) <= 1 && Count(shaders, ShadowAnyHit) <= 1
      && Count(shaders, AnyHit) <= AsU32(|shaders|)
      && Count(shaders, RayGen) <= U32_MAX
      && Count(shaders, Miss) + Count(shaders, ShadowMiss) <= U32_MAX
      && Count(shaders, ClosestHit) + Count(shaders, ShadowAnyHit) <= U32_MAX
    ensures r.Success? ==>
      var d := r.value;
      && d.stages == shaders
      && |d.groups| == |shaders| - Count(shaders, AnyHit)
      && d.info.groupCount == AsU32(|shaders|) - Count(shaders, AnyHit)
      && (|shaders| <= U32_MAX ==> d.info.groupCount == |d.groups|)
      && d.info.raygenCount == Count(shaders, RayGen)
      && d.info.missCount == Count(shaders, Miss) + Count(shaders, ShadowMiss)
      && d.info.hitCount == Count(shaders, ClosestHit) + Count(shaders, ShadowAnyHit)
      && d.info.raygenCount + d.info.missCount + d.info.hitCount == |d.groups|
      && d.maxRecursionDepth == MAX_PIPELINE_RAY_RECURSION_DEPTH
  {
    ScanAnyHitsSpec(shaders, 0, None, None);
    assert shaders[0..] == shaders;
    var (anyhit, _) :- ScanAnyHits(shaders, 0, None, None);
    var removed := if anyhit.Some? then 1 else 0;
    if AsU32(|shaders|) < removed then Failure(CountOverflow)
    else
      var raygen := Count(shaders, RayGen);
      var miss := Count(shaders, Miss) + Count(shaders, ShadowMiss);
      var hit := Count(shaders, ClosestHit) + Count(shaders, ShadowAnyHit);
      if raygen > U32_MAX || miss > U32_MAX || hit > U32_MAX then Failure(CountOverflow)
      else
        CountPartition(shaders);
        var info := ShaderGroupInfo(AsU32(|shaders|) - removed, raygen, miss, hit);
        Success(PipelineDesc(shaders, Groups(shaders, anyhit), info, MAX_PIPELINE_RAY_RECURSION_DEPTH))
  }

  function CountFrom(shaders: seq<ShaderGroup>, i: nat, g: ShaderGroup): nat
    requires i <= |shaders|
  {
    Count(shaders[i..], g)
  }

  lemma {:induction false} CountSnoc(s: seq<ShaderGroup>, x: ShaderGroup, g: ShaderGroup)
    ensures Count(s + [x], g) == Count(s, g) + (if x == g then 1 else 0)
  {
    assert (s + [x])[..|s|] == s;
  }

  lemma {:induction false} CountCons(x: ShaderGroup, s: seq<ShaderGroup>, g: ShaderGroup)
    ensures Count([x] + s, g) == Count(s, g) + (if x == g then 1 else 0)
    decreases |s|
  {
    if |s| > 0 {
      var s' := s[..|s| - 1];
      assert ([x] + s)[..|s|] == [x] + s';
      CountCons(x, s', g);
    }
  }

  /** The scan succeeds exactly when neither kind of any-hit shader repeats, and
      then it reports whether an any-hit shader exists. */
  lemma {:induction false} ScanAnyHitsSpec(shaders: seq<ShaderGroup>, i: nat, anyhit: Option<nat>, shadow: Option<nat>)
    requires i <= |shaders|
    ensures var r := ScanAnyHits(shaders, i, anyhit, shadow);
      && (r.Success? <==>
            (if anyhit.Some? then 1 else 0) + CountFrom(shaders, i, AnyHit) <= 1
            && (if shadow.Some? then 1 else 0) + CountFrom(shaders, i, ShadowAnyHit) <= 1)
      && (r.Success? ==> (r.value.0.Some? <==> anyhit.Some? || CountFrom(shaders, i, AnyHit) > 0))
    decreases |shaders| - i
  {
    if i < |shaders| {
      assert shaders[i..] == [shaders[i]] + shaders[i + 1..];
      CountCons(shaders[i], shaders[i + 1..], AnyHit);
      CountCons(shaders[i], shaders[i + 1..], ShadowAnyHit);
      match shaders[i]
      case AnyHit => ScanAnyHitsSpec(shaders, i + 1, Some(i), shadow);
      case ShadowAnyHit => ScanAnyHitsSpec(shaders, i + 1, anyhit, Some(i));
      case _ => ScanAnyHitsSpec(shaders, i + 1, anyhit, shadow);
    }
  }

  /** Every shader is of exactly one kind. */
  lemma {:induction false} CountPartition(s: seq<ShaderGroup>)
    ensures Count(s, RayGen) + Count(s, Miss) + Count(s, ClosestHit) + Count(s, AnyHit)
      + Count(s, ShadowAnyHit) + Count(s, ShadowMiss) == |s|
  {
    if |s| > 0 {
      CountPartition(s[..|s| - 1]);
    }
  }

  lemma {:induction false} GroupedIndicesCount(shaders: seq<ShaderGroup>, i: nat)
    requires i <= |shaders|
    ensures |GroupedIndices(shaders, i)| == |shaders| - i - CountFrom(shaders, i, AnyHit)
    decreases |shaders| - i
  {
    if i < |shaders| {
      assert shaders[i..] == [shaders[i]] + shaders[i + 1..];
      CountCons(shaders[i], shaders[i + 1..], AnyHit);
      GroupedIndicesCount(shaders, i + 1);
    }
  }

  /** Every shader other than the any-hit shader owns exactly one group, in shader order. */
  lemma {:induction false} GroupedIndicesComplete(shaders: seq<ShaderGroup>, i: nat, j: nat)
    requires i <= j < |shaders| && shaders[j] != AnyHit
    ensures j in GroupedIndices(shaders, i)
    decreases |shaders| - i
  {
    if i < j {
      GroupedIndicesComplete(shaders, i + 1, j);
    }
  }

  /** What the group record of shader `j` says: a general shader names itself in the
      general slot, a closest-hit group names itself and the any-hit shader if there
      is one, a shadow any-hit group names itself in the any-hit slot; every other
      slot is unused. */
  predicate RecordDescribes(shaders: seq<ShaderGroup>, rec: GroupRecord, j: nat)
    requires j < |shaders|
  {
    match shaders[j]
    case ClosestHit =>
      && rec.ty == TrianglesHitGroup && rec.general == SHADER_UNUSED && rec.closestHit == j
      && rec.intersection == SHADER_UNUSED
      && (rec.anyHit == SHADER_UNUSED <==> Count(shaders, AnyHit) == 0)
      && (rec.anyHit != SHADER_UNUSED ==> rec.anyHit < |shaders| && shaders[rec.anyHit] == AnyHit)
    case ShadowAnyHit => rec == GroupRecord(TrianglesHitGroup, SHADER_UNUSED, SHADER_UNUSED, j, SHADER_UNUSED)
    case AnyHit => false
    case _ => rec == GroupRecord(General, j, SHADER_UNUSED, SHADER_UNUSED, SHADER_UNUSED)
  }

  /** The k-th group belongs to the k-th shader that is not the any-hit shader and
      describes it; with `GroupedIndicesComplete` every such shader has its group. */
  lemma GroupRecordsCorrect(shaders: seq<ShaderGroup>, depth: nat)
    requires |shaders| <= U32_MAX
    requires PipelineNew(shaders, depth).Success?
    ensures var d := PipelineNew(shaders, depth).value;
      var idx := GroupedIndices(shaders, 0);
      && |d.groups| == |idx|
      && forall k :: 0 <= k < |d.groups| ==> RecordDescribes(shaders, d.groups[k], idx[k])
  {
    var d := PipelineNew(shaders, depth).value;
    ScanAnyHitsSpec(shaders, 0, None, None);
    ScanAnyHitIndex(shaders, 0, None, None);
    assert shaders[0..] == shaders;
    var anyhit := ScanAnyHits(shaders, 0, None, None).value.0;
    assert d.groups == Groups(shaders, anyhit);
  }

  /** The remembered any-hit index points at an any-hit shader, and one exists
      exactly when the count is positive. */
  lemma {:induction false} ScanAnyHitIndex(shaders: seq<ShaderGroup>, i: nat, anyhit: Option<nat>, shadow: Option<nat>)
    requires i <= |shaders|
    requires anyhit.Some? ==> anyhit.value < i && shaders[anyhit.value] == AnyHit
    requires ScanAnyHits(shaders, i, anyhit, shadow).Success?
    ensures var a := ScanAnyHits(shaders, i, anyhit, shadow).value.0;
      a.Some? ==> a.value < |shaders| && shaders[a.value] == AnyHit
    decreases |shaders| - i
  {
    if i < |shaders| {
      match shaders[i]
      case AnyHit => ScanAnyHitIndex(shaders, i + 1, Some(i), shadow);
      case ShadowAnyHit => ScanAnyHitIndex(shaders, i + 1, anyhit, Some(i));
      case _ => ScanAnyHitIndex(shaders, i + 1, anyhit, shadow);
    }
  }
}
