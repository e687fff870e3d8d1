/** The glTF viewer's ray tracing pipeline resources: which shaders it hands to the
    pipeline and which descriptor bindings its two set layouts declare. */
module ViewerPipeline {
  import opened RayTracingPipeline
  import opened Bits

  /** Shader list handed to `RayTracingPipeline::new`: ray generation, the primary
      miss, the shadow miss (declared with the plain `Miss` group), closest hit, and
      an any-hit shader only when some material is not opaque. */
  function ViewerShaders(fullyOpaque: bool): (r: seq<ShaderGroup>)
    ensures |r| == if fullyOpaque then 4 else 5
    ensures r[..4] == [RayGen, Miss, Miss, ClosestHit]
    ensures (AnyHit in r) <==> !fullyOpaque
  {
    var base := [RayGen, Miss, Miss, ClosestHit];
    if fullyOpaque then base else base + [AnyHit]
  }

  /** Requested recursion depth written in the pipeline create info. */
  const VIEWER_RECURSION_DEPTH: nat := 2

  /** Whatever the opacity, the pipeline is built, has four groups (one ray
      generation, two miss, one hit) and the closest-hit group refers to the any-hit
      shader exactly when the scene is not fully opaque. */
  lemma ViewerPipelineGroups(fullyOpaque: bool)
    ensures var r := PipelineNew(ViewerShaders(fullyOpaque), VIEWER_RECURSION_DEPTH);
      && r.Success?
      && r.value.stages == ViewerShaders(fullyOpaque)
      && r.value.info == ShaderGroupInfo(4, 1, 2, 1)
      && |r.value.groups| == 4
      && r.value.groups[3].ty == TrianglesHitGroup
      && r.value.groups[3].closestHit == 3
      && r.value.groups[3].anyHit == (if fullyOpaque then SHADER_UNUSED else 4)
  {
    var s := ViewerShaders(fullyOpaque);
    assert s[0] == RayGen && s[1] == Miss && s[2] == Miss && s[3] == ClosestHit;
    CountsOfViewerShaders(fullyOpaque);
    var r := PipelineNew(s, VIEWER_RECURSION_DEPTH);
    GroupRecordsCorrect(s, VIEWER_RECURSION_DEPTH);
    var idx := GroupedIndices(s, 0);
    IncreasingIdentity(idx, s);
    assert RecordDescribes(s, r.value.groups[3], 3);
    if !fullyOpaque {
      assert r.value.groups[3].anyHit != SHADER_UNUSED;
      assert s[r.value.groups[3].anyHit] == AnyHit;
    }
  }

  /** The per-kind counts of the viewer's shader list. */
  lemma CountsOfViewerShaders(fullyOpaque: bool)
    ensures var s := ViewerShaders(fullyOpaque);
      && Count(s, RayGen) == 1 && Count(s, Miss) == 2 && Count(s, ShadowMiss) == 0
      && Count(s, ClosestHit) == 1 && Count(s, ShadowAnyHit) == 0
      && Count(s, AnyHit) == (if fullyOpaque then 0 else 1)
  {
    var s := ViewerShaders(fullyOpaque);
    var b := [RayGen, Miss, Miss, ClosestHit];
    forall g: ShaderGroup
      ensures Count(b, g) == Count([RayGen, Miss, Miss], g) + (if g == ClosestHit then 1 else 0)
      ensures Count([RayGen, Miss, Miss], g) == Count([RayGen, Miss], g) + (if g == Miss then 1 else 0)
      ensures Count([RayGen, Miss], g) == Count([RayGen], g) + (if g == Miss then 1 else 0)
      ensures Count([RayGen], g) == Count([], g) + (if g == RayGen then 1 else 0)
      ensures Count(b + [AnyHit], g) == Count(b, g) + (if g == AnyHit then 1 else 0)
    {
      CountSnoc([RayGen, Miss, Miss], ClosestHit, g);
      assert [RayGen, Miss, Miss] + [ClosestHit] == b;
      CountSnoc([RayGen, Miss], Miss, g);
      assert [RayGen, Miss] + [Miss] == [RayGen, Miss, Miss];
      CountSnoc([RayGen], Miss, g);
      assert [RayGen] + [Miss] == [RayGen, Miss];
      CountSnoc([], RayGen, g);
      assert [] + [RayGen] == [RayGen];
      CountSnoc(b, AnyHit, g);
    }
  }

  /** When none of the first four shaders is an any-hit shader, they own the first
      four groups. */
  lemma IncreasingIdentity(idx: seq<nat>, s: seq<ShaderGroup>)
    requires |s| >= 4 && s[0] != AnyHit && s[1] != AnyHit && s[2] != AnyHit && s[3] != AnyHit
    requires idx == GroupedIndices(s, 0)
    ensures |idx| >= 4 && idx[0] == 0 && idx[1] == 1 && idx[2] == 2 && idx[3] == 3
  {
    var t1 := GroupedIndices(s, 1);
    var t2 := GroupedIndices(s, 2);
    var t3 := GroupedIndices(s, 3);
    var t4 := GroupedIndices(s, 4);
    assert t3 == [3] + t4;
    assert t2 == [2] + t3;
    assert t1 == [1] + t2;
    assert idx == [0] + t1;
  }

  datatype DescriptorType =
    AccelerationStructure | UniformBuffer | StorageBuffer | CombinedImageSampler | StorageImage

  /** Binding slots of the viewer's shaders, by the name the source gives them. */
  datatype Slot =
    AsBind | UniformBind | VertexBind | IndexBind | GeoBind | TextureBind | MatBind
    | DLightBind | PLightBind | SkyboxBind | StorageBind | AccBind

  datatype Binding = Binding(slot: Slot, ty: DescriptorType, count: nat)

  /** Bindings of the static set layout; the texture array is sized by the number of
      textures in the scene, cast to the `u32` descriptor count. */
  function StaticBindings(textureCount: nat): (r: seq<Binding>)
    ensures |r| == 10
    ensures forall i :: 0 <= i < |r| ==> (r[i].slot == TextureBind <==> i == 5)
    ensures r[5] == Binding(TextureBind, CombinedImageSampler, AsU32(textureCount))
    ensures textureCount <= U32_MAX ==> r[5].count == textureCount
    ensures forall i :: 0 <= i < |r| && i != 5 ==> r[i].count == 1
  {
    [ Binding(AsBind, AccelerationStructure, 1),
      Binding(UniformBind, UniformBuffer, 1),
      Binding(VertexBind, StorageBuffer, 1),
      Binding(IndexBind, StorageBuffer, 1),
      Binding(GeoBind, StorageBuffer, 1),
      Binding(TextureBind, CombinedImageSampler, AsU32(textureCount)),
      Binding(MatBind, StorageBuffer, 1),
      Binding(DLightBind, StorageBuffer, 1),
      Binding(PLightBind, StorageBuffer, 1),
      Binding(SkyboxBind, CombinedImageSampler, 1) ]
  }

  /** Bindings of the per-frame set layout: the two storage images. */
  function DynamicBindings(): (r: seq<Binding>)
    ensures |r| == 2
    ensures forall i :: 0 <= i < |r| ==> r[i].ty == StorageImage && r[i].count == 1
    ensures r[0].slot == StorageBind && r[1].slot == AccBind
  {
    [Binding(StorageBind, StorageImage, 1), Binding(AccBind, StorageImage, 1)]
  }

  function TotalCount(bs: seq<Binding>): nat {
    if |bs| == 0 then 0 else bs[0].count + TotalCount(bs[1..])
  }

  /** The static layout declares one descriptor per binding plus one per texture
      beyond the first, i.e. nine single descriptors and the texture array; past
      2^32 - 1 textures the array's count wraps. */
  lemma {:induction false} StaticDescriptorTotal(textureCount: nat)
    ensures TotalCount(StaticBindings(textureCount)) == 9 + AsU32(textureCount)
    ensures textureCount <= U32_MAX ==> TotalCount(StaticBindings(textureCount)) == 9 + textureCount
  {
    var r := StaticBindings(textureCount);
    SumOfOnesAndOne(r, 5);
  }

  lemma {:induction false} SumOfOnesAndOne(bs: seq<Binding>, j: nat)
    requires j < |bs|
    requires forall i :: 0 <= i < |bs| && i != j ==> bs[i].count == 1
    ensures TotalCount(bs) == |bs| - 1 + bs[j].count
    decreases |bs|
  {
    if j == 0 {
      AllOnes(bs[1..]);
    } else {
      SumOfOnesAndOne(bs[1..], j - 1);
    }
  }

  lemma {:induction false} AllOnes(bs: seq<Binding>)
    requires forall i :: 0 <= i < |bs| ==> bs[i].count == 1
    ensures TotalCount(bs) == |bs|
    decreases |bs|
  {
    if |bs| > 0 {
      AllOnes(bs[1..]);
    }
  }
}
