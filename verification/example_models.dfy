/** The two ray tracing examples built on the simple glTF loader: the
    reflections demo and the Cornell box. Both upload the loader's model with
    dummy fallbacks for an empty image, sampler or texture list, build one
    bottom-level acceleration structure holding one geometry per node and a
    single top-level instance, and fill a static descriptor set and one
    dynamic set per swapchain image. */
module ExampleModels {
  import opened Wrappers
  import opened Bits
  import opened Vectors
  import Transforms
  import T = Textures
  import GT = GltfTextures
  import L = GltfLoader
  import VkGlobals
  import AS = AccelerationStructures
  import VP = ViewerPipeline

  // Reflections demo GUI

  /** Default number of bounces. */
  const MAX_DEPTH: nat := 10

  datatype Light = Light(direction: Vec3, color: Vec3)

  datatype ReflectionsGui = ReflectionsGui(light: Light, maxDepth: nat)

  /** `Gui::new`: a white light shining along (-2, -1, -2) and the default
      depth. */
  function GuiNew(): (r: ReflectionsGui)
    ensures r.maxDepth == MAX_DEPTH && IsU32(r.maxDepth)
    ensures r.light.color == ONE3 && r.light.direction == Vec3(-2.0, -1.0, -2.0)
  {
    ReflectionsGui(Light(Vec3(-2.0, -1.0, -2.0), ONE3), MAX_DEPTH)
  }

  /** The depth shown in the `i32` input field: the `u32` depth cast with
      `as`. */
  function ShownDepth(depth: nat): (r: int)
    requires IsU32(depth)
    ensures I32_MIN <= r <= I32_MAX
    ensures depth <= I32_MAX ==> r == depth
    ensures depth > I32_MAX ==> r < 0
  {
    AsI32(depth)
  }

  /** The depth read back from the field after the user's edit `input`: at
      least one, and the input itself whenever that is positive. */
  function EditDepth(input: int): (r: nat)
    requires I32_MIN <= input <= I32_MAX
    ensures 1 <= r <= I32_MAX
    ensures input >= 1 ==> r == input
    ensures input < 1 ==> r == 1
  {
    if input < 1 then 1 else input
  }

  /** A frame without an edit keeps every depth between 1 and `i32::MAX`, and
      turns 0 and the depths that wrap to negative numbers into 1. */
  lemma UneditedDepth(depth: nat)
    requires IsU32(depth)
    ensures EditDepth(ShownDepth(depth)) == (if 1 <= depth <= I32_MAX then depth else 1)
    ensures EditDepth(ShownDepth(GuiNew().maxDepth)) == MAX_DEPTH
  {
  }

  datatype LightUbo = LightUbo(direction: Vec4, color: Vec4)

  /** The light part of the scene uniform buffer: direction and colour
      extended with a zero fourth component. */
  function LightUboOf(l: Light): (r: LightUbo)
    ensures Drop(r.direction) == l.direction && r.direction.w == 0.0
    ensures Drop(r.color) == l.color && r.color.w == 0.0
  {
    LightUbo(Pad(l.direction, 0.0), Pad(l.color, 0.0))
  }

  /** The uniform buffer determines the GUI light it was filled from. */
  lemma LightUboInjective(a: Light, b: Light)
    ensures LightUboOf(a) == LightUboOf(b) <==> a == b
  {
    if LightUboOf(a) == LightUboOf(b) {
      assert Drop(LightUboOf(a).direction) == Drop(LightUboOf(b).direction);
      assert Drop(LightUboOf(a).color) == Drop(LightUboOf(b).color);
    }
  }

  // Transform buffer

  /** One row-major 3x4 matrix per node, read off the node's column-major
      transform. */
  function TransformBuffer(nodes: seq<L.Node>): (r: seq<seq<real>>)
    ensures |r| == |nodes|
    ensures forall j :: 0 <= j < |r| ==> |r[j]| == 12
  {
    seq(|nodes|, j requires 0 <= j < |nodes| =>
      Transforms.RelayoutColumns(Transforms.ColumnArrays(nodes[j].transform)))
  }

  /** Entry `j` of the buffer is the node's instance matrix, from which an
      affine transform is recovered unchanged. */
  lemma TransformBufferRows(nodes: seq<L.Node>, j: nat)
    requires j < |nodes|
    ensures TransformBuffer(nodes)[j] == Transforms.InstanceMatrix(nodes[j].transform)
    ensures Transforms.IsAffine(nodes[j].transform) ==>
      Transforms.FromInstanceMatrix(TransformBuffer(nodes)[j]) == nodes[j].transform
  {
    Transforms.RelayoutsAgree(nodes[j].transform);
    Transforms.InstanceMatrixRoundTrip(nodes[j].transform, TransformBuffer(nodes)[j]);
  }

  // Bottom-level build ranges

  /** Size of `vk::TransformMatrixKHR` in bytes. */
  const TRANSFORM_MATRIX_SIZE: nat := 48

  datatype BuildRange = BuildRange(
    firstVertex: nat, primitiveCount: nat, primitiveOffset: nat, transformOffset: nat)

  /** The build range of the geometry of node `nodeIndex`: whole triangles of
      the mesh's index slice, its byte offset in the index buffer (a `u32`
      product, `None` on overflow) and the byte offset of the node's matrix in
      the transform buffer (cast to `u32`). */
  function NodeRange(mesh: L.Mesh, nodeIndex: nat): (r: Option<BuildRange>)
    ensures r.Some? <==> mesh.indexOffset * AS.INDEX_SIZE <= U32_MAX
    ensures r.Some? ==> r.value.firstVertex == mesh.vertexOffset
    ensures r.Some? ==> 3 * r.value.primitiveCount <= mesh.indexCount < 3 * r.value.primitiveCount + 3
    ensures r.Some? ==> r.value.primitiveOffset == AS.INDEX_SIZE * mesh.indexOffset
    ensures r.Some? ==> r.value.transformOffset == AsU32(nodeIndex * TRANSFORM_MATRIX_SIZE)
  {
    var offset :- CheckedMul(mesh.indexOffset, AS.INDEX_SIZE);
    Some(BuildRange(mesh.vertexOffset, mesh.indexCount / 3, offset,
                    AsU32(nodeIndex * TRANSFORM_MATRIX_SIZE)))
  }

  /** The per-node loop of `create_bottom_as`, in node order. */
  function NodeRanges(nodes: seq<L.Node>): (r: Option<seq<BuildRange>>)
    ensures r.Some? <==> forall j :: 0 <= j < |nodes| ==> nodes[j].mesh.indexOffset * AS.INDEX_SIZE <= U32_MAX
    ensures r.Some? ==> |r.value| == |nodes|
    ensures r.Some? ==> forall j :: 0 <= j < |nodes| ==> NodeRange(nodes[j].mesh, j) == Some(r.value[j])
    decreases |nodes|
  {
    if |nodes| == 0 then Some([])
    else
      var init :- NodeRanges(nodes[..|nodes| - 1]);
      var last :- NodeRange(nodes[|nodes| - 1].mesh, |nodes| - 1);
      Some(init + [last])
  }

  /** The range of a node whose mesh lies inside the index buffer reads only
      that mesh's indices, starting at its first index, and points at the
      node's own matrix. */
  lemma RangeReadsOwnMesh(mesh: L.Mesh, nodeIndex: nat, indexCount: nat)
    requires NodeRange(mesh, nodeIndex).Some?
    requires mesh.indexOffset + mesh.indexCount <= indexCount
    ensures var rg := NodeRange(mesh, nodeIndex).value;
      && rg.primitiveOffset % AS.INDEX_SIZE == 0
      && rg.primitiveOffset / AS.INDEX_SIZE == mesh.indexOffset
      && rg.primitiveOffset / AS.INDEX_SIZE + 3 * rg.primitiveCount <= indexCount
    ensures nodeIndex * TRANSFORM_MATRIX_SIZE <= U32_MAX ==>
      && NodeRange(mesh, nodeIndex).value.transformOffset % TRANSFORM_MATRIX_SIZE == 0
      && NodeRange(mesh, nodeIndex).value.transformOffset / TRANSFORM_MATRIX_SIZE == nodeIndex
  {
  }

  // Geometry records

  datatype ReflectionsGeometry = ReflectionsGeometry(
    transform: Transforms.Matrix, baseColor: Vec4, baseColorTextureIndex: int,
    metallic: real, vertexOffset: nat, indexOffset: nat)

  /** The closest-hit shader's reading of a texture slot: negative means none. */
  function TextureOfSlot(slot: int): (r: Option<nat>)
    ensures r.Some? <==> slot >= 0
    ensures r.Some? ==> r.value == slot
  {
    if slot < 0 then None else Some(slot)
  }

  /** `GeometryInfo` of the reflections demo: the base colour texture index is
      `-1` when the material has none and otherwise cast to `i32`. */
  function ReflectionsGeometryOf(n: L.Node): (r: ReflectionsGeometry)
    ensures r.transform == n.transform && r.baseColor == n.mesh.material.baseColor
    ensures r.metallic == n.mesh.material.metallic
    ensures r.vertexOffset == n.mesh.vertexOffset && r.indexOffset == n.mesh.indexOffset
    ensures n.mesh.material.baseColorTexture.None? ==> r.baseColorTextureIndex == -1
    ensures n.mesh.material.baseColorTexture.Some? ==>
      r.baseColorTextureIndex == AsI32(n.mesh.material.baseColorTexture.value)
  {
    var tex := match n.mesh.material.baseColorTexture
      case None => -1
      case Some(i) => AsI32(i);
    ReflectionsGeometry(n.transform, n.mesh.material.baseColor, tex, n.mesh.material.metallic,
                        n.mesh.vertexOffset, n.mesh.indexOffset)
  }

  /** The shader recovers the material's texture from the record whenever the
      texture index fits an `i32`. */
  lemma GeometryTextureRoundTrip(n: L.Node)
    requires n.mesh.material.baseColorTexture.Some? ==> n.mesh.material.baseColorTexture.value <= I32_MAX
    ensures TextureOfSlot(ReflectionsGeometryOf(n).baseColorTextureIndex) == n.mesh.material.baseColorTexture
  {
  }

  datatype CornellGeometry = CornellGeometry(
    transform: Transforms.Matrix, baseColor: Vec4, emissive: Vec4, metallic: real,
    roughness: real, padding: real, vertexOffset: nat, indexOffset: nat)

  /** `GeometryInfo` of the Cornell box: the material factors, a zero padding
      word and the mesh's offsets. */
  function CornellGeometryOf(n: L.Node): (r: CornellGeometry)
    ensures r.transform == n.transform && r.padding == 0.0
    ensures r.baseColor == n.mesh.material.baseColor && r.emissive == n.mesh.material.emissive
    ensures r.metallic == n.mesh.material.metallic && r.roughness == n.mesh.material.roughness
    ensures r.vertexOffset == n.mesh.vertexOffset && r.indexOffset == n.mesh.indexOffset
  {
    var m := n.mesh.material;
    CornellGeometry(n.transform, m.baseColor, m.emissive, m.metallic, m.roughness, 0.0,
                    n.mesh.vertexOffset, n.mesh.indexOffset)
  }

  /** The geometry records of both demos, one per node in node order. */
  function ReflectionsGeometries(nodes: seq<L.Node>): (r: seq<ReflectionsGeometry>)
    ensures |r| == |nodes|
  {
    seq(|nodes|, j requires 0 <= j < |nodes| => ReflectionsGeometryOf(nodes[j]))
  }

  function CornellGeometries(nodes: seq<L.Node>): (r: seq<CornellGeometry>)
    ensures |r| == |nodes|
  {
    seq(|nodes|, j requires 0 <= j < |nodes| => CornellGeometryOf(nodes[j]))
  }

  /** Geometry `j` of the acceleration structure and record `j` of the
      geometry buffer describe the same triangles: the shader's offsets are
      the build range's first vertex and primitive offset in indices, and the
      record's transform is the one the range's transform offset selects. */
  lemma GeometriesMatchRanges(nodes: seq<L.Node>, j: nat)
    requires NodeRanges(nodes).Some? && j < |nodes|
    ensures var rg := NodeRanges(nodes).value[j];
      && ReflectionsGeometries(nodes)[j].vertexOffset == rg.firstVertex
      && CornellGeometries(nodes)[j].vertexOffset == rg.firstVertex
      && AS.INDEX_SIZE * ReflectionsGeometries(nodes)[j].indexOffset == rg.primitiveOffset
      && AS.INDEX_SIZE * CornellGeometries(nodes)[j].indexOffset == rg.primitiveOffset
    ensures j * TRANSFORM_MATRIX_SIZE <= U32_MAX ==>
      && NodeRanges(nodes).value[j].transformOffset / TRANSFORM_MATRIX_SIZE == j
      && Transforms.InstanceMatrix(ReflectionsGeometries(nodes)[j].transform) == TransformBuffer(nodes)[j]
  {
    assert NodeRange(nodes[j].mesh, j) == Some(NodeRanges(nodes).value[j]);
    TransformBufferRows(nodes, j);
  }

  // Top-level structure

  /** The single instance of both demos: identity transform, custom index 0
      with a full mask, hit group offset 0 and back-face culling disabled,
      referring to the only bottom-level structure. */
  function SingleInstance(): (r: AS.Instance)
    ensures r.transform == Transforms.InstanceMatrix(Transforms.IDENTITY_MATRIX)
    ensures AS.Low24(r.customIndexAndMask) == 0 && AS.High8(r.customIndexAndMask) == AS.FULL_MASK
    ensures AS.Low24(r.sbtOffsetAndFlags) == 0 && AS.High8(r.sbtOffsetAndFlags) == AS.CULL_DISABLE
    ensures r.blas == 0
  {
    AS.PackRoundTrip(0, AS.FULL_MASK);
    AS.PackRoundTrip(0, AS.CULL_DISABLE);
    Transforms.IdentityInstanceMatrix();
    AS.Instance([1.0, 0.0, 0.0, 0.0, 0.0, 1.0, 0.0, 0.0, 0.0, 0.0, 1.0, 0.0],
                AS.Pack24(0, AS.FULL_MASK), AS.Pack24(0, AS.CULL_DISABLE), 0)
  }

  /** `create_top_as`: one instance and a build range of one primitive. */
  function ExampleTopLevel(): (r: AS.TopLevel)
    ensures |r.instances| == 1 && r.primitiveCount == |r.instances|
    ensures r.instances[0] == SingleInstance()
  {
    AS.TopLevel([SingleInstance()], 1)
  }

  /** The instance places the model where the loader put it: its matrix reads
      back as the identity transform. */
  lemma TopLevelIsIdentity()
    ensures Transforms.FromInstanceMatrix(ExampleTopLevel().instances[0].transform) == Transforms.IDENTITY_MATRIX
  {
    Transforms.InstanceMatrixRoundTrip(Transforms.IDENTITY_MATRIX, ExampleTopLevel().instances[0].transform);
  }

  // Dummy fallbacks

  /** A resource list with the one-element fallback used when it is empty. */
  function WithDummy<X>(s: seq<X>, dummy: X): (r: seq<X>)
    ensures |r| > 0
    ensures |s| > 0 ==> r == s
    ensures |s| == 0 ==> r == [dummy]
  {
    if |s| == 0 then [dummy] else s
  }

  /** The image views: every image as an sRGB image of its size, or a 1x1
      sRGB dummy when the model has none. */
  function ExampleViews(images: seq<L.Image>): (r: seq<VkGlobals.ImageView>)
    ensures |r| == if |images| == 0 then 1 else |images|
    ensures forall j :: 0 <= j < |images| ==>
      r[j] == VkGlobals.ImageView(VkGlobals.FORMAT_R8G8B8A8_SRGB, images[j].width, images[j].height)
    ensures |images| == 0 ==> r[0] == VkGlobals.ImageView(VkGlobals.FORMAT_R8G8B8A8_SRGB, 1, 1)
  {
    WithDummy(
      seq(|images|, j requires 0 <= j < |images| =>
        VkGlobals.ImageView(VkGlobals.FORMAT_R8G8B8A8_SRGB, images[j].width, images[j].height)),
      VkGlobals.ImageView(VkGlobals.FORMAT_R8G8B8A8_SRGB, 1, 1))
  }

  /** `map_gltf_sampler` of the demos: the filters are mapped, the address
      modes keep their default, repeat. */
  function ExampleSamplerInfo(s: GT.Sampler): (r: VkGlobals.SamplerInfo)
    ensures r.magFilter == VkGlobals.MagFilterCode(s.magFilter)
    ensures r.minFilter == VkGlobals.MagFilterCode(VkGlobals.BaseFilter(s.minFilter))
    ensures r.addressU == VkGlobals.ADDRESS_REPEAT && r.addressV == VkGlobals.ADDRESS_REPEAT
  {
    VkGlobals.SamplerInfo(VkGlobals.MagFilterCode(s.magFilter), VkGlobals.MinFilterCode(s.minFilter),
                          VkGlobals.ADDRESS_REPEAT, VkGlobals.ADDRESS_REPEAT)
  }

  /** A default `vk::SamplerCreateInfo`: nearest filtering, repeat. */
  const DUMMY_SAMPLER_INFO := VkGlobals.SamplerInfo(
    VkGlobals.FILTER_NEAREST, VkGlobals.FILTER_NEAREST, VkGlobals.ADDRESS_REPEAT, VkGlobals.ADDRESS_REPEAT)

  function ExampleSamplers(ss: seq<GT.Sampler>): (r: seq<VkGlobals.SamplerInfo>)
    ensures |r| == if |ss| == 0 then 1 else |ss|
    ensures forall k :: 0 <= k < |ss| ==> r[k] == ExampleSamplerInfo(ss[k])
    ensures |ss| == 0 ==> r[0] == DUMMY_SAMPLER_INFO
  {
    WithDummy(seq(|ss|, k requires 0 <= k < |ss| => ExampleSamplerInfo(ss[k])), DUMMY_SAMPLER_INFO)
  }

  /** The demos' sampler agrees with the viewer's mapping of the same sampler
      exactly when it wraps with repeat in both directions. */
  lemma ExampleSamplerAgrees(s: GT.Sampler, index: nat)
    ensures ExampleSamplerInfo(s) == VkGlobals.MapGltfSampler(T.Sampler(s.magFilter, s.minFilter, s.wrapS, s.wrapT, index))
      <==> s.wrapS == T.WrapMode.Repeat && s.wrapT == T.WrapMode.Repeat
  {
    var v := VkGlobals.MapGltfSampler(T.Sampler(s.magFilter, s.minFilter, s.wrapS, s.wrapT, index));
    if ExampleSamplerInfo(s) == v {
      VkGlobals.AddressModeRoundTrip(s.wrapS, VkGlobals.ADDRESS_REPEAT);
      VkGlobals.AddressModeRoundTrip(s.wrapT, VkGlobals.ADDRESS_REPEAT);
    }
  }

  /** The loader always provides its default sampler in slot 0, so the demos
      never fall back to the nearest-filtering dummy: slot 0 filters
      linearly. */
  lemma LoadedSamplersNeverDummy(f: L.File)
    requires L.LoadFile(f).Success?
    ensures var ss := ExampleSamplers(L.LoadFile(f).value.samplers);
      && |ss| == |f.samplers| + 1
      && ss[0] == VkGlobals.SamplerInfo(VkGlobals.FILTER_LINEAR, VkGlobals.FILTER_LINEAR,
                                        VkGlobals.ADDRESS_REPEAT, VkGlobals.ADDRESS_REPEAT)
      && ss[0] != DUMMY_SAMPLER_INFO
  {
  }

  /** The texture table of the reflections demo: (image, sampler) per
      texture, or (0, 0) when there is none. */
  function ReflectionsTextures(ts: seq<GT.Texture>): (r: seq<(nat, nat)>)
    ensures |r| == if |ts| == 0 then 1 else |ts|
    ensures forall k :: 0 <= k < |ts| ==> r[k] == (ts[k].imageIndex, ts[k].samplerIndex)
    ensures |ts| == 0 ==> r[0] == (0, 0)
  {
    WithDummy(seq(|ts|, k requires 0 <= k < |ts| => (ts[k].imageIndex, ts[k].samplerIndex)), (0, 0))
  }

  /** The texture table of the Cornell box: (texture, image, sampler) per
      texture, the texture being identified by its position, or (0, 0, 0). */
  function CornellTextures(ts: seq<GT.Texture>): (r: seq<(nat, nat, nat)>)
    ensures |r| == if |ts| == 0 then 1 else |ts|
    ensures forall k :: 0 <= k < |ts| ==> r[k] == (k, ts[k].imageIndex, ts[k].samplerIndex)
    ensures |ts| == 0 ==> r[0] == (0, 0, 0)
  {
    WithDummy(seq(|ts|, k requires 0 <= k < |ts| => (k, ts[k].imageIndex, ts[k].samplerIndex)), (0, 0, 0))
  }

  /** Every texture entry of a loaded document binds the view of its own
      source image and the sampler the document names for it (slot 0, the
      loader's default, when it names none); the Cornell table carries the
      same pair after the texture's position. */
  lemma TexturesBindLoadedData(f: L.File, k: nat)
    requires L.LoadFile(f).Success? && k < |f.textures|
    requires f.textures[k].source < |f.images|
    requires f.textures[k].sampler.Some? ==> f.textures[k].sampler.value < |f.samplers|
    ensures var m := L.LoadFile(f).value;
      var e := ReflectionsTextures(m.textures)[k];
      var views := ExampleViews(m.images);
      var ss := ExampleSamplers(m.samplers);
      && e.0 == f.textures[k].source && e.0 < |views|
      && views[e.0] == VkGlobals.ImageView(VkGlobals.FORMAT_R8G8B8A8_SRGB,
                                           m.images[e.0].width, m.images[e.0].height)
      && e.1 < |ss|
      && (f.textures[k].sampler.None? ==> e.1 == 0 && ss[e.1] == ExampleSamplerInfo(GT.DefaultSampler()))
      && (f.textures[k].sampler.Some? ==> ss[e.1] == ExampleSamplerInfo(GT.SamplerFrom(f.samplers[f.textures[k].sampler.value])))
      && CornellTextures(m.textures)[k] == (k, e.0, e.1)
  {
    L.TextureSamplerSlot(f, k);
  }

  /** Without textures the single dummy entry still binds an existing view
      and sampler, whatever the model holds. */
  lemma DummyTextureBinds(images: seq<L.Image>, ss: seq<GT.Sampler>)
    ensures ReflectionsTextures([]) == [(0, 0)] && CornellTextures([]) == [(0, 0, 0)]
    ensures 0 < |ExampleViews(images)| && 0 < |ExampleSamplers(ss)|
  {
  }

  // Texture descriptor writes

  /** The combined image samplers of binding 6: one element per slot, unset
      until written. */
  type TextureArray = seq<Option<(VkGlobals.ImageView, VkGlobals.SamplerInfo)>>

  predicate EntriesInRange(texs: seq<(nat, nat)>, views: seq<VkGlobals.ImageView>, ss: seq<VkGlobals.SamplerInfo>) {
    forall k :: 0 <= k < |texs| ==> texs[k].0 < |views| && texs[k].1 < |ss|
  }

  /** One descriptor write of a single image sampler at array element `e`. */
  function WriteAt(arr: TextureArray, e: nat, v: (VkGlobals.ImageView, VkGlobals.SamplerInfo)): (r: TextureArray)
    ensures |r| == |arr|
    ensures e < |arr| ==> r[e] == Some(v)
    ensures forall i :: 0 <= i < |arr| && i != e ==> r[i] == arr[i]
  {
    if e < |arr| then arr[e := Some(v)] else arr
  }

  /** The texture loop of `create_descriptor_sets` as written: each write
      leaves the destination array element at its default, 0. */
  function TextureWritesAsWritten(arr: TextureArray, texs: seq<(nat, nat)>,
                                  views: seq<VkGlobals.ImageView>, ss: seq<VkGlobals.SamplerInfo>): (r: TextureArray)
    requires EntriesInRange(texs, views, ss)
    ensures |r| == |arr|
    decreases |texs|
  {
    if |texs| == 0 then arr
    else
      var n := |texs| - 1;
      WriteAt(TextureWritesAsWritten(arr, texs[..n], views, ss), 0, (views[texs[n].0], ss[texs[n].1]))
  }

  /** After the loop as written, element 0 holds the last texture and every
      other element is as it was. */
  lemma {:induction false} AsWrittenKeepsLast(arr: TextureArray, texs: seq<(nat, nat)>,
                                              views: seq<VkGlobals.ImageView>, ss: seq<VkGlobals.SamplerInfo>)
    requires EntriesInRange(texs, views, ss) && |texs| > 0 && |arr| > 0
    ensures TextureWritesAsWritten(arr, texs, views, ss)[0] == Some((views[texs[|texs| - 1].0], ss[texs[|texs| - 1].1]))
    ensures forall i :: 1 <= i < |arr| ==> TextureWritesAsWritten(arr, texs, views, ss)[i] == arr[i]
    decreases |texs|
  {
    var n := |texs| - 1;
    if n > 0 {
      AsWrittenKeepsLast(arr, texs[..n], views, ss);
    }
  }

  /** Two textures over two images: the second overwrites the first, and
      element 1 is never written. */
  lemma AsWrittenLosesFirstTexture()
    ensures var views := [VkGlobals.ImageView(VkGlobals.FORMAT_R8G8B8A8_SRGB, 1, 1),
                          VkGlobals.ImageView(VkGlobals.FORMAT_R8G8B8A8_SRGB, 2, 2)];
      var r := TextureWritesAsWritten([None, None], [(0, 0), (1, 0)], views, [DUMMY_SAMPLER_INFO]);
      && r[0] == Some((views[1], DUMMY_SAMPLER_INFO))
      && r[1] == None
  {
    var views := [VkGlobals.ImageView(VkGlobals.FORMAT_R8G8B8A8_SRGB, 1, 1),
                  VkGlobals.ImageView(VkGlobals.FORMAT_R8G8B8A8_SRGB, 2, 2)];
    AsWrittenKeepsLast([None, None], [(0, 0), (1, 0)], views, [DUMMY_SAMPLER_INFO]);
  }

  /** The intended loop: texture `k` goes to array element `k`, the slot the
      geometry records' texture index selects. */
  function TextureWrites(arr: TextureArray, texs: seq<(nat, nat)>,
                         views: seq<VkGlobals.ImageView>, ss: seq<VkGlobals.SamplerInfo>): (r: TextureArray)
    requires EntriesInRange(texs, views, ss)
    ensures |r| == |arr|
    decreases |texs|
  {
    if |texs| == 0 then arr
    else
      var n := |texs| - 1;
      WriteAt(TextureWrites(arr, texs[..n], views, ss), n, (views[texs[n].0], ss[texs[n].1]))
  }

  /** Every texture that fits the array is bound at its own element, and the
      elements past the last texture are untouched. */
  lemma {:induction false} TextureWritesBindEach(arr: TextureArray, texs: seq<(nat, nat)>,
                                                 views: seq<VkGlobals.ImageView>, ss: seq<VkGlobals.SamplerInfo>)
    requires EntriesInRange(texs, views, ss)
    ensures forall k :: 0 <= k < |texs| && k < |arr| ==>
      TextureWrites(arr, texs, views, ss)[k] == Some((views[texs[k].0], ss[texs[k].1]))
    ensures forall i :: |texs| <= i < |arr| ==> TextureWrites(arr, texs, views, ss)[i] == arr[i]
    decreases |texs|
  {
    if |texs| > 0 {
      var n := |texs| - 1;
      TextureWritesBindEach(arr, texs[..n], views, ss);
      assert forall k :: 0 <= k < n ==> texs[..n][k] == texs[k];
    }
  }

  // Descriptor pools

  datatype PoolSize = PoolSize(ty: VP.DescriptorType, count: nat)

  datatype Pool = Pool(maxSets: nat, sizes: seq<PoolSize>)

  function Provided(p: PoolSize, ty: VP.DescriptorType): nat {
    if p.ty == ty then p.count else 0
  }

  /** Descriptors of type `ty` the pool sizes provide. */
  function PoolTotal(sizes: seq<PoolSize>, ty: VP.DescriptorType): nat
    decreases |sizes|
  {
    if |sizes| == 0 then 0 else Provided(sizes[0], ty) + PoolTotal(sizes[1..], ty)
  }

  lemma PoolTotalStep(sizes: seq<PoolSize>, ty: VP.DescriptorType)
    requires |sizes| > 0
    ensures PoolTotal(sizes, ty) == Provided(sizes[0], ty) + PoolTotal(sizes[1..], ty)
  {
  }

  /** The reflections demo's pool: one static set plus one set per storage
      image (counted as `u32`; `set_count + 1` is `None` on overflow), with
      one storage image per dynamic set and one image sampler per view. */
  function ReflectionsPool(storageImages: nat, views: nat): (r: Option<Pool>)
    ensures r.Some? <==> AsU32(storageImages) < U32_MAX
    ensures r.Some? ==> r.value.maxSets == AsU32(storageImages) + 1
  {
    var setCount := AsU32(storageImages);
    var maxSets :- CheckedAdd(setCount, 1);
    Some(Pool(maxSets, [
      PoolSize(VP.AccelerationStructure, 1),
      PoolSize(VP.StorageImage, setCount),
      PoolSize(VP.UniformBuffer, 1),
      PoolSize(VP.StorageBuffer, 3),
      PoolSize(VP.CombinedImageSampler, AsU32(views))]))
  }

  /** The pool holds exactly the sets and descriptors the demo allocates and
      writes: the static set and one dynamic set per storage image, one
      acceleration structure, one uniform buffer, the vertex, index and
      geometry buffers, one storage image per dynamic set and one image
      sampler per view, the size of the texture binding. */
  lemma ReflectionsPoolFits(storageImages: nat, views: nat)
    requires storageImages < U32_MAX && IsU32(views)
    ensures var p := ReflectionsPool(storageImages, views).value;
      && p.maxSets == 1 + storageImages
      && PoolTotal(p.sizes, VP.AccelerationStructure) == 1
      && PoolTotal(p.sizes, VP.UniformBuffer) == 1
      && PoolTotal(p.sizes, VP.StorageBuffer) == 3
      && PoolTotal(p.sizes, VP.StorageImage) == storageImages
      && PoolTotal(p.sizes, VP.CombinedImageSampler) == views
  {
    var s := ReflectionsPool(storageImages, views).value.sizes;
    forall ty: VP.DescriptorType
      ensures PoolTotal(s, ty) == Provided(s[0], ty) + Provided(s[1], ty) + Provided(s[2], ty)
                                  + Provided(s[3], ty) + Provided(s[4], ty)
    {
      PoolTotalStep(s, ty);
      PoolTotalStep(s[1..], ty);
      PoolTotalStep(s[2..], ty);
      PoolTotalStep(s[3..], ty);
      PoolTotalStep(s[4..], ty);
      assert s[1..][1..] == s[2..] && s[2..][1..] == s[3..] && s[3..][1..] == s[4..] && s[4..][1..] == [];
    }
  }

  /** The Cornell box's pool: as the reflections demo's, plus one storage
      image per accumulation image. */
  function CornellPool(storageImages: nat, accImages: nat, views: nat): (r: Option<Pool>)
    ensures r.Some? <==> AsU32(storageImages) < U32_MAX
    ensures r.Some? ==> r.value.maxSets == AsU32(storageImages) + 1
  {
    var setCount := AsU32(storageImages);
    var maxSets :- CheckedAdd(setCount, 1);
    Some(Pool(maxSets, [
      PoolSize(VP.AccelerationStructure, 1),
      PoolSize(VP.StorageImage, setCount),
      PoolSize(VP.StorageImage, AsU32(accImages)),
      PoolSize(VP.UniformBuffer, 1),
      PoolSize(VP.StorageBuffer, 3),
      PoolSize(VP.CombinedImageSampler, AsU32(views))]))
  }

  /** Each Cornell dynamic set writes two storage images (the frame and the
      accumulation image), so the pool covers them exactly when there are as
      many accumulation images as storage images. */
  lemma CornellPoolFits(storageImages: nat, accImages: nat, views: nat)
    requires storageImages < U32_MAX && IsU32(accImages) && IsU32(views)
    ensures var p := CornellPool(storageImages, accImages, views).value;
      && p.maxSets == 1 + storageImages
      && PoolTotal(p.sizes, VP.StorageImage) == storageImages + accImages
      && (PoolTotal(p.sizes, VP.StorageImage) == 2 * storageImages <==> accImages == storageImages)
      && PoolTotal(p.sizes, VP.CombinedImageSampler) == views
  {
    var s := CornellPool(storageImages, accImages, views).value.sizes;
    forall ty: VP.DescriptorType
      ensures PoolTotal(s, ty) == Provided(s[0], ty) + Provided(s[1], ty) + Provided(s[2], ty)
                                  + Provided(s[3], ty) + Provided(s[4], ty) + Provided(s[5], ty)
    {
      PoolTotalStep(s, ty);
      PoolTotalStep(s[1..], ty);
      PoolTotalStep(s[2..], ty);
      PoolTotalStep(s[3..], ty);
      PoolTotalStep(s[4..], ty);
      PoolTotalStep(s[5..], ty);
      assert s[1..][1..] == s[2..] && s[2..][1..] == s[3..] && s[3..][1..] == s[4..];
      assert s[4..][1..] == s[5..] && s[5..][1..] == [];
    }
  }
}
