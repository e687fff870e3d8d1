/** The GPU-side globals of a loaded document: image formats, sampler
    create infos, the texture table the shaders index, and which storage
    buffers are created. */
module VkGlobals {
  import opened Wrappers
  import Bits
  import Pixels
  import T = Textures
  import G = GltfDocument
  import Materials
  import Lights
  import Geometry
  import SceneGraph
  import Document

  // Vulkan enumerant values

  const FORMAT_R8G8B8A8_UNORM: nat := 37
  const FORMAT_R8G8B8A8_SRGB: nat := 43
  const FILTER_NEAREST: nat := 0
  const FILTER_LINEAR: nat := 1
  const ADDRESS_REPEAT: nat := 0
  const ADDRESS_MIRRORED_REPEAT: nat := 1
  const ADDRESS_CLAMP_TO_EDGE: nat := 2

  /** `Into<vk::Format> for TexGamma`: data textures are sampled as plain
      unsigned-normalised bytes, colour textures with sRGB decoding. */
  function GammaFormat(g: Pixels.TexGamma): (r: nat)
    ensures r == FORMAT_R8G8B8A8_UNORM <==> g == Pixels.Linear
    ensures r == FORMAT_R8G8B8A8_SRGB <==> g == Pixels.Srgb
  {
    match g
    case Linear => FORMAT_R8G8B8A8_UNORM
    case Srgb => FORMAT_R8G8B8A8_SRGB
  }

  /** The gamma a format code stands for, if any. */
  function FormatGamma(code: nat): (r: Option<Pixels.TexGamma>)
    ensures r.Some? <==> code == FORMAT_R8G8B8A8_UNORM || code == FORMAT_R8G8B8A8_SRGB
  {
    if code == FORMAT_R8G8B8A8_UNORM then Some(Pixels.Linear)
    else if code == FORMAT_R8G8B8A8_SRGB then Some(Pixels.Srgb)
    else None
  }

  /** The format keeps the gamma: reading it back gives the gamma the image
      was tagged with. */
  lemma GammaFormatRoundTrip(g: Pixels.TexGamma, code: nat)
    ensures FormatGamma(GammaFormat(g)) == Some(g)
    ensures FormatGamma(code).Some? ==> GammaFormat(FormatGamma(code).value) == code
  {
  }

  /** `Into<vk::SamplerAddressMode> for WrapMode`. */
  function AddressMode(w: T.WrapMode): (r: nat)
    ensures r <= ADDRESS_CLAMP_TO_EDGE
  {
    match w
    case ClampToEdge => ADDRESS_CLAMP_TO_EDGE
    case MirroredRepeat => ADDRESS_MIRRORED_REPEAT
    case Repeat => ADDRESS_REPEAT
  }

  function WrapOfAddress(code: nat): (r: Option<T.WrapMode>)
    ensures r.Some? <==> code <= ADDRESS_CLAMP_TO_EDGE
  {
    if code == ADDRESS_CLAMP_TO_EDGE then Some(T.ClampToEdge)
    else if code == ADDRESS_MIRRORED_REPEAT then Some(T.MirroredRepeat)
    else if code == ADDRESS_REPEAT then Some(T.Repeat)
    else None
  }

  /** The address-mode map is one-to-one and onto the three address modes:
      each mode gives back its wrap mode. */
  lemma AddressModeRoundTrip(w: T.WrapMode, code: nat)
    ensures WrapOfAddress(AddressMode(w)) == Some(w)
    ensures WrapOfAddress(code).Some? ==> AddressMode(WrapOfAddress(code).value) == code
  {
  }

  function MagFilterCode(f: T.MagFilter): (r: nat)
    ensures r == FILTER_LINEAR <==> f == T.MagFilter.Linear
    ensures r == FILTER_NEAREST <==> f == T.MagFilter.Nearest
  {
    match f
    case Linear => FILTER_LINEAR
    case Nearest => FILTER_NEAREST
  }

  /** The filter a minification filter applies within one mipmap level. */
  function BaseFilter(f: T.MinFilter): (r: T.MagFilter) {
    match f
    case Linear | LinearMipmapNearest | LinearMipmapLinear => T.MagFilter.Linear
    case Nearest | NearestMipmapNearest | NearestMipmapLinear => T.MagFilter.Nearest
  }

  /** The minification filter keeps only its in-level part. */
  function MinFilterCode(f: T.MinFilter): (r: nat)
    ensures r == MagFilterCode(BaseFilter(f))
  {
    match f
    case Linear | LinearMipmapLinear | LinearMipmapNearest => FILTER_LINEAR
    case Nearest | NearestMipmapLinear | NearestMipmapNearest => FILTER_NEAREST
  }

  datatype SamplerInfo = SamplerInfo(magFilter: nat, minFilter: nat, addressU: nat, addressV: nat)

  /** `map_gltf_sampler`: `u` wraps like the texture's `s` axis and `v` like
      its `t` axis. */
  function MapGltfSampler(s: T.Sampler): (r: SamplerInfo)
    ensures WrapOfAddress(r.addressU) == Some(s.wrapS) && WrapOfAddress(r.addressV) == Some(s.wrapT)
    ensures r.magFilter == MagFilterCode(s.magFilter) && r.minFilter == MagFilterCode(BaseFilter(s.minFilter))
  {
    AddressModeRoundTrip(s.wrapS, 0);
    AddressModeRoundTrip(s.wrapT, 0);
    SamplerInfo(MagFilterCode(s.magFilter), MinFilterCode(s.minFilter), AddressMode(s.wrapS), AddressMode(s.wrapT))
  }

  /** Two samplers get the same create info exactly when they agree on the
      magnification filter, the in-level minification filter and both wrap
      modes: only the mipmap mode and the index are lost. */
  lemma SamplerInfoKeeps(s1: T.Sampler, s2: T.Sampler)
    ensures MapGltfSampler(s1) == MapGltfSampler(s2) <==>
      && s1.magFilter == s2.magFilter && BaseFilter(s1.minFilter) == BaseFilter(s2.minFilter)
      && s1.wrapS == s2.wrapS && s1.wrapT == s2.wrapT
  {
    if MapGltfSampler(s1) == MapGltfSampler(s2) {
      AddressModeRoundTrip(s1.wrapS, 0);
      AddressModeRoundTrip(s2.wrapS, 0);
      AddressModeRoundTrip(s1.wrapT, 0);
      AddressModeRoundTrip(s2.wrapT, 0);
    }
  }

  /** The default sampler's trilinear minification is created bilinear. */
  lemma DefaultSamplerInfo()
    ensures MapGltfSampler(T.DefaultSampler()) == SamplerInfo(FILTER_LINEAR, FILTER_LINEAR, ADDRESS_REPEAT, ADDRESS_REPEAT)
  {
  }

  // The texture table

  /** One texture's entry: its slot, image slot, sampler slot. */
  datatype TextureEntry = TextureEntry(texture: nat, image: nat, sampler: nat)

  /** The entry's first field is the texture's slot in the loader's list,
      which is what a material's texture reference names. */
  function TextureEntryOf(t: T.Texture): (r: TextureEntry)
    ensures r.texture == t.index && r.image == t.imageIndex && r.sampler == t.samplerIndex
  {
    TextureEntry(t.index, t.imageIndex, t.samplerIndex)
  }

  /** The texture table, in the order of the loader's texture list. */
  function TextureTable(ts: seq<T.Texture>): (r: seq<TextureEntry>)
    ensures |r| == |ts|
    ensures forall i :: 0 <= i < |ts| ==> r[i] == TextureEntryOf(ts[i])
  {
    Document.Map(ts, TextureEntryOf)
  }

  /** The image and sampler bound for one table entry: the image at the
      entry's image slot and the sampler at its sampler slot (slot `i` of the
      image views is made from image `i`); a slot past either list is an
      index panic. */
  function Bound(e: TextureEntry, images: seq<Pixels.Image>, samplers: seq<T.Sampler>): (r: Result<(Pixels.Image, T.Sampler), Document.DocError>)
    ensures r.Success? <==> e.image < |images| && e.sampler < |samplers|
    ensures r.Success? ==> r.value == (images[e.image], samplers[e.sampler])
  {
    if e.image < |images| && e.sampler < |samplers| then Success((images[e.image], samplers[e.sampler]))
    else Failure(Document.IndexMismatch)
  }

  /** Entry 0 of the table is the default texture: image slot 0 (the default
      image) and sampler slot 0 (the default sampler). */
  lemma DefaultTextureEntry(src: Document.Source, num: Geometry.Numerics)
    requires forall i :: 0 <= i < |src.images| ==> Bits.IsU32(src.images[i].width) && Bits.IsU32(src.images[i].height)
    requires Document.DocNew(src, num).Success?
    ensures var d := Document.DocNew(src, num).value;
      && 0 < |TextureTable(d.textures)| && TextureTable(d.textures)[0] == TextureEntry(0, 0, 0)
      && Bound(TextureTable(d.textures)[0], d.images, d.samplers) == Success((Pixels.DefaultImage(), T.DefaultSampler()))
  {
  }

  /** As written, the texture in slot `k + 1` (glTF texture `k`) is bound to
      the image in slot `source`, while glTF image `source` sits in slot
      `source + 1`: the texture shows the default image when it names the
      first glTF image, and the glTF image before the one it names
      otherwise. */
  lemma TextureBindsPreviousImage(src: Document.Source, num: Geometry.Numerics, k: nat)
    requires forall i :: 0 <= i < |src.images| ==> Bits.IsU32(src.images[i].width) && Bits.IsU32(src.images[i].height)
    requires Document.DocNewAsWritten(src, num).Success?
    requires k < |src.textures| && src.textures[k].source < |src.images|
    requires src.textures[k].sampler.Some? ==> src.textures[k].sampler.value < |src.samplers|
    ensures var d := Document.DocNewAsWritten(src, num).value;
      var e := TextureTable(d.textures)[k + 1];
      var j := src.textures[k].source;
      && e.texture == k + 1
      && Bound(e, d.images, d.samplers).Success?
      && Bound(e, d.images, d.samplers).value.0.index == j
      && d.images[j + 1].source == src.images[j].uri
      && (j == 0 ==> Bound(e, d.images, d.samplers).value.0 == Pixels.DefaultImage())
      && (j > 0 ==> Bound(e, d.images, d.samplers).value.0.source == src.images[j - 1].uri)
  {
    PreviousImageSlot(src, num, k);
  }

  lemma PreviousImageSlot(src: Document.Source, num: Geometry.Numerics, k: nat)
    requires forall i :: 0 <= i < |src.images| ==> Bits.IsU32(src.images[i].width) && Bits.IsU32(src.images[i].height)
    requires Document.DocNewAsWritten(src, num).Success?
    requires k < |src.textures| && src.textures[k].source < |src.images|
    requires src.textures[k].sampler.Some? ==> src.textures[k].sampler.value < |src.samplers|
    ensures var d := Document.DocNewAsWritten(src, num).value;
      var j := src.textures[k].source;
      && k + 1 < |d.textures| && d.textures[k + 1].index == k + 1
      && d.textures[k + 1].imageIndex == j && d.textures[k + 1].samplerIndex < |d.samplers|
      && j + 1 < |d.images| && d.images[j].index == j && d.images[j + 1].source == src.images[j].uri
      && (j == 0 ==> d.images[j] == Pixels.DefaultImage())
      && (j > 0 ==> d.images[j].source == src.images[j - 1].uri)
  {
    PreviousTextureSlots(src, num, k);
    PreviousImages(src, num, src.textures[k].source);
  }

  lemma PreviousTextureSlots(src: Document.Source, num: Geometry.Numerics, k: nat)
    requires forall i :: 0 <= i < |src.images| ==> Bits.IsU32(src.images[i].width) && Bits.IsU32(src.images[i].height)
    requires Document.DocNewAsWritten(src, num).Success?
    requires k < |src.textures|
    requires src.textures[k].sampler.Some? ==> src.textures[k].sampler.value < |src.samplers|
    ensures var d := Document.DocNewAsWritten(src, num).value;
      && k + 1 < |d.textures| && d.textures[k + 1].index == k + 1
      && d.textures[k + 1].imageIndex == src.textures[k].source
      && d.textures[k + 1].samplerIndex < |d.samplers|
  {
    Document.DocNewTextures(src, num, k);
  }

  lemma PreviousImages(src: Document.Source, num: Geometry.Numerics, j: nat)
    requires forall i :: 0 <= i < |src.images| ==> Bits.IsU32(src.images[i].width) && Bits.IsU32(src.images[i].height)
    requires Document.DocNewAsWritten(src, num).Success?
    requires j < |src.images|
    ensures var d := Document.DocNewAsWritten(src, num).value;
      && j + 1 < |d.images| && d.images[j].index == j && d.images[j + 1].source == src.images[j].uri
      && (j == 0 ==> d.images[j] == Pixels.DefaultImage())
      && (j > 0 ==> d.images[j].source == src.images[j - 1].uri)
  {
    Document.DocNewImages(src, Geometry.DefaultGeoBuilder(), T.TextureFrom, num, j);
    if j > 0 {
      PreviousImage(src, num, j);
    }
  }

  lemma PreviousImage(src: Document.Source, num: Geometry.Numerics, j: nat)
    requires forall i :: 0 <= i < |src.images| ==> Bits.IsU32(src.images[i].width) && Bits.IsU32(src.images[i].height)
    requires Document.DocNewAsWritten(src, num).Success?
    requires 0 < j < |src.images|
    ensures var d := Document.DocNewAsWritten(src, num).value;
      j < |d.images| && d.images[j].source == src.images[j - 1].uri
  {
    Document.DocNewImageSlot(src, Geometry.DefaultGeoBuilder(), T.TextureFrom, num, j);
  }

  /** With the image reference shifted, the texture in slot `k + 1` (glTF
      texture `k`) is bound to the decoded glTF image it names and to the
      sampler it names (slot 0, the default sampler, when it names none). */
  lemma TextureBindsOwnImage(src: Document.Source, num: Geometry.Numerics, k: nat)
    requires forall i :: 0 <= i < |src.images| ==> Bits.IsU32(src.images[i].width) && Bits.IsU32(src.images[i].height)
    requires Document.DocNew(src, num).Success?
    requires k < |src.textures| && src.textures[k].source < |src.images|
    requires src.textures[k].sampler.Some? ==> src.textures[k].sampler.value < |src.samplers|
    ensures var d := Document.DocNew(src, num).value;
      var e := TextureTable(d.textures)[k + 1];
      var j := src.textures[k].source;
      && e.texture == k + 1
      && Bound(e, d.images, d.samplers).Success?
      && Bound(e, d.images, d.samplers).value.0.index == j + 1
      && Bound(e, d.images, d.samplers).value.0.source == src.images[j].uri
      && Bound(e, d.images, d.samplers).value.0.width == src.images[j].width
      && Bound(e, d.images, d.samplers).value.0.height == src.images[j].height
      && T.SlotSampler(Bound(e, d.images, d.samplers).value.1.index) == src.textures[k].sampler
  {
    OwnImageSlot(src, num, k);
    OwnSamplerSlot(src, num, k);
  }

  lemma OwnImageSlot(src: Document.Source, num: Geometry.Numerics, k: nat)
    requires forall i :: 0 <= i < |src.images| ==> Bits.IsU32(src.images[i].width) && Bits.IsU32(src.images[i].height)
    requires Document.DocNew(src, num).Success?
    requires k < |src.textures| && src.textures[k].source < |src.images|
    ensures var d := Document.DocNew(src, num).value;
      var j := src.textures[k].source;
      && k + 1 < |d.textures| && d.textures[k + 1].index == k + 1
      && d.textures[k + 1].imageIndex == j + 1 && j + 1 < |d.images|
      && d.images[j + 1].index == j + 1 && d.images[j + 1].source == src.images[j].uri
      && d.images[j + 1].width == src.images[j].width && d.images[j + 1].height == src.images[j].height
  {
    var d, j := Document.DocNew(src, num).value, src.textures[k].source;
    Document.DocNewTextures(src, num, k);
    assert d.textures[k + 1] == T.TextureFromShifted(src.textures[k]);
    Document.DocNewImage(src, num, j);
  }

  lemma OwnSamplerSlot(src: Document.Source, num: Geometry.Numerics, k: nat)
    requires forall i :: 0 <= i < |src.images| ==> Bits.IsU32(src.images[i].width) && Bits.IsU32(src.images[i].height)
    requires Document.DocNew(src, num).Success?
    requires k < |src.textures|
    requires src.textures[k].sampler.Some? ==> src.textures[k].sampler.value < |src.samplers|
    ensures var d := Document.DocNew(src, num).value;
      && k + 1 < |d.textures| && d.textures[k + 1].samplerIndex < |d.samplers|
      && T.SlotSampler(d.samplers[d.textures[k + 1].samplerIndex].index) == src.textures[k].sampler
  {
    Document.DocNewTextures(src, num, k);
    var d := Document.DocNew(src, num).value;
    var slot := d.textures[k + 1].samplerIndex;
    assert slot < |d.samplers| && d.samplers[slot].index == slot;
  }

  /** A material's texture reference `1 + index` selects, in the texture
      table, the entry made from the very glTF texture it refers to, and that
      entry's first field repeats the reference. */
  lemma TextureRefSelectsOwnEntry(src: Document.Source, num: Geometry.Numerics, ref: G.TextureRef)
    requires forall i :: 0 <= i < |src.images| ==> Bits.IsU32(src.images[i].width) && Bits.IsU32(src.images[i].height)
    requires Document.DocNew(src, num).Success?
    requires ref.texture.index < |src.textures| && src.textures[ref.texture.index] == ref.texture
    requires ref.texture.index < Bits.I32_MAX
    ensures var d := Document.DocNew(src, num).value;
      var slot := Materials.TextureInfoNew(Some(ref)).textureIndex;
      var table := TextureTable(d.textures);
      && 0 < slot < |table|
      && d.textures[slot] == T.TextureFromShifted(ref.texture)
      && table[slot] == TextureEntryOf(T.TextureFromShifted(ref.texture))
      && table[slot].texture == slot
  {
    Document.DocNewTextures(src, num, ref.texture.index);
  }

  /** In particular, material `i`'s base-colour reference selects its own
      texture's entry. */
  lemma BaseColorSelectsOwnEntry(src: Document.Source, num: Geometry.Numerics, i: nat)
    requires forall i :: 0 <= i < |src.images| ==> Bits.IsU32(src.images[i].width) && Bits.IsU32(src.images[i].height)
    requires Document.DocNew(src, num).Success?
    requires i < |src.materials| && src.materials[i].pbr.baseColorTexture.Some?
    requires var t := src.materials[i].pbr.baseColorTexture.value.texture;
      t.index < |src.textures| && src.textures[t.index] == t && t.index < Bits.I32_MAX
    ensures var d := Document.DocNew(src, num).value;
      var t := src.materials[i].pbr.baseColorTexture.value.texture;
      var slot := d.materials[i].baseColorTexture.textureIndex;
      && 0 < slot < |d.textures| && slot == t.index + 1
      && TextureTable(d.textures)[slot] == TextureEntryOf(T.TextureFromShifted(t))
  {
    TextureRefSelectsOwnEntry(src, num, src.materials[i].pbr.baseColorTexture.value);
  }

  // Globals and buffers

  datatype ImageView = ImageView(format: nat, width: nat, height: nat)

  function ViewOf(i: Pixels.Image): (r: ImageView)
    ensures FormatGamma(r.format) == Some(i.gamma) && r.width == i.width && r.height == i.height
  {
    GammaFormatRoundTrip(i.gamma, 0);
    ImageView(GammaFormat(i.gamma), i.width, i.height)
  }

  datatype VkGlobal<Skin> = VkGlobal(
    views: seq<ImageView>, samplers: seq<SamplerInfo>, textures: seq<TextureEntry>,
    primInfo: seq<Geometry.PrimInfo>, materials: seq<Materials.MaterialRaw>,
    dLights: seq<Lights.LightRaw>, pLights: seq<Lights.LightRaw>, skins: seq<Skin>)

  /** `create_global`: one view per document image and one sampler per
      document sampler, in order; the texture table; one geometry record per
      geometry; the raw materials; the two light lists. Skinning data is
      passed in. */
  function CreateGlobal<Skin>(d: Document.Doc, skins: seq<Skin>): (r: Result<VkGlobal<Skin>, SceneGraph.SceneError>)
    ensures r.Success? <==> SceneGraph.GetLightsRaw(d.graph, d.lights).Success?
    ensures r.Success? ==> var g := r.value;
      && |g.views| == |d.images| && |g.samplers| == |d.samplers| && |g.textures| == |d.textures|
      && (forall i :: 0 <= i < |d.images| ==> g.views[i] == ViewOf(d.images[i]))
      && (forall i :: 0 <= i < |d.samplers| ==> g.samplers[i] == MapGltfSampler(d.samplers[i]))
      && g.textures == TextureTable(d.textures)
      && g.primInfo == Geometry.Flatten(d.builder)
      && |g.materials| == |d.materials|
      && (forall i :: 0 <= i < |d.materials| ==> g.materials[i] == Materials.ToRaw(d.materials[i]))
      && (g.dLights, g.pLights) == SceneGraph.GetLightsRaw(d.graph, d.lights).value
      && g.skins == skins
  {
    var lights :- SceneGraph.GetLightsRaw(d.graph, d.lights);
    Success(VkGlobal(
      Document.Map(d.images, ViewOf), Document.Map(d.samplers, MapGltfSampler), TextureTable(d.textures),
      Geometry.Flatten(d.builder), Document.Map(d.materials, Materials.ToRaw), lights.0, lights.1, skins))
  }

  datatype Buffers<Skin> = Buffers(
    vertices: seq<Geometry.Vertex>, animation: Option<(seq<Skin>, seq<Geometry.Vertex>)>,
    indices: seq<nat>, geo: seq<Geometry.PrimInfo>, materials: seq<Materials.MaterialRaw>,
    dLights: seq<Lights.LightRaw>, pLights: seq<Lights.LightRaw>)

  /** `Buffers::new`: the shared vertex and index arrays, the per-geometry
      records, the materials and the lights; the animation pair (the joint
      matrices and a second copy of the vertices for the skinned result)
      only when the document has skins. */
  function BuffersNew<Skin>(b: Geometry.GeoBuilder, g: VkGlobal<Skin>): (r: Buffers<Skin>)
    ensures r.animation.Some? <==> |g.skins| > 0
    ensures r.animation.Some? ==> r.animation.value == (g.skins, r.vertices)
    ensures r.vertices == b.vertices && r.indices == b.indices && r.geo == g.primInfo
    ensures r.materials == g.materials && r.dLights == g.dLights && r.pLights == g.pLights
  {
    var noSkin := |g.skins| == 0;
    var animation := if !noSkin then Some((g.skins, b.vertices)) else None;
    Buffers(b.vertices, animation, b.indices, g.primInfo, g.materials, g.dLights, g.pLights)
  }

  /** Every geometry record the shaders read points into the uploaded
      arrays at that geometry's own slice. */
  lemma GeometryRecordsLocate<Skin>(b: Geometry.GeoBuilder, g: VkGlobal<Skin>, k: nat)
    requires Geometry.Tracks(b) && |b.indices| <= Bits.U32_MAX && |b.vertices| <= Bits.U32_MAX
    requires g.primInfo == Geometry.Flatten(b) && k < |g.primInfo|
    ensures var buf := BuffersNew(b, g);
      && buf.geo[k].vOffset == Geometry.VertexTotal(b.len[..k])
      && buf.geo[k].iOffset == Geometry.IndexTotal(b.len[..k])
      && buf.geo[k].iOffset <= |buf.indices| && buf.geo[k].vOffset <= |buf.vertices|
      && buf.geo[k].materialId == b.materialId[k]
  {
    PrefixTotals(b.len, k);
  }

  lemma {:induction false} PrefixTotals(len: seq<Geometry.Lengths>, k: nat)
    requires k <= |len|
    ensures Geometry.IndexTotal(len[..k]) <= Geometry.IndexTotal(len)
    ensures Geometry.VertexTotal(len[..k]) <= Geometry.VertexTotal(len)
    decreases |len|
  {
    if k < |len| {
      var init := len[..|len| - 1];
      assert init[..k] == len[..k] by {
        assert k <= |init|;
      }
      PrefixTotals(init, k);
    } else {
      assert len[..k] == len;
    }
  }
}
