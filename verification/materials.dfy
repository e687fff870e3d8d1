/** Materials of the asset loader and their GPU layout. Texture references are
    shifted by one (slot 0 of the loader's texture list is a default texture)
    and stored as `i32`, with -1 meaning "no texture". */
module Materials {
  import opened Wrappers
  import opened Bits
  import opened Vectors
  import G = GltfDocument

  /** Used for a glTF material without an index (the crate's default material). */
  const DEFAULT_MATERIAL_INDEX: nat := 0

  /** Default alpha cutoff of section 5.19 of the glTF 2.0 specification. */
  const DEFAULT_ALPHA_CUTOFF: real := 0.5

  /** Default index of refraction of KHR_materials_ior. */
  const DEFAULT_IOR: real := 1.5

  datatype TextureInfo = TextureInfo(textureIndex: int, texCoord: int)

  /** `TextureInfo::default()`. */
  const NO_TEXTURE := TextureInfo(-1, -1)

  /** `TextureInfo::new` (and its normal and occlusion variants): a present
      reference becomes `1 + index` and its coordinate set, both cast to `i32`. */
  function TextureInfoNew(info: Option<G.TextureRef>): (r: TextureInfo)
    ensures info.None? ==> r == NO_TEXTURE
    ensures info.Some? && info.value.texture.index < I32_MAX ==> r.textureIndex == info.value.texture.index + 1
    ensures info.Some? && info.value.texCoord <= I32_MAX ==> r.texCoord == info.value.texCoord
  {
    match info
    case None => NO_TEXTURE
    case Some(t) => TextureInfo(AsI32(1 + t.texture.index), AsI32(t.texCoord))
  }

  predicate IsNone(t: TextureInfo) {
    t.textureIndex == -1
  }

  /** A texture is "none" exactly when the reference was absent, for every
      texture index that fits the `i32` field. */
  lemma NoneIffAbsent(info: Option<G.TextureRef>)
    requires info.Some? ==> info.value.texture.index < I32_MAX
    ensures IsNone(TextureInfoNew(info)) <==> info.None?
  {
  }

  datatype MetallicRoughnessInfo = MetallicRoughnessInfo(
    metallicFactor: real, roughnessFactor: real, texture: TextureInfo)

  datatype TransmissionInfo = TransmissionInfo(texture: TextureInfo, factor: real, exist: nat)

  datatype VolumeInfo = VolumeInfo(
    attenuationColor: Vec3, thicknessFactor: real, thicknessTexture: TextureInfo,
    attenuationDistance: real, exist: nat)

  datatype SpecularInfo = SpecularInfo(
    texture: TextureInfo, colorTexture: TextureInfo, colorFactor: Vec4, factor: real, exist: nat)

  datatype SpecularGlossiness = SpecularGlossiness(
    diffuseFactor: Vec4, specularFactor: Vec3, glossinessFactor: real,
    diffuseTexture: TextureInfo, specularGlossinessTexture: TextureInfo)

  // The `Default` of each extension block: the block is marked absent.

  const DEFAULT_TRANSMISSION := TransmissionInfo(NO_TEXTURE, 0.0, 0)
  const DEFAULT_VOLUME := VolumeInfo(ONE3, 0.0, NO_TEXTURE, F32_MAX, 0)
  const DEFAULT_SPECULAR := SpecularInfo(NO_TEXTURE, NO_TEXTURE, ONE4, 1.0, 0)
  const DEFAULT_SPECULAR_GLOSSINESS := SpecularGlossiness(ZERO4, ZERO3, 0.0, NO_TEXTURE, NO_TEXTURE)

  // The conversions of a present extension block: the block is marked present.

  function TransmissionFrom(t: G.Transmission): (r: TransmissionInfo)
    ensures r.exist == 1 && r.factor == t.factor
  {
    TransmissionInfo(TextureInfoNew(t.texture), t.factor, 1)
  }

  function VolumeFrom(v: G.Volume): (r: VolumeInfo)
    ensures r.exist == 1 && r.attenuationColor == v.attenuationColor
    ensures r.attenuationDistance == v.attenuationDistance
  {
    VolumeInfo(v.attenuationColor, v.thicknessFactor, TextureInfoNew(v.thicknessTexture), v.attenuationDistance, 1)
  }

  /** The colour factor gets a fourth component 0. */
  function SpecularFrom(s: G.Specular): (r: SpecularInfo)
    ensures r.exist == 1 && Drop(r.colorFactor) == s.colorFactor && r.colorFactor.w == 0.0
  {
    SpecularInfo(TextureInfoNew(s.texture), TextureInfoNew(s.colorTexture), Pad(s.colorFactor, 0.0), s.factor, 1)
  }

  /** The factors copied, each texture converted by `TextureInfo::new`. */
  function SpecularGlossinessFrom(s: G.PbrSpecularGlossiness): (r: SpecularGlossiness)
    ensures r.diffuseFactor == s.diffuseFactor && r.specularFactor == s.specularFactor
    ensures r.glossinessFactor == s.glossinessFactor
    ensures s.diffuseTexture.None? ==> IsNone(r.diffuseTexture)
    ensures s.specularGlossinessTexture.None? ==> IsNone(r.specularGlossinessTexture)
    ensures s.diffuseTexture.Some? && s.diffuseTexture.value.texture.index < I32_MAX ==>
      r.diffuseTexture.textureIndex == s.diffuseTexture.value.texture.index + 1
    ensures s.specularGlossinessTexture.Some? && s.specularGlossinessTexture.value.texture.index < I32_MAX ==>
      r.specularGlossinessTexture.textureIndex == s.specularGlossinessTexture.value.texture.index + 1
  {
    SpecularGlossiness(s.diffuseFactor, s.specularFactor, s.glossinessFactor,
                       TextureInfoNew(s.diffuseTexture), TextureInfoNew(s.specularGlossinessTexture))
  }

  datatype Material = Material(
    name: Option<string>, index: nat, unlit: bool,
    alphaMode: G.AlphaMode, alphaCutoff: Option<real>, doubleSided: bool,
    baseColor: Vec4, baseColorTexture: TextureInfo,
    metallicRoughness: MetallicRoughnessInfo, normalTexture: TextureInfo,
    emissiveFactor: Vec4, emissiveTexture: TextureInfo, occlusionTexture: TextureInfo,
    ior: real,
    transmission: Option<TransmissionInfo>, volume: Option<VolumeInfo>,
    specular: Option<SpecularInfo>, specularGlossiness: Option<SpecularGlossiness>)
  {
    predicate HasNormalTexture() {
      !IsNone(normalTexture)
    }

    predicate IsOpaque() {
      alphaMode == G.Opaque
    }
  }

  /** `Material::from(gltf::Material)`. */
  function MaterialFrom(m: G.Material): (r: Material)
    ensures r.index == m.index.GetOr(DEFAULT_MATERIAL_INDEX)
    ensures r.ior == m.ior.GetOr(DEFAULT_IOR)
    ensures r.alphaMode == m.alphaMode && r.alphaCutoff == m.alphaCutoff
    ensures r.doubleSided == m.doubleSided && r.unlit == m.unlit
    ensures r.name == m.name && r.baseColor == m.pbr.baseColorFactor
    ensures r.metallicRoughness.metallicFactor == m.pbr.metallicFactor
    ensures r.metallicRoughness.roughnessFactor == m.pbr.roughnessFactor
    ensures Drop(r.emissiveFactor) == m.emissiveFactor && r.emissiveFactor.w == 0.0
    ensures r.baseColorTexture == TextureInfoNew(m.pbr.baseColorTexture)
    ensures r.metallicRoughness.texture == TextureInfoNew(m.pbr.metallicRoughnessTexture)
    ensures r.normalTexture == TextureInfoNew(m.normalTexture)
    ensures r.emissiveTexture == TextureInfoNew(m.emissiveTexture)
    ensures r.occlusionTexture == TextureInfoNew(m.occlusionTexture)
    ensures r.transmission.Some? <==> m.transmission.Some?
    ensures r.volume.Some? <==> m.volume.Some?
    ensures r.specular.Some? <==> m.specular.Some?
    ensures r.specularGlossiness.Some? <==> m.specularGlossiness.Some?
    ensures m.transmission.Some? ==> r.transmission.value == TransmissionFrom(m.transmission.value)
    ensures m.volume.Some? ==> r.volume.value == VolumeFrom(m.volume.value)
    ensures m.specular.Some? ==> r.specular.value == SpecularFrom(m.specular.value)
    ensures m.specularGlossiness.Some? ==> r.specularGlossiness.value == SpecularGlossinessFrom(m.specularGlossiness.value)
  {
    Material(
      m.name, m.index.GetOr(DEFAULT_MATERIAL_INDEX), m.unlit,
      m.alphaMode, m.alphaCutoff, m.doubleSided,
      m.pbr.baseColorFactor, TextureInfoNew(m.pbr.baseColorTexture),
      MetallicRoughnessInfo(m.pbr.metallicFactor, m.pbr.roughnessFactor,
                            TextureInfoNew(m.pbr.metallicRoughnessTexture)),
      TextureInfoNew(m.normalTexture),
      Pad(m.emissiveFactor, 0.0), TextureInfoNew(m.emissiveTexture), TextureInfoNew(m.occlusionTexture),
      m.ior.GetOr(DEFAULT_IOR),
      TransmissionOf(m.transmission), VolumeOf(m.volume), SpecularOf(m.specular),
      SpecularGlossinessOf(m.specularGlossiness))
  }

  // Each extension block is converted when present and stays absent otherwise.

  function TransmissionOf(t: Option<G.Transmission>): (r: Option<TransmissionInfo>)
    ensures r.Some? <==> t.Some?
    ensures t.Some? ==> r.value == TransmissionFrom(t.value)
  {
    if t.Some? then Some(TransmissionFrom(t.value)) else None
  }

  function VolumeOf(v: Option<G.Volume>): (r: Option<VolumeInfo>)
    ensures r.Some? <==> v.Some?
    ensures v.Some? ==> r.value == VolumeFrom(v.value)
  {
    if v.Some? then Some(VolumeFrom(v.value)) else None
  }

  function SpecularOf(s: Option<G.Specular>): (r: Option<SpecularInfo>)
    ensures r.Some? <==> s.Some?
    ensures s.Some? ==> r.value == SpecularFrom(s.value)
  {
    if s.Some? then Some(SpecularFrom(s.value)) else None
  }

  function SpecularGlossinessOf(s: Option<G.PbrSpecularGlossiness>): (r: Option<SpecularGlossiness>)
    ensures r.Some? <==> s.Some?
    ensures s.Some? ==> r.value == SpecularGlossinessFrom(s.value)
  {
    if s.Some? then Some(SpecularGlossinessFrom(s.value)) else None
  }

  /** Normal mapping is used exactly when the glTF material has a normal
      texture; transparency handling exactly when its alpha mode is not opaque. */
  lemma MaterialPredicates(m: G.Material)
    requires m.normalTexture.Some? ==> m.normalTexture.value.texture.index < I32_MAX
    ensures MaterialFrom(m).HasNormalTexture() <==> m.normalTexture.Some?
    ensures MaterialFrom(m).IsOpaque() <==> m.alphaMode == G.Opaque
  {
    NoneIffAbsent(m.normalTexture);
  }

  /** The `u32` discriminant of `gltf::material::AlphaMode`, declared in the
      `gltf` crate as `Opaque = 1, Mask, Blend`. */
  function AlphaModeCode(a: G.AlphaMode): (r: nat)
    ensures 1 <= r <= 3
  {
    match a
    case Opaque => 1
    case Mask => 2
    case Blend => 3
  }

  /** The alpha mode a shader reads from its code; any other code names none. */
  function ModeOfCode(code: nat): (r: Option<G.AlphaMode>)
    ensures r.Some? <==> 1 <= code <= 3
    ensures forall a :: r == Some(a) <==> AlphaModeCode(a) == code
  {
    if code == 1 then Some(G.Opaque) else if code == 2 then Some(G.Mask) else if code == 3 then Some(G.Blend) else None
  }

  /** `bool` into `u32`. */
  function Flag(b: bool): (r: nat)
    ensures r <= 1 && (r == 1 <==> b)
  {
    if b then 1 else 0
  }

  const METALLIC_ROUGHNESS_WORKFLOW: nat := 0
  const SPECULAR_GLOSSINESS_WORKFLOW: nat := 1

  /** The material as the shaders read it. */
  datatype MaterialRaw = MaterialRaw(
    alphaMode: nat, alphaCutoff: real, doubleSided: nat, workflow: nat, padding: (real, real),
    baseColorTexture: TextureInfo, baseColor: Vec4,
    metallicRoughness: MetallicRoughnessInfo, normalTexture: TextureInfo,
    emissiveTexture: TextureInfo, emissiveFactor: Vec4, occlusionTexture: TextureInfo,
    ior: real, unlit: nat,
    transmission: TransmissionInfo, volume: VolumeInfo, specular: SpecularInfo,
    specularGlossiness: SpecularGlossiness)

  /** `MaterialRaw::from(&Material)`: absent blocks take their defaults, the
      cutoff defaults to 0.5, and flags become 0 or 1. */
  function ToRaw(m: Material): (r: MaterialRaw)
    ensures r.alphaMode == AlphaModeCode(m.alphaMode) && r.alphaCutoff == m.alphaCutoff.GetOr(DEFAULT_ALPHA_CUTOFF)
    ensures r.doubleSided == Flag(m.doubleSided) && r.unlit == Flag(m.unlit)
    ensures r.baseColor == m.baseColor && r.emissiveFactor == m.emissiveFactor && r.ior == m.ior
    ensures r.metallicRoughness == m.metallicRoughness
    ensures r.baseColorTexture == m.baseColorTexture && r.normalTexture == m.normalTexture
    ensures r.emissiveTexture == m.emissiveTexture && r.occlusionTexture == m.occlusionTexture
    ensures r.workflow == (if m.specularGlossiness.Some? then SPECULAR_GLOSSINESS_WORKFLOW else METALLIC_ROUGHNESS_WORKFLOW)
    ensures r.padding == (0.0, 0.0)
    ensures m.transmission.None? ==> r.transmission == DEFAULT_TRANSMISSION
    ensures m.volume.None? ==> r.volume == DEFAULT_VOLUME
    ensures m.specular.None? ==> r.specular == DEFAULT_SPECULAR
    ensures m.specularGlossiness.None? ==> r.specularGlossiness == DEFAULT_SPECULAR_GLOSSINESS
    ensures m.transmission.Some? ==> r.transmission == m.transmission.value
    ensures m.volume.Some? ==> r.volume == m.volume.value
    ensures m.specular.Some? ==> r.specular == m.specular.value
    ensures m.specularGlossiness.Some? ==> r.specularGlossiness == m.specularGlossiness.value
  {
    MaterialRaw(
      AlphaModeCode(m.alphaMode), m.alphaCutoff.GetOr(DEFAULT_ALPHA_CUTOFF), Flag(m.doubleSided),
      if m.specularGlossiness.Some? then SPECULAR_GLOSSINESS_WORKFLOW else METALLIC_ROUGHNESS_WORKFLOW,
      (0.0, 0.0),
      m.baseColorTexture, m.baseColor, m.metallicRoughness, m.normalTexture,
      m.emissiveTexture, m.emissiveFactor, m.occlusionTexture, m.ior, Flag(m.unlit),
      m.transmission.GetOr(DEFAULT_TRANSMISSION), m.volume.GetOr(DEFAULT_VOLUME),
      m.specular.GetOr(DEFAULT_SPECULAR), m.specularGlossiness.GetOr(DEFAULT_SPECULAR_GLOSSINESS))
  }

  /** The shader can recover from the raw layout everything the glTF material
      says about presence: each extension's `exist` flag is 1 exactly when the
      extension is present, the workflow is specular-glossiness exactly when
      that extension is present, and the boolean flags decode back. */
  lemma RawRecoversPresence(m: G.Material)
    ensures var raw := ToRaw(MaterialFrom(m));
      && (raw.transmission.exist == 1 <==> m.transmission.Some?)
      && (raw.volume.exist == 1 <==> m.volume.Some?)
      && (raw.specular.exist == 1 <==> m.specular.Some?)
      && (raw.workflow == SPECULAR_GLOSSINESS_WORKFLOW <==> m.specularGlossiness.Some?)
      && (raw.doubleSided == 1 <==> m.doubleSided)
      && (raw.unlit == 1 <==> m.unlit)
      && (raw.alphaMode == 1 <==> m.alphaMode == G.Opaque)
      && ModeOfCode(raw.alphaMode) == Some(m.alphaMode)
      && raw.ior == m.ior.GetOr(DEFAULT_IOR)
      && (m.alphaCutoff.None? ==> raw.alphaCutoff == DEFAULT_ALPHA_CUTOFF)
  {
  }

  /** The images a material samples as data rather than colour: those behind
      its normal, metallic-roughness, transmission and specular textures. */
  function LinearSources(m: G.Material): (r: set<nat>)
    ensures forall x :: x in r <==>
      || (m.normalTexture.Some? && m.normalTexture.value.texture.source == x)
      || (m.pbr.metallicRoughnessTexture.Some? && m.pbr.metallicRoughnessTexture.value.texture.source == x)
      || (m.transmission.Some? && m.transmission.value.texture.Some?
          && m.transmission.value.texture.value.texture.source == x)
      || (m.specular.Some? && m.specular.value.texture.Some? && m.specular.value.texture.value.texture.source == x)
  {
    SourceOf(m.normalTexture) + SourceOf(m.pbr.metallicRoughnessTexture)
    + (if m.transmission.Some? then SourceOf(m.transmission.value.texture) else {})
    + (if m.specular.Some? then SourceOf(m.specular.value.texture) else {})
  }

  function SourceOf(t: Option<G.TextureRef>): (r: set<nat>)
    ensures t.None? ==> r == {}
    ensures t.Some? ==> r == {t.value.texture.source}
  {
    match t
    case None => {}
    case Some(ref) => {ref.texture.source}
  }

  /** `find_linear_textures`: the linear images of all materials. */
  function FindLinearTextures(materials: seq<G.Material>): (r: set<nat>)
    ensures forall x :: x in r <==> exists i :: 0 <= i < |materials| && x in LinearSources(materials[i])
  {
    if |materials| == 0 then {}
    else
      var rest := FindLinearTextures(materials[1..]);
      assert forall i :: 1 <= i < |materials| ==> materials[i] == materials[1..][i - 1];
      LinearSources(materials[0]) + rest
  }

  /** Base-colour and emissive textures never make an image linear on their own:
      a material without the four data textures contributes nothing. */
  lemma ColourTexturesStaySrgb(m: G.Material)
    requires m.normalTexture.None? && m.pbr.metallicRoughnessTexture.None?
    requires m.transmission.None? || m.transmission.value.texture.None?
    requires m.specular.None? || m.specular.value.texture.None?
    ensures LinearSources(m) == {}
  {
  }
}
