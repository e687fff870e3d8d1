/** The parts of a parsed glTF 2.0 document that the loaders read, as plain
    data. Indices are the document's own zero-based indices; optional
    properties are `Option`s. Parsing itself belongs to the `gltf` crate and is
    not part of this model. */
module GltfDocument {
  import opened Wrappers
  import opened Vectors
  import Transforms

  // Samplers and textures (section 5.26 and 5.29 of the glTF 2.0 specification)

  datatype MagFilter = Nearest | Linear

  datatype MinFilter =
    | Nearest | Linear
    | NearestMipmapNearest | LinearMipmapNearest | NearestMipmapLinear | LinearMipmapLinear

  datatype WrappingMode = ClampToEdge | MirroredRepeat | Repeat

  /** `index` is absent for the crate's built-in default sampler. */
  datatype Sampler = Sampler(
    index: Option<nat>, magFilter: Option<MagFilter>, minFilter: Option<MinFilter>,
    wrapS: WrappingMode, wrapT: WrappingMode)

  /** A texture: its own index, the index of its source image, and its sampler. */
  datatype Texture = Texture(index: nat, source: nat, sampler: Option<nat>, name: Option<string>)

  /** A reference from a material to a texture (`texture::Info` and the normal
      and occlusion variants alike). */
  datatype TextureRef = TextureRef(texture: Texture, texCoord: nat)

  // Materials (section 5.19 and the KHR_materials_* extensions)

  datatype AlphaMode = Opaque | Mask | Blend

  datatype PbrMetallicRoughness = PbrMetallicRoughness(
    baseColorFactor: Vec4, baseColorTexture: Option<TextureRef>,
    metallicFactor: real, roughnessFactor: real, metallicRoughnessTexture: Option<TextureRef>)

  datatype Transmission = Transmission(texture: Option<TextureRef>, factor: real)

  datatype Volume = Volume(
    attenuationColor: Vec3, thicknessFactor: real, thicknessTexture: Option<TextureRef>,
    attenuationDistance: real)

  datatype Specular = Specular(
    texture: Option<TextureRef>, colorTexture: Option<TextureRef>, colorFactor: Vec3, factor: real)

  datatype PbrSpecularGlossiness = PbrSpecularGlossiness(
    diffuseFactor: Vec4, specularFactor: Vec3, glossinessFactor: real,
    diffuseTexture: Option<TextureRef>, specularGlossinessTexture: Option<TextureRef>)

  /** `index` is absent for the crate's default material. */
  datatype Material = Material(
    index: Option<nat>, name: Option<string>,
    alphaMode: AlphaMode, alphaCutoff: Option<real>, doubleSided: bool, unlit: bool,
    pbr: PbrMetallicRoughness, normalTexture: Option<TextureRef>,
    occlusionTexture: Option<TextureRef>, emissiveTexture: Option<TextureRef>,
    emissiveFactor: Vec3, ior: Option<real>,
    transmission: Option<Transmission>, volume: Option<Volume>, specular: Option<Specular>,
    specularGlossiness: Option<PbrSpecularGlossiness>)

  // Lights (KHR_lights_punctual)

  datatype LightKind = Directional | Point | Spot(innerConeAngle: real, outerConeAngle: real)

  datatype Light = Light(index: nat, name: Option<string>, color: Vec3, intensity: real,
                         range: Option<real>, kind: LightKind)

  // Meshes, nodes, cameras and scenes (sections 5.23, 5.25, 5.12 and 5.27)

  datatype Mode = Points | Lines | LineLoop | LineStrip | Triangles | TriangleStrip | TriangleFan

  /** A primitive with the attributes the loaders read; an absent accessor is
      `None`. `material` is the crate's default material when none is set. */
  datatype Primitive = Primitive(
    index: nat, mode: Mode,
    positions: Option<seq<Vec3>>, normals: Option<seq<Vec3>>, tangents: Option<seq<Vec4>>,
    indices: Option<seq<nat>>, colors: Option<seq<Vec4>>,
    uv0: Option<seq<Vec2>>, uv1: Option<seq<Vec2>>,
    weights: Option<seq<Vec4>>, joints: Option<seq<UVec4>>,
    material: Material, boundsMin: Vec3, boundsMax: Vec3)

  datatype Mesh = Mesh(index: nat, name: Option<string>, primitives: seq<Primitive>)

  datatype Camera = Perspective(yfov: real, znear: real, zfar: Option<real>) | Orthographic

  /** A node; `children`, `mesh` and `light` are indices into the document. */
  datatype Node = Node(
    index: nat, name: Option<string>, children: seq<nat>, mesh: Option<nat>,
    light: Option<nat>, camera: Option<Camera>, matrix: Transforms.Matrix)

  datatype Scene = Scene(index: nat, name: Option<string>, nodes: seq<nat>)
}
