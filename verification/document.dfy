/** Building the loader's document from a parsed glTF file: the scene to
    show, the lights, the meshes with their shared geometry builder, the
    images, samplers, textures and materials, each list checked to hold its
    entries at their own indices. */
module Document {
  import opened Wrappers
  import opened Bits
  import G = GltfDocument
  import Pixels
  import Textures
  import Materials
  import Lights
  import Geometry
  import SceneGraph

  datatype DocError =
    NoScene | IndexMismatch | ImageFailed(image: Pixels.ImageError)
    | GeometryFailed(geometry: Geometry.GeoError) | SceneFailed(scene: SceneGraph.SceneError)

  /** Decoded image data as the glTF importer hands it over. */
  datatype ImageData = ImageData(
    pixels: seq<Byte>, width: nat, height: nat, format: Pixels.Format, uri: Option<string>)

  /** The parts of a parsed glTF file the loader reads. */
  datatype Source = Source(
    defaultScene: Option<nat>, scenes: seq<G.Scene>, nodes: seq<G.Node>, meshes: seq<G.Mesh>,
    materials: seq<G.Material>, textures: seq<G.Texture>, samplers: seq<G.Sampler>,
    lights: seq<G.Light>, images: seq<ImageData>)

  /** `check_indices!`: the assertion that entry `i` of a list carries
      index `i`. */
  function CheckIndices<T>(s: seq<T>, index: T -> nat): (r: Result<seq<T>, DocError>)
    ensures r.Success? <==> forall i :: 0 <= i < |s| ==> index(s[i]) == i
    ensures r.Success? ==> r.value == s
  {
    if forall i :: 0 <= i < |s| ==> index(s[i]) == i then Success(s) else Failure(IndexMismatch)
  }

  /** The scene to show: the document's default scene, else the first one;
      a document without scenes fails the `expect`, even when it names a
      default scene, because the fallback is evaluated first. */
  function CurrentScene(src: Source): (r: Result<nat, DocError>)
    ensures r.Success? <==> |src.scenes| > 0
    ensures r.Success? && src.defaultScene.Some? ==> r.value == src.defaultScene.value
    ensures r.Success? && src.defaultScene.None? ==> r.value == src.scenes[0].index
  {
    if |src.scenes| == 0 then Failure(NoScene)
    else Success(src.defaultScene.GetOr(src.scenes[0].index))
  }

  /** The document images after the default one: each decoded, then given
      index `i + 1` and linear gamma when a material reads it as data. A
      decoding error aborts. */
  function DocImages(images: seq<ImageData>, first: nat, linear: set<nat>): (r: Result<seq<Pixels.Image>, DocError>)
    requires forall i :: 0 <= i < |images| ==> IsU32(images[i].width) && IsU32(images[i].height)
    ensures r.Success? ==> |r.value| == |images|
    ensures r.Success? ==> forall i :: 0 <= i < |images| ==> Describes(r.value[i], images[i], first + i, linear)
    decreases |images|
  {
    if |images| == 0 then Success([])
    else
      var head :- DocImage(images[0], first, linear);
      var rest :- DocImages(images[1..], first + 1, linear);
      Success([head] + rest)
  }

  /** The image loaded from document image `slot`: it sits in slot
      `slot + 1`, keeps the uri and size, and is linear exactly when a
      material reads that image as data. */
  predicate Describes(img: Pixels.Image, d: ImageData, slot: nat, linear: set<nat>) {
    && img.index == slot + 1 && img.source == d.uri
    && img.width == d.width && img.height == d.height
    && img.gamma == (if slot in linear then Pixels.Linear else Pixels.Srgb)
  }

  /** One document image: decoded, then given slot `first + 1`, its uri and
      its gamma. */
  function DocImage(d: ImageData, first: nat, linear: set<nat>): (r: Result<Pixels.Image, DocError>)
    requires IsU32(d.width) && IsU32(d.height)
    ensures r.Success? ==> Describes(r.value, d, first, linear)
  {
    var img :- Pixels.ImageFromData(d.pixels, d.width, d.height, d.format).MapFailure(e => ImageFailed(e));
    Success(Pixels.UpdateInfo(img, first, d.uri, linear))
  }

  /** The image list: the default image in slot 0, then the document's
      images, checked to sit at their own indices. */
  function DocImageList(src: Source): (r: Result<seq<Pixels.Image>, DocError>)
    requires forall i :: 0 <= i < |src.images| ==> IsU32(src.images[i].width) && IsU32(src.images[i].height)
    ensures r.Success? ==> |r.value| == |src.images| + 1 && r.value[0] == Pixels.DefaultImage()
    ensures r.Success? ==> forall i :: 0 < i < |r.value| ==>
      && r.value[i].index == i && r.value[i].source == src.images[i - 1].uri
      && r.value[i].width == src.images[i - 1].width && r.value[i].height == src.images[i - 1].height
  {
    var docImages :- DocImages(src.images, 0, Materials.FindLinearTextures(src.materials));
    var all := [Pixels.DefaultImage()] + docImages;
    assert forall i :: 0 < i < |all| ==> all[i] == docImages[i - 1];
    CheckIndices(all, (i: Pixels.Image) => i.index)
  }

  /** The loaded document. */
  datatype Doc = Doc(
    graph: SceneGraph.Graph, meshes: seq<Geometry.MeshOut>, materials: seq<Materials.Material>,
    textures: seq<Textures.Texture>, lights: seq<Lights.Light>, images: seq<Pixels.Image>,
    samplers: seq<Textures.Sampler>, builder: Geometry.GeoBuilder,
    defaultMaterialId: nat, defaultSamplerId: nat)

  function Map<A, B>(s: seq<A>, f: A -> B): (r: seq<B>)
    ensures |r| == |s| && forall i :: 0 <= i < |s| ==> r[i] == f(s[i])
  {
    seq(|s|, i requires 0 <= i < |s| => f(s[i]))
  }

  /** `Doc::new` starting the geometry from `builder`, with no scene loaded
      yet. */
  function DocNewFrom(src: Source, builder: Geometry.GeoBuilder, textureFrom: G.Texture -> Textures.Texture,
                      num: Geometry.Numerics): (r: Result<Doc, DocError>)
    requires forall i :: 0 <= i < |src.images| ==> IsU32(src.images[i].width) && IsU32(src.images[i].height)
    ensures r.Success? ==> var d := r.value;
      && |src.scenes| > 0 && d.graph.scenes == map[] && d.graph.nodes == map[]
      && |d.materials| == |src.materials| && |d.lights| == |src.lights|
      && (forall i :: 0 <= i < |d.materials| ==> d.materials[i].index == i)
      && (forall i :: 0 <= i < |d.lights| ==> d.lights[i].index == i)
      && DocTextureList(src, textureFrom).Success? && d.textures == DocTextureList(src, textureFrom).value
      && d.materials == Map(src.materials, Materials.MaterialFrom)
      && d.defaultMaterialId == 0 && d.defaultSamplerId == 0
      && DocMeshes(src, builder, num).Success? && (d.builder, d.meshes) == DocMeshes(src, builder, num).value
      && DocImageList(src).Success? && d.images == DocImageList(src).value
      && DocSamplerList(src).Success? && d.samplers == DocSamplerList(src).value
  {
    var current :- CurrentScene(src);
    var lights :- CheckIndices(Map(src.lights, Lights.LightFrom), (l: Lights.Light) => l.index);
    var built :- DocMeshes(src, builder, num);
    var images :- DocImageList(src);
    var samplers :- DocSamplerList(src);
    var textures :- DocTextureList(src, textureFrom);
    var materials :- CheckIndices(Map(src.materials, Materials.MaterialFrom), (m: Materials.Material) => m.index);
    Success(Doc(SceneGraph.Graph(current, map[], map[]), built.1, materials, textures, lights, images,
                samplers, built.0, 0, 0))
  }

  /** The meshes, built in document order on one geometry builder and checked
      to sit at their own indices, with the builder they leave behind. */
  function DocMeshes(src: Source, builder: Geometry.GeoBuilder, num: Geometry.Numerics)
    : (r: Result<(Geometry.GeoBuilder, seq<Geometry.MeshOut>), DocError>)
    ensures r.Success? ==> var (b, meshes) := r.value;
      && |meshes| == |src.meshes| && (forall i :: 0 <= i < |meshes| ==> meshes[i].index == i)
      && b.geoCounter == builder.geoCounter + Geometry.CountAllSupported(src.meshes)
      && b.opacity == builder.opacity && b.normalTextures == builder.normalTextures
      && Geometry.BuildMeshes(src.meshes, builder, num).Success?
      && b == Geometry.BuildMeshes(src.meshes, builder, num).value.0
  {
    var built :- Geometry.BuildMeshes(src.meshes, builder, num).MapFailure(e => GeometryFailed(e));
    var meshes :- CheckIndices(built.1, (m: Geometry.MeshOut) => m.index);
    Success((built.0, meshes))
  }

  /** The sampler list: the default sampler in slot 0, then the document's
      samplers, checked to sit at their own indices. */
  function DocSamplerList(src: Source): (r: Result<seq<Textures.Sampler>, DocError>)
    ensures r.Success? ==> |r.value| == |src.samplers| + 1 && r.value[0] == Textures.DefaultSampler()
    ensures r.Success? ==> forall i :: 0 <= i < |r.value| ==> r.value[i].index == i
  {
    CheckIndices([Textures.DefaultSampler()] + Map(src.samplers, Textures.SamplerFrom),
                 (s: Textures.Sampler) => s.index)
  }

  /** The texture list: the default texture in slot 0, then the document's
      textures, checked to sit at their own slots. */
  function DocTextureList(src: Source, textureFrom: G.Texture -> Textures.Texture)
    : (r: Result<seq<Textures.Texture>, DocError>)
    ensures r.Success? <==> forall k :: 0 <= k < |src.textures| ==> textureFrom(src.textures[k]).index == k + 1
    ensures r.Success? ==> |r.value| == |src.textures| + 1 && r.value[0] == Textures.DefaultTexture()
    ensures r.Success? ==> forall k :: 0 <= k < |src.textures| ==> r.value[k + 1] == textureFrom(src.textures[k])
    ensures r.Success? ==> forall i :: 0 <= i < |r.value| ==> r.value[i].index == i
  {
    var s := [Textures.DefaultTexture()] + Map(src.textures, textureFrom);
    assert forall k :: 0 <= k < |src.textures| ==> s[k + 1] == textureFrom(src.textures[k]);
    CheckIndices(s, (t: Textures.Texture) => t.index)
  }

  /** With either conversion, the texture list passes its check exactly when
      glTF texture `k` carries index `k`, which the glTF crate guarantees. */
  lemma TextureListChecks(src: Source)
    ensures DocTextureList(src, Textures.TextureFrom).Success? <==> forall k :: 0 <= k < |src.textures| ==> src.textures[k].index == k
    ensures DocTextureList(src, Textures.TextureFromShifted).Success? <==> forall k :: 0 <= k < |src.textures| ==> src.textures[k].index == k
  {
  }

  /** Slot `k + 1` of the document's images holds glTF image `k`, slot 0
      the default image. */
  lemma DocNewImages(src: Source, builder: Geometry.GeoBuilder, textureFrom: G.Texture -> Textures.Texture,
                     num: Geometry.Numerics, k: nat)
    requires forall i :: 0 <= i < |src.images| ==> IsU32(src.images[i].width) && IsU32(src.images[i].height)
    requires DocNewFrom(src, builder, textureFrom, num).Success? && k < |src.images|
    ensures var d := DocNewFrom(src, builder, textureFrom, num).value;
      && d.images[k + 1].source == src.images[k].uri && d.images[k + 1].index == k + 1
      && d.images[k + 1].width == src.images[k].width && d.images[k + 1].height == src.images[k].height
  {
    assert DocImageList(src).value[k + 1].source == src.images[k].uri;
  }

  /** The same, read from the slot: slot `i > 0` holds glTF image `i - 1`. */
  lemma DocNewImageSlot(src: Source, builder: Geometry.GeoBuilder, textureFrom: G.Texture -> Textures.Texture,
                        num: Geometry.Numerics, i: nat)
    requires forall i :: 0 <= i < |src.images| ==> IsU32(src.images[i].width) && IsU32(src.images[i].height)
    requires DocNewFrom(src, builder, textureFrom, num).Success? && 0 < i <= |src.images|
    ensures var d := DocNewFrom(src, builder, textureFrom, num).value;
      i < |d.images| && d.images[i].source == src.images[i - 1].uri
  {
    DocNewImages(src, builder, textureFrom, num, i - 1);
  }

  /** `Doc::new` as written: the geometry builder starts from its default,
      which records no material flags, and textures keep the glTF image
      index. */
  function DocNewAsWritten(src: Source, num: Geometry.Numerics): (r: Result<Doc, DocError>)
    requires forall i :: 0 <= i < |src.images| ==> IsU32(src.images[i].width) && IsU32(src.images[i].height)
    ensures r.Success? ==> r.value.builder.opacity == [] && r.value.builder.normalTextures == []
  {
    DocNewFrom(src, Geometry.DefaultGeoBuilder(), Textures.TextureFrom, num)
  }

  /** `Doc::new` with the builder made by `GeoBuilder::new` over the
      document's materials, and texture image references shifted past the
      default image. */
  function DocNew(src: Source, num: Geometry.Numerics): (r: Result<Doc, DocError>)
    requires forall i :: 0 <= i < |src.images| ==> IsU32(src.images[i].width) && IsU32(src.images[i].height)
    ensures r.Success? ==> r.value.builder.opacity == Geometry.NewGeoBuilder(r.value.materials).opacity
    ensures r.Success? ==> r.value.builder.normalTextures == Geometry.NewGeoBuilder(r.value.materials).normalTextures
  {
    DocNewFrom(src, Geometry.NewGeoBuilder(Map(src.materials, Materials.MaterialFrom)), Textures.TextureFromShifted, num)
  }

  /** DocNewImages for `Doc::new` with the shifted texture references. */
  lemma DocNewImage(src: Source, num: Geometry.Numerics, j: nat)
    requires forall i :: 0 <= i < |src.images| ==> IsU32(src.images[i].width) && IsU32(src.images[i].height)
    requires DocNew(src, num).Success? && j < |src.images|
    ensures var d := DocNew(src, num).value;
      && j + 1 < |d.images| && d.images[j + 1].source == src.images[j].uri && d.images[j + 1].index == j + 1
      && d.images[j + 1].width == src.images[j].width && d.images[j + 1].height == src.images[j].height
  {
    DocNewImages(src, Geometry.NewGeoBuilder(Map(src.materials, Materials.MaterialFrom)),
                 Textures.TextureFromShifted, num, j);
  }

  /** glTF texture `k` sits in slot `k + 1` of the document's textures,
      after the default texture. It refers to glTF image `source` as written,
      and to slot `source + 1` of the image list once shifted. */
  lemma DocNewTextures(src: Source, num: Geometry.Numerics, k: nat)
    requires forall i :: 0 <= i < |src.images| ==> IsU32(src.images[i].width) && IsU32(src.images[i].height)
    requires k < |src.textures|
    ensures DocNewAsWritten(src, num).Success? ==> var ts := DocNewAsWritten(src, num).value.textures;
      && |ts| == |src.textures| + 1 && ts[0] == Textures.DefaultTexture()
      && ts[k + 1] == Textures.TextureFrom(src.textures[k]) && ts[k + 1].index == k + 1
      && ts[k + 1].imageIndex == src.textures[k].source && ts[k + 1].textureIndex == src.textures[k].index
    ensures DocNew(src, num).Success? ==> var ts := DocNew(src, num).value.textures;
      && |ts| == |src.textures| + 1 && ts[0] == Textures.DefaultTexture()
      && ts[k + 1] == Textures.TextureFromShifted(src.textures[k]) && ts[k + 1].index == k + 1
      && ts[k + 1].imageIndex == src.textures[k].source + 1 && ts[k + 1].textureIndex == src.textures[k].index
  {
  }

  /** As written, a document whose material `i` blends still reports its
      geometry fully opaque (so the viewer drops its any-hit shader); with
      the builder made from the materials it does not. */
  lemma AsWrittenReportsOpaque(src: Source, num: Geometry.Numerics, i: nat)
    requires forall i :: 0 <= i < |src.images| ==> IsU32(src.images[i].width) && IsU32(src.images[i].height)
    requires i < |src.materials| && src.materials[i].alphaMode == G.Blend
    requires DocNewAsWritten(src, num).Success? && DocNew(src, num).Success?
    ensures Geometry.FullyOpaque(DocNewAsWritten(src, num).value.builder)
    ensures !Geometry.FullyOpaque(DocNew(src, num).value.builder)
  {
    var d := DocNew(src, num).value;
    assert !d.materials[i].IsOpaque();
    assert !d.builder.opacity[i];
  }

  /** The document's geometry ids are `0, 1, ...`, one per supported
      primitive, each with its offsets and lengths in the builder. */
  lemma DocGeometryTracked(src: Source, num: Geometry.Numerics)
    requires forall i :: 0 <= i < |src.images| ==> IsU32(src.images[i].width) && IsU32(src.images[i].height)
    requires DocNew(src, num).Success?
    ensures var b := DocNew(src, num).value.builder;
      && Geometry.Tracks(b) && b.geoCounter == Geometry.CountAllSupported(src.meshes)
  {
    var b0 := Geometry.NewGeoBuilder(Map(src.materials, Materials.MaterialFrom));
    Geometry.BuildMeshesFromEmpty(src.meshes, b0, num);
  }

  /** `load_file` after `Doc::new`: the current scene is loaded into the
      empty node map. It succeeds exactly when the document is built and the
      current scene's node trees load; the result is the new document with
      only that scene and its nodes loaded. */
  function LoadFile(src: Source, num: Geometry.Numerics): (r: Result<Doc, DocError>)
    requires forall i :: 0 <= i < |src.images| ==> IsU32(src.images[i].width) && IsU32(src.images[i].height)
    ensures r.Success? <==> (
      && DocNew(src, num).Success?
      && var cur := DocNew(src, num).value.graph.currentScene;
        cur < |src.scenes| && SceneGraph.LoadRoots(map[], src.nodes, src.scenes[cur].nodes).Success?)
    ensures r.Success? ==> var d := DocNew(src, num).value;
      && r.value.(graph := d.graph) == d
      && r.value.graph.currentScene == d.graph.currentScene
      && r.value.graph.scenes.Keys == {d.graph.currentScene}
      && r.value.graph.nodes == SceneGraph.LoadRoots(map[], src.nodes, src.scenes[d.graph.currentScene].nodes).value
  {
    var doc :- DocNew(src, num);
    var graph :- SceneGraph.LoadScene(doc.graph, src.nodes, src.scenes).MapFailure(e => SceneFailed(e));
    Success(doc.(graph := graph))
  }
}
