/** The simple glTF loader used by the example applications: it converts every
    supported primitive once into one mesh record over two shared vertex and
    index arrays, expands every mesh-bearing node into one node per supported
    primitive, converts the images, and puts a default sampler in slot 0. */
module GltfLoader {
  import opened Wrappers
  import opened Vectors
  import opened Bits
  import G = GltfDocument
  import Pixels
  import GT = GltfTextures
  import Transforms

  datatype LoadError =
    | AttributeTooShort        // a normal, colour or UV read past its accessor
    | MissingMesh              // a node names a mesh the document lacks
    | MissingRedirect          // the `unwrap` of the mesh redirect
    | ImageFailed(e: Pixels.ImageError)

  datatype Vertex = Vertex(position: Vec4, normal: Vec4, color: Vec4, uvs: Vec2)

  /** The loader's material: base colour, the base-colour texture's index,
      metallic and roughness factors and the emissive colour. */
  datatype Material = Material(
    baseColor: Vec4, baseColorTexture: Option<nat>, metallic: real, emissive: Vec4, roughness: real)

  datatype Mesh = Mesh(
    vertexOffset: nat, vertexCount: nat, indexOffset: nat, indexCount: nat,
    material: Material, name: Option<string>)

  /** A node: its local transform and one converted primitive. */
  datatype Node = Node(transform: Transforms.Matrix, mesh: Mesh, name: Option<string>)

  datatype Cam = Cam(fov: real, znear: real, zfar: real)

  datatype Image = Image(pixels: seq<Byte>, width: nat, height: nat)

  /** A decoded glTF image as the `gltf` crate hands it over. */
  datatype RawImage = RawImage(pixels: seq<Byte>, width: nat, height: nat, format: Pixels.Format)

  /** The parts of a document `load_file` reads. */
  datatype File = File(
    meshes: seq<G.Mesh>, nodes: seq<G.Node>, images: seq<RawImage>,
    samplers: seq<G.Sampler>, textures: seq<G.Texture>)

  datatype Model = Model(
    vertices: seq<Vertex>, indices: seq<nat>, nodes: seq<Node>, images: seq<Image>,
    textures: seq<GT.Texture>, samplers: seq<GT.Sampler>)

  /** `is_primitive_supported`: indices, positions and normals are present
      (the topology is not looked at). */
  predicate Supported(p: G.Primitive)
    ensures Supported(p) ==> p.indices.Some? && p.positions.Some? && p.normals.Some?
  {
    p.indices.Some? && p.positions.Some? && p.normals.Some?
  }

  /** Unlike the asset loader's test, this one accepts every topology: a
      primitive is supported in one mode exactly when it is in any other. */
  lemma SupportedIgnoresMode(p: G.Primitive, mode: G.Mode)
    ensures Supported(p) <==> Supported(p.(mode := mode))
  {
  }

  /** `Material::from` of the `gltf` crate: the emissive colour gets a zero
      fourth component. */
  function MaterialFrom(m: G.Material): (r: Material)
    ensures r.baseColorTexture.Some? <==> m.pbr.baseColorTexture.Some?
    ensures r.baseColorTexture.Some? ==> r.baseColorTexture.value == m.pbr.baseColorTexture.value.texture.index
    ensures Drop(r.emissive) == m.emissiveFactor && r.emissive.w == 0.0
  {
    Material(
      m.pbr.baseColorFactor,
      if m.pbr.baseColorTexture.Some? then Some(m.pbr.baseColorTexture.value.texture.index) else None,
      m.pbr.metallicFactor, Pad(m.emissiveFactor, 0.0), m.pbr.roughnessFactor)
  }

  // Vertices of one primitive

  /** Every attribute the vertex loop indexes is at least as long as the
      position list. */
  predicate AttributesCover(p: G.Primitive)
    requires Supported(p)
  {
    var n := |p.positions.value|;
    && |p.normals.value| >= n
    && (p.colors.Some? ==> |p.colors.value| >= n)
    && (p.uv0.Some? ==> |p.uv0.value| >= n)
  }

  function VertexAt(p: G.Primitive, i: nat): Vertex
    requires Supported(p) && AttributesCover(p) && i < |p.positions.value|
  {
    Vertex(
      Pad(p.positions.value[i], 0.0),
      Pad(p.normals.value[i], 0.0),
      if p.colors.Some? then p.colors.value[i] else ONE4,
      if p.uv0.Some? then p.uv0.value[i] else ZERO2)
  }

  /** One vertex per position: the position and normal with a zero fourth
      component, the first colour set or opaque white, the first UV set or
      zero. A shorter normal, colour or UV list is an index panic. */
  function PrimitiveVertices(p: G.Primitive): (r: Result<seq<Vertex>, LoadError>)
    requires Supported(p)
    ensures r.Success? <==> AttributesCover(p)
    ensures r.Success? ==> |r.value| == |p.positions.value|
    ensures r.Success? ==> forall i :: 0 <= i < |r.value| ==>
      && Drop(r.value[i].position) == p.positions.value[i] && r.value[i].position.w == 0.0
      && Drop(r.value[i].normal) == p.normals.value[i] && r.value[i].normal.w == 0.0
      && (p.colors.None? ==> r.value[i].color == ONE4)
      && (p.colors.Some? ==> r.value[i].color == p.colors.value[i])
      && (p.uv0.None? ==> r.value[i].uvs == ZERO2)
      && (p.uv0.Some? ==> r.value[i].uvs == p.uv0.value[i])
  {
    if AttributesCover(p) then
      var n := |p.positions.value|;
      Success(seq(n, i requires 0 <= i < n => VertexAt(p, i)))
    else Failure(AttributeTooShort)
  }

  // The mesh loop

  /** A primitive is identified by its mesh's index and its own index. */
  function Key(m: G.Mesh, p: G.Primitive): (nat, nat) {
    (m.index, p.index)
  }

  datatype Loader = Loader(
    vertices: seq<Vertex>, indices: seq<nat>, meshes: seq<Mesh>, redirect: map<(nat, nat), nat>)

  const EMPTY := Loader([], [], [], map[])

  /** Every redirected key points at an existing record. */
  predicate RedirectInRange(st: Loader) {
    forall key :: key in st.redirect ==> st.redirect[key] < |st.meshes|
  }

  /** The supported primitives of one mesh, in order, with their mesh. */
  function MeshPairs(m: G.Mesh, ps: seq<G.Primitive>): (r: seq<(G.Mesh, G.Primitive)>)
    ensures forall k :: 0 <= k < |r| ==> Supported(r[k].1) && r[k].0 == m && r[k].1 in ps
    ensures forall p :: p in ps && Supported(p) ==> (m, p) in r
  {
    if |ps| == 0 then []
    else (if Supported(ps[0]) then [(m, ps[0])] else []) + MeshPairs(m, ps[1..])
  }

  /** The supported primitives of every mesh, in document order. */
  function SupportedPairs(ms: seq<G.Mesh>): (r: seq<(G.Mesh, G.Primitive)>)
    ensures forall k :: 0 <= k < |r| ==> Supported(r[k].1) && r[k].0 in ms && r[k].1 in r[k].0.primitives
    ensures forall m, p :: m in ms && p in m.primitives && Supported(p) ==> (m, p) in r
  {
    if |ms| == 0 then []
    else MeshPairs(ms[0], ms[0].primitives) + SupportedPairs(ms[1..])
  }

  /** One step of the mesh loop: a primitive whose key was already seen is
      skipped; otherwise its vertices and indices are appended, the mesh
      record takes the current array lengths (cast to `u32`) as its offsets,
      and the key is redirected to the new record. */
  function AddPrimitive(st: Loader, m: G.Mesh, p: G.Primitive): (r: Result<Loader, LoadError>)
    requires Supported(p)
    ensures Key(m, p) in st.redirect ==> r == Success(st)
    ensures Key(m, p) !in st.redirect ==> (r.Success? <==> AttributesCover(p))
    ensures r.Success? ==> Key(m, p) in r.value.redirect
    ensures r.Success? ==> st.vertices <= r.value.vertices && st.indices <= r.value.indices
    ensures r.Success? ==> st.meshes <= r.value.meshes && st.redirect.Keys <= r.value.redirect.Keys
    ensures r.Success? ==> forall key :: key in st.redirect ==> r.value.redirect[key] == st.redirect[key]
    ensures r.Success? && RedirectInRange(st) ==> RedirectInRange(r.value)
  {
    if Key(m, p) in st.redirect then Success(st)
    else
      var vs :- PrimitiveVertices(p);
      var idx := p.indices.value;
      var mesh := Mesh(AsU32(|st.vertices|), AsU32(|vs|), AsU32(|st.indices|), AsU32(|idx|),
                       MaterialFrom(p.material), m.name);
      Success(Loader(st.vertices + vs, st.indices + idx, st.meshes + [mesh],
                     st.redirect[Key(m, p) := |st.meshes|]))
  }

  /** The mesh loop over the supported pairs, in order; the first failing
      primitive aborts. */
  function LoadPairs(st: Loader, pairs: seq<(G.Mesh, G.Primitive)>): (r: Result<Loader, LoadError>)
    requires forall k :: 0 <= k < |pairs| ==> Supported(pairs[k].1)
    ensures r.Success? ==> forall k :: 0 <= k < |pairs| ==> Key(pairs[k].0, pairs[k].1) in r.value.redirect
    ensures r.Success? ==> st.vertices <= r.value.vertices && st.indices <= r.value.indices
    ensures r.Success? && RedirectInRange(st) ==> RedirectInRange(r.value)
    decreases |pairs|
  {
    if |pairs| == 0 then Success(st)
    else
      var init :- LoadPairs(st, pairs[..|pairs| - 1]);
      AddPrimitive(init, pairs[|pairs| - 1].0, pairs[|pairs| - 1].1)
  }

  function VertexSum(ms: seq<Mesh>): nat {
    if |ms| == 0 then 0 else VertexSum(ms[..|ms| - 1]) + ms[|ms| - 1].vertexCount
  }

  function IndexSum(ms: seq<Mesh>): nat {
    if |ms| == 0 then 0 else IndexSum(ms[..|ms| - 1]) + ms[|ms| - 1].indexCount
  }

  /** The loader's bookkeeping: each mesh's offsets are the sums of the counts
      of the meshes before it, its slice lies inside the arrays, the arrays
      hold exactly the counted elements, and the redirect has one key per
      mesh record, each pointing at a record. */
  ghost predicate Layout(st: Loader) {
    && |st.vertices| == VertexSum(st.meshes) && |st.indices| == IndexSum(st.meshes)
    && |st.redirect| == |st.meshes|
    && (forall key :: key in st.redirect ==> st.redirect[key] < |st.meshes|)
    && forall k :: 0 <= k < |st.meshes| ==>
      && st.meshes[k].vertexOffset == VertexSum(st.meshes[..k])
      && st.meshes[k].indexOffset == IndexSum(st.meshes[..k])
      && st.meshes[k].vertexOffset + st.meshes[k].vertexCount <= |st.vertices|
      && st.meshes[k].indexOffset + st.meshes[k].indexCount <= |st.indices|
  }

  /** A step keeps the layout while the arrays fit `u32` offsets. */
  lemma AddPrimitiveLayout(st: Loader, m: G.Mesh, p: G.Primitive)
    requires Supported(p) && Layout(st)
    requires AddPrimitive(st, m, p).Success?
    requires |AddPrimitive(st, m, p).value.vertices| <= U32_MAX && |AddPrimitive(st, m, p).value.indices| <= U32_MAX
    ensures Layout(AddPrimitive(st, m, p).value)
  {
    if Key(m, p) !in st.redirect {
      var r := AddPrimitive(st, m, p).value;
      var vs, idx := PrimitiveVertices(p).value, p.indices.value;
      var mesh := Mesh(AsU32(|st.vertices|), AsU32(|vs|), AsU32(|st.indices|), AsU32(|idx|),
                       MaterialFrom(p.material), m.name);
      assert r == Loader(st.vertices + vs, st.indices + idx, st.meshes + [mesh],
                         st.redirect[Key(m, p) := |st.meshes|]);
      AppendLayout(st, vs, idx, mesh, Key(m, p));
    }
  }

  /** Appending one record whose offsets are the current array lengths, with
      its elements and a fresh redirect key, keeps the layout. */
  lemma AppendLayout(st: Loader, vs: seq<Vertex>, idx: seq<nat>, mesh: Mesh, key: (nat, nat))
    requires Layout(st) && key !in st.redirect
    requires mesh.vertexOffset == |st.vertices| && mesh.vertexCount == |vs|
    requires mesh.indexOffset == |st.indices| && mesh.indexCount == |idx|
    ensures Layout(Loader(st.vertices + vs, st.indices + idx, st.meshes + [mesh], st.redirect[key := |st.meshes|]))
  {
    var r := Loader(st.vertices + vs, st.indices + idx, st.meshes + [mesh], st.redirect[key := |st.meshes|]);
    SumsSnoc(st.meshes, mesh);
    assert |r.redirect| == |st.redirect| + 1;
    assert forall k :: k in r.redirect ==> r.redirect[k] < |r.meshes|;
    AppendRecords(st, r, mesh);
    LayoutIntro(r);
  }

  lemma LayoutIntro(r: Loader)
    requires |r.vertices| == VertexSum(r.meshes) && |r.indices| == IndexSum(r.meshes)
    requires |r.redirect| == |r.meshes|
    requires forall key :: key in r.redirect ==> r.redirect[key] < |r.meshes|
    requires forall k :: 0 <= k < |r.meshes| ==>
      && r.meshes[k].vertexOffset == VertexSum(r.meshes[..k])
      && r.meshes[k].indexOffset == IndexSum(r.meshes[..k])
      && r.meshes[k].vertexOffset + r.meshes[k].vertexCount <= |r.vertices|
      && r.meshes[k].indexOffset + r.meshes[k].indexCount <= |r.indices|
    ensures Layout(r)
  {
  }

  /** Every record, old and appended, sits at the sums before it and inside
      the grown arrays. */
  lemma AppendRecords(st: Loader, r: Loader, mesh: Mesh)
    requires Layout(st) && r.meshes == st.meshes + [mesh]
    requires |st.vertices| <= |r.vertices| && |st.indices| <= |r.indices|
    requires mesh.vertexOffset == |st.vertices| && mesh.vertexOffset + mesh.vertexCount <= |r.vertices|
    requires mesh.indexOffset == |st.indices| && mesh.indexOffset + mesh.indexCount <= |r.indices|
    ensures forall k :: 0 <= k < |r.meshes| ==>
      && r.meshes[k].vertexOffset == VertexSum(r.meshes[..k])
      && r.meshes[k].indexOffset == IndexSum(r.meshes[..k])
      && r.meshes[k].vertexOffset + r.meshes[k].vertexCount <= |r.vertices|
      && r.meshes[k].indexOffset + r.meshes[k].indexCount <= |r.indices|
  {
    var ms := r.meshes;
    forall k | 0 <= k < |ms|
      ensures ms[k].vertexOffset == VertexSum(ms[..k]) && ms[k].indexOffset == IndexSum(ms[..k])
      ensures ms[k].vertexOffset + ms[k].vertexCount <= |r.vertices|
      ensures ms[k].indexOffset + ms[k].indexCount <= |r.indices|
    {
      if k < |st.meshes| {
        assert ms[k] == st.meshes[k] && ms[..k] == st.meshes[..k];
      } else {
        assert ms[k] == mesh && ms[..k] == st.meshes;
      }
    }
  }

  /** The counts of a record list grow by the appended record's counts. */
  lemma SumsSnoc(ms: seq<Mesh>, m: Mesh)
    ensures VertexSum(ms + [m]) == VertexSum(ms) + m.vertexCount
    ensures IndexSum(ms + [m]) == IndexSum(ms) + m.indexCount
  {
    assert (ms + [m])[..|ms|] == ms;
  }

  /** From an empty loader, the mesh loop lays out every record at the sums
      of the counts before it, provided the arrays fit `u32` offsets. */
  lemma {:induction false} LoadPairsLayout(pairs: seq<(G.Mesh, G.Primitive)>)
    requires forall k :: 0 <= k < |pairs| ==> Supported(pairs[k].1)
    requires LoadPairs(EMPTY, pairs).Success?
    requires |LoadPairs(EMPTY, pairs).value.vertices| <= U32_MAX && |LoadPairs(EMPTY, pairs).value.indices| <= U32_MAX
    ensures Layout(LoadPairs(EMPTY, pairs).value)
    decreases |pairs|
  {
    if |pairs| > 0 {
      var init := pairs[..|pairs| - 1];
      LoadPairsLayout(init);
      AddPrimitiveLayout(LoadPairs(EMPTY, init).value, pairs[|pairs| - 1].0, pairs[|pairs| - 1].1);
    }
  }

  /** The document's own numbering: mesh `i` has index `i` and its primitive
      `j` has index `j`. */
  ghost predicate WellIndexed(ms: seq<G.Mesh>) {
    forall i :: 0 <= i < |ms| ==>
      && ms[i].index == i
      && forall j :: 0 <= j < |ms[i].primitives| ==> ms[i].primitives[j].index == j
  }

  ghost predicate KeysDistinct(pairs: seq<(G.Mesh, G.Primitive)>) {
    forall j, k :: 0 <= j < k < |pairs| ==> Key(pairs[j].0, pairs[j].1) != Key(pairs[k].0, pairs[k].1)
  }

  /** The redirect maps the key of pair `k` to record `k`, and only those
      keys. */
  ghost predicate RedirectsOwn(st: Loader, pairs: seq<(G.Mesh, G.Primitive)>) {
    && |st.meshes| == |pairs|
    && (forall key :: key in st.redirect ==>
          st.redirect[key] < |pairs| && Key(pairs[st.redirect[key]].0, pairs[st.redirect[key]].1) == key)
    && forall k :: 0 <= k < |pairs| ==>
          Key(pairs[k].0, pairs[k].1) in st.redirect && st.redirect[Key(pairs[k].0, pairs[k].1)] == k
  }

  /** Record `k` carries the material and name of pair `k`, and its slices of
      the shared arrays hold exactly that primitive's vertices and indices. */
  ghost predicate RecordsConverted(st: Loader, pairs: seq<(G.Mesh, G.Primitive)>)
    requires forall k :: 0 <= k < |pairs| ==> Supported(pairs[k].1)
  {
    && |st.meshes| == |pairs|
    && forall k :: 0 <= k < |pairs| ==> RecordConverted(st, k, pairs[k].0, pairs[k].1)
  }

  ghost predicate RecordConverted(st: Loader, k: nat, m: G.Mesh, p: G.Primitive)
    requires Supported(p) && k < |st.meshes|
  {
    MeshConverted(st, st.meshes[k], m, p)
  }

  /** `mesh` was made from primitive `p` of `m`: it carries their material
      and name, and its slices of the shared arrays hold exactly the
      primitive's vertices and indices. */
  ghost predicate MeshConverted(st: Loader, mesh: Mesh, m: G.Mesh, p: G.Primitive)
    requires Supported(p)
  {
    && mesh.material == MaterialFrom(p.material) && mesh.name == m.name
    && PrimitiveVertices(p).Success?
    && mesh.vertexOffset + mesh.vertexCount <= |st.vertices|
    && mesh.indexOffset + mesh.indexCount <= |st.indices|
    && st.vertices[mesh.vertexOffset..mesh.vertexOffset + mesh.vertexCount] == PrimitiveVertices(p).value
    && st.indices[mesh.indexOffset..mesh.indexOffset + mesh.indexCount] == p.indices.value
  }

  /** When no key repeats, nothing is skipped: every supported primitive is
      converted exactly once, into the record at its own position. */
  lemma {:induction false} LoadPairsConverts(pairs: seq<(G.Mesh, G.Primitive)>)
    requires forall k :: 0 <= k < |pairs| ==> Supported(pairs[k].1)
    requires KeysDistinct(pairs) && LoadPairs(EMPTY, pairs).Success?
    requires |LoadPairs(EMPTY, pairs).value.vertices| <= U32_MAX && |LoadPairs(EMPTY, pairs).value.indices| <= U32_MAX
    ensures RecordsConverted(LoadPairs(EMPTY, pairs).value, pairs)
    decreases |pairs|
  {
    if |pairs| > 0 {
      var n := |pairs| - 1;
      var init := pairs[..n];
      var st := LoadPairs(EMPTY, init).value;
      LoadPairsConverts(init);
      LoadPairsLayout(init);
      LoadPairsRedirects(init);
      NewKeyAbsent(st, pairs);
      AddPrimitiveRecords(st, init, pairs[n].0, pairs[n].1);
      LastSplit(pairs);
    }
  }

  /** The redirect half of `LoadPairsConverts`. */
  lemma {:induction false} LoadPairsRedirects(pairs: seq<(G.Mesh, G.Primitive)>)
    requires forall k :: 0 <= k < |pairs| ==> Supported(pairs[k].1)
    requires KeysDistinct(pairs) && LoadPairs(EMPTY, pairs).Success?
    ensures RedirectsOwn(LoadPairs(EMPTY, pairs).value, pairs)
    decreases |pairs|
  {
    if |pairs| > 0 {
      var n := |pairs| - 1;
      var init := pairs[..n];
      var st := LoadPairs(EMPTY, init).value;
      LoadPairsRedirects(init);
      NewKeyAbsent(st, pairs);
      AddPrimitiveRedirects(st, init, pairs[n].0, pairs[n].1);
      LastSplit(pairs);
    }
  }

  lemma LastSplit<T>(s: seq<T>)
    requires |s| > 0
    ensures s == s[..|s| - 1] + [s[|s| - 1]]
  {
  }

  /** With distinct keys, the last pair's key is not yet redirected. */
  lemma NewKeyAbsent(st: Loader, pairs: seq<(G.Mesh, G.Primitive)>)
    requires |pairs| > 0 && KeysDistinct(pairs) && RedirectsOwn(st, pairs[..|pairs| - 1])
    ensures Key(pairs[|pairs| - 1].0, pairs[|pairs| - 1].1) !in st.redirect
  {
  }

  lemma AddPrimitiveRedirects(st: Loader, init: seq<(G.Mesh, G.Primitive)>, m: G.Mesh, p: G.Primitive)
    requires Supported(p) && RedirectsOwn(st, init) && Key(m, p) !in st.redirect
    requires AddPrimitive(st, m, p).Success?
    ensures RedirectsOwn(AddPrimitive(st, m, p).value, init + [(m, p)])
  {
    var pairs := init + [(m, p)];
    forall k | 0 <= k < |init|
      ensures pairs[k] == init[k]
    {
    }
  }

  lemma AddPrimitiveRecords(st: Loader, init: seq<(G.Mesh, G.Primitive)>, m: G.Mesh, p: G.Primitive)
    requires forall k :: 0 <= k < |init| ==> Supported(init[k].1)
    requires Supported(p) && RecordsConverted(st, init) && Layout(st) && Key(m, p) !in st.redirect
    requires AddPrimitive(st, m, p).Success?
    requires |AddPrimitive(st, m, p).value.vertices| <= U32_MAX && |AddPrimitive(st, m, p).value.indices| <= U32_MAX
    ensures RecordsConverted(AddPrimitive(st, m, p).value, init + [(m, p)])
  {
    var r := AddPrimitive(st, m, p).value;
    var pairs := init + [(m, p)];
    forall k | 0 <= k < |init|
      ensures RecordConverted(r, k, pairs[k].0, pairs[k].1)
    {
      assert pairs[k] == init[k];
      assert RecordConverted(st, k, init[k].0, init[k].1);
      KeepsOldRecord(st, r, k, init[k].0, init[k].1);
    }
    var vs := PrimitiveVertices(p).value;
    assert r.vertices[|st.vertices|..|st.vertices| + |vs|] == vs;
    assert r.indices[|st.indices|..|st.indices| + |p.indices.value|] == p.indices.value;
    assert RecordConverted(r, |init|, m, p);
  }

  /** Appending to both arrays and to the record list keeps an earlier record
      converted. */
  lemma KeepsOldRecord(st: Loader, r: Loader, k: nat, m: G.Mesh, p: G.Primitive)
    requires Supported(p) && k < |st.meshes| && RecordConverted(st, k, m, p)
    requires st.vertices <= r.vertices && st.indices <= r.indices && st.meshes <= r.meshes
    ensures RecordConverted(r, k, m, p)
  {
    var mesh := st.meshes[k];
    assert r.vertices[mesh.vertexOffset..mesh.vertexOffset + mesh.vertexCount]
        == st.vertices[mesh.vertexOffset..mesh.vertexOffset + mesh.vertexCount];
    assert r.indices[mesh.indexOffset..mesh.indexOffset + mesh.indexCount]
        == st.indices[mesh.indexOffset..mesh.indexOffset + mesh.indexCount];
  }

  /** A document numbered by position never repeats a key among its
      supported primitives. */
  lemma WellIndexedKeysDistinct(ms: seq<G.Mesh>)
    requires WellIndexed(ms)
    ensures KeysDistinct(SupportedPairs(ms))
  {
    SupportedPairsDistinct(ms, 0);
  }

  lemma {:induction false} SupportedPairsDistinct(ms: seq<G.Mesh>, base: nat)
    requires forall i :: 0 <= i < |ms| ==>
      && ms[i].index == base + i
      && forall j :: 0 <= j < |ms[i].primitives| ==> ms[i].primitives[j].index == j
    ensures KeysDistinct(SupportedPairs(ms))
    ensures forall k :: 0 <= k < |SupportedPairs(ms)| ==> SupportedPairs(ms)[k].0.index >= base
    decreases |ms|
  {
    if |ms| > 0 {
      var head := MeshPairs(ms[0], ms[0].primitives);
      var tail := SupportedPairs(ms[1..]);
      MeshPairsDistinct(ms[0], ms[0].primitives, 0);
      SupportedPairsDistinct(ms[1..], base + 1);
      assert SupportedPairs(ms) == head + tail;
      forall j, k | 0 <= j < |head| && 0 <= k < |tail|
        ensures Key(head[j].0, head[j].1) != Key(tail[k].0, tail[k].1)
      {
        assert head[j].0.index == base;
      }
      DistinctConcat(head, tail);
    }
  }

  lemma {:induction false} MeshPairsDistinct(m: G.Mesh, ps: seq<G.Primitive>, base: nat)
    requires forall j :: 0 <= j < |ps| ==> ps[j].index == base + j
    ensures KeysDistinct(MeshPairs(m, ps))
    ensures forall k :: 0 <= k < |MeshPairs(m, ps)| ==> MeshPairs(m, ps)[k].1.index >= base
    decreases |ps|
  {
    if |ps| > 0 {
      var head: seq<(G.Mesh, G.Primitive)> := if Supported(ps[0]) then [(m, ps[0])] else [];
      var tail := MeshPairs(m, ps[1..]);
      MeshPairsDistinct(m, ps[1..], base + 1);
      DistinctConcat(head, tail);
    }
  }

  lemma DistinctConcat(a: seq<(G.Mesh, G.Primitive)>, b: seq<(G.Mesh, G.Primitive)>)
    requires KeysDistinct(a) && KeysDistinct(b)
    requires forall j, k :: 0 <= j < |a| && 0 <= k < |b| ==> Key(a[j].0, a[j].1) != Key(b[k].0, b[k].1)
    ensures KeysDistinct(a + b)
  {
    forall j, k | 0 <= j < k < |a + b|
      ensures Key((a + b)[j].0, (a + b)[j].1) != Key((a + b)[k].0, (a + b)[k].1)
    {
      if k < |a| {
      } else if j >= |a| {
        assert (a + b)[j] == b[j - |a|] && (a + b)[k] == b[k - |a|];
      } else {
        assert (a + b)[j] == a[j] && (a + b)[k] == b[k - |a|];
      }
    }
  }

  // The node loop

  /** The nodes of one mesh-bearing glTF node: one per supported primitive of
      its mesh, each with the record its key is redirected to; a missing
      redirect is the `unwrap` panic and a record past the list an index
      panic. */
  function PrimitiveNodes(n: G.Node, m: G.Mesh, ps: seq<G.Primitive>, st: Loader): (r: Result<seq<Node>, LoadError>)
    ensures r.Success? <==>
      forall k :: 0 <= k < |ps| && Supported(ps[k]) ==>
        Key(m, ps[k]) in st.redirect && st.redirect[Key(m, ps[k])] < |st.meshes|
    ensures r.Success? ==> |r.value| == |MeshPairs(m, ps)|
  {
    if |ps| == 0 then Success([])
    else
      if !Supported(ps[0]) then PrimitiveNodes(n, m, ps[1..], st)
      else
        var key := Key(m, ps[0]);
        if key !in st.redirect || st.redirect[key] >= |st.meshes| then Failure(MissingRedirect)
        else
          var rest :- PrimitiveNodes(n, m, ps[1..], st);
          Success([Node(n.matrix, st.meshes[st.redirect[key]], n.name)] + rest)
  }

  /** Node `k` of a primitive's expansion is the `k`-th supported primitive of
      the mesh, through the redirect, under the node's transform and name. */
  lemma {:induction false} PrimitiveNodesAt(n: G.Node, m: G.Mesh, ps: seq<G.Primitive>, st: Loader, k: nat)
    requires PrimitiveNodes(n, m, ps, st).Success? && k < |PrimitiveNodes(n, m, ps, st).value|
    ensures var p := MeshPairs(m, ps)[k].1;
      && Key(m, p) in st.redirect && st.redirect[Key(m, p)] < |st.meshes|
      && PrimitiveNodes(n, m, ps, st).value[k] == Node(n.matrix, st.meshes[st.redirect[Key(m, p)]], n.name)
    decreases |ps|
  {
    var tail := ps[1..];
    if !Supported(ps[0]) {
      SkipUnsupported(n, m, ps, st);
      PrimitiveNodesAt(n, m, tail, st, k);
    } else {
      ConsSupported(n, m, ps, st);
      if k > 0 {
        PrimitiveNodesAt(n, m, tail, st, k - 1);
        assert MeshPairs(m, ps)[k] == MeshPairs(m, tail)[k - 1];
        assert PrimitiveNodes(n, m, ps, st).value[k] == PrimitiveNodes(n, m, tail, st).value[k - 1];
      }
    }
  }

  lemma SkipUnsupported(n: G.Node, m: G.Mesh, ps: seq<G.Primitive>, st: Loader)
    requires |ps| > 0 && !Supported(ps[0])
    ensures MeshPairs(m, ps) == MeshPairs(m, ps[1..])
    ensures PrimitiveNodes(n, m, ps, st) == PrimitiveNodes(n, m, ps[1..], st)
  {
  }

  lemma ConsSupported(n: G.Node, m: G.Mesh, ps: seq<G.Primitive>, st: Loader)
    requires |ps| > 0 && Supported(ps[0]) && PrimitiveNodes(n, m, ps, st).Success?
    ensures MeshPairs(m, ps) == [(m, ps[0])] + MeshPairs(m, ps[1..])
    ensures Key(m, ps[0]) in st.redirect && st.redirect[Key(m, ps[0])] < |st.meshes|
    ensures PrimitiveNodes(n, m, ps[1..], st).Success?
    ensures PrimitiveNodes(n, m, ps, st).value
         == [Node(n.matrix, st.meshes[st.redirect[Key(m, ps[0])]], n.name)] + PrimitiveNodes(n, m, ps[1..], st).value
  {
  }

  /** The node loop: nodes without a mesh are skipped; a mesh index past the
      document's meshes cannot be resolved. */
  function NodesFrom(nodes: seq<G.Node>, ms: seq<G.Mesh>, st: Loader): (r: Result<seq<Node>, LoadError>)
    ensures r.Success? <==> forall j :: 0 <= j < |nodes| && nodes[j].mesh.Some? ==>
      nodes[j].mesh.value < |ms| && PrimitiveNodes(nodes[j], ms[nodes[j].mesh.value], ms[nodes[j].mesh.value].primitives, st).Success?
    ensures r.Success? ==> |r.value| == NodeCount(nodes, ms)
    decreases |nodes|
  {
    if |nodes| == 0 then Success([])
    else
      var n := nodes[0];
      var head :- if n.mesh.None? then Success([])
                  else if n.mesh.value >= |ms| then Failure(MissingMesh)
                  else PrimitiveNodes(n, ms[n.mesh.value], ms[n.mesh.value].primitives, st);
      var rest :- NodesFrom(nodes[1..], ms, st);
      Success(head + rest)
  }

  /** The number of supported primitives over the mesh-bearing nodes. */
  function NodeCount(nodes: seq<G.Node>, ms: seq<G.Mesh>): nat {
    if |nodes| == 0 then 0 else ExpansionCount(nodes[0], ms) + NodeCount(nodes[1..], ms)
  }

  /** The number of nodes one glTF node expands to. */
  function ExpansionCount(n: G.Node, ms: seq<G.Mesh>): nat {
    if n.mesh.Some? && n.mesh.value < |ms| then |MeshPairs(ms[n.mesh.value], ms[n.mesh.value].primitives)| else 0
  }

  /** The node loop's output is the nodes' expansions in node order: the
      block of glTF node `j` starts after the expansions of the nodes
      before it and is exactly that node's `PrimitiveNodes`, or empty when
      the node bears no mesh. */
  lemma {:induction false} NodesFromBlocks(nodes: seq<G.Node>, ms: seq<G.Mesh>, st: Loader, j: nat)
    requires NodesFrom(nodes, ms, st).Success? && j < |nodes|
    ensures var r := NodesFrom(nodes, ms, st).value;
      var lo := NodeCount(nodes[..j], ms);
      var hi := NodeCount(nodes[..j + 1], ms);
      && lo <= hi <= |r|
      && (nodes[j].mesh.None? ==> lo == hi)
      && (nodes[j].mesh.Some? ==>
            && nodes[j].mesh.value < |ms|
            && PrimitiveNodes(nodes[j], ms[nodes[j].mesh.value], ms[nodes[j].mesh.value].primitives, st).Success?
            && r[lo..hi] == PrimitiveNodes(nodes[j], ms[nodes[j].mesh.value], ms[nodes[j].mesh.value].primitives, st).value)
    decreases j, 1
  {
    if j == 0 {
      FirstBlock(nodes, ms, st);
    } else {
      LaterBlock(nodes, ms, st, j);
    }
  }

  /** The claim of NodesFromBlocks for node `j`. */
  ghost predicate BlockAt(nodes: seq<G.Node>, ms: seq<G.Mesh>, st: Loader, j: nat)
    requires NodesFrom(nodes, ms, st).Success? && j < |nodes|
  {
    var r := NodesFrom(nodes, ms, st).value;
    var lo := NodeCount(nodes[..j], ms);
    var hi := NodeCount(nodes[..j + 1], ms);
    && lo <= hi <= |r|
    && (nodes[j].mesh.None? ==> lo == hi)
    && (nodes[j].mesh.Some? ==>
          && nodes[j].mesh.value < |ms|
          && PrimitiveNodes(nodes[j], ms[nodes[j].mesh.value], ms[nodes[j].mesh.value].primitives, st).Success?
          && r[lo..hi] == PrimitiveNodes(nodes[j], ms[nodes[j].mesh.value], ms[nodes[j].mesh.value].primitives, st).value)
  }

  lemma FirstBlock(nodes: seq<G.Node>, ms: seq<G.Mesh>, st: Loader)
    requires NodesFrom(nodes, ms, st).Success? && 0 < |nodes|
    ensures BlockAt(nodes, ms, st, 0)
  {
    NodesFromCons(nodes, ms, st);
    NodeCountPrefix(nodes, ms, 1);
    assert nodes[..0] == [] && nodes[1..][..0] == [];
  }

  lemma {:induction false} LaterBlock(nodes: seq<G.Node>, ms: seq<G.Mesh>, st: Loader, j: nat)
    requires NodesFrom(nodes, ms, st).Success? && 0 < j < |nodes|
    ensures BlockAt(nodes, ms, st, j)
    decreases j, 0
  {
    NodesFromCons(nodes, ms, st);
    var r := NodesFrom(nodes, ms, st).value;
    var rest := NodesFrom(nodes[1..], ms, st).value;
    var c0 := ExpansionCount(nodes[0], ms);
    NodeCountPrefix(nodes, ms, j + 1);
    NodeCountPrefix(nodes, ms, j);
    NodesFromBlocks(nodes[1..], ms, st, j - 1);
    assert nodes[1..][j - 1] == nodes[j];
    var lo' := NodeCount(nodes[1..][..j - 1], ms);
    var hi' := NodeCount(nodes[1..][..j], ms);
    assert lo' <= hi' <= |rest|;
    SuffixSlice(r, rest, c0, lo', hi');
    assert NodeCount(nodes[..j], ms) == c0 + lo' && NodeCount(nodes[..j + 1], ms) == c0 + hi';
    BlockIntro(nodes, ms, st, j, r, c0 + lo', c0 + hi');
  }

  /** BlockAt from its parts, with the output and the bounds named. */
  lemma BlockIntro(nodes: seq<G.Node>, ms: seq<G.Mesh>, st: Loader, j: nat, r: seq<Node>, lo: nat, hi: nat)
    requires NodesFrom(nodes, ms, st).Success? && j < |nodes|
    requires r == NodesFrom(nodes, ms, st).value
    requires lo == NodeCount(nodes[..j], ms) && hi == NodeCount(nodes[..j + 1], ms)
    requires lo <= hi <= |r|
    requires nodes[j].mesh.None? ==> lo == hi
    requires nodes[j].mesh.Some? ==>
      && nodes[j].mesh.value < |ms|
      && PrimitiveNodes(nodes[j], ms[nodes[j].mesh.value], ms[nodes[j].mesh.value].primitives, st).Success?
      && r[lo..hi] == PrimitiveNodes(nodes[j], ms[nodes[j].mesh.value], ms[nodes[j].mesh.value].primitives, st).value
    ensures BlockAt(nodes, ms, st, j)
  {
  }

  /** A slice of a suffix is the slice of the whole sequence, shifted. */
  lemma SuffixSlice<T>(r: seq<T>, rest: seq<T>, c: nat, lo: nat, hi: nat)
    requires c <= |r| && r[c..] == rest && lo <= hi <= |rest|
    ensures c + hi <= |r| && r[c + lo..c + hi] == rest[lo..hi]
  {
    assert r[c + lo..c + hi] == r[c..][lo..hi];
  }

  /** One step of the node loop: the first node's expansion, then the rest. */
  lemma NodesFromCons(nodes: seq<G.Node>, ms: seq<G.Mesh>, st: Loader)
    requires NodesFrom(nodes, ms, st).Success? && |nodes| > 0
    ensures NodesFrom(nodes[1..], ms, st).Success?
    ensures var n := nodes[0];
      var r := NodesFrom(nodes, ms, st).value;
      var rest := NodesFrom(nodes[1..], ms, st).value;
      && |r| == ExpansionCount(n, ms) + |rest| && r[ExpansionCount(n, ms)..] == rest
      && (n.mesh.Some? ==>
            && n.mesh.value < |ms|
            && PrimitiveNodes(n, ms[n.mesh.value], ms[n.mesh.value].primitives, st).Success?
            && r[..ExpansionCount(n, ms)] == PrimitiveNodes(n, ms[n.mesh.value], ms[n.mesh.value].primitives, st).value)
  {
  }

  /** The count over a prefix, split after its first node. */
  lemma NodeCountPrefix(nodes: seq<G.Node>, ms: seq<G.Mesh>, j: nat)
    requires 0 < j <= |nodes|
    ensures NodeCount(nodes[..j], ms) == ExpansionCount(nodes[0], ms) + NodeCount(nodes[1..][..j - 1], ms)
  {
    assert nodes[..j][1..] == nodes[1..][..j - 1];
  }

  /** The `unwrap` of the redirect never fails: after the mesh loop every
      supported primitive of every mesh has a record, so every node whose mesh
      exists expands. */
  lemma NodesExpand(nodes: seq<G.Node>, ms: seq<G.Mesh>)
    requires LoadPairs(EMPTY, SupportedPairs(ms)).Success?
    requires forall j :: 0 <= j < |nodes| && nodes[j].mesh.Some? ==> nodes[j].mesh.value < |ms|
    ensures NodesFrom(nodes, ms, LoadPairs(EMPTY, SupportedPairs(ms)).value).Success?
  {
  }

  /** With the document's own numbering and arrays that fit `u32` offsets,
      node `k` made from a glTF node carries that node's transform and the
      record of its `k`-th supported primitive, whose slices of the shared
      arrays are exactly that primitive's vertices and indices. */
  lemma PrimitiveNodesCarryData(ms: seq<G.Mesh>, n: G.Node, i: nat, k: nat)
    requires WellIndexed(ms) && i < |ms|
    requires LoadPairs(EMPTY, SupportedPairs(ms)).Success?
    requires |LoadPairs(EMPTY, SupportedPairs(ms)).value.vertices| <= U32_MAX
    requires |LoadPairs(EMPTY, SupportedPairs(ms)).value.indices| <= U32_MAX
    requires PrimitiveNodes(n, ms[i], ms[i].primitives, LoadPairs(EMPTY, SupportedPairs(ms)).value).Success?
    requires k < |PrimitiveNodes(n, ms[i], ms[i].primitives, LoadPairs(EMPTY, SupportedPairs(ms)).value).value|
    ensures var st := LoadPairs(EMPTY, SupportedPairs(ms)).value;
      var node := PrimitiveNodes(n, ms[i], ms[i].primitives, st).value[k];
      && node.transform == n.matrix && node.name == n.name
      && MeshConverted(st, node.mesh, ms[i], MeshPairs(ms[i], ms[i].primitives)[k].1)
  {
    var pairs := SupportedPairs(ms);
    var st := LoadPairs(EMPTY, pairs).value;
    var p := MeshPairs(ms[i], ms[i].primitives)[k].1;
    WellIndexedKeysDistinct(ms);
    LoadPairsRedirects(pairs);
    LoadPairsConverts(pairs);
    assert (ms[i], p) in pairs;
    var t :| 0 <= t < |pairs| && pairs[t] == (ms[i], p);
    assert st.redirect[Key(ms[i], p)] == t;
    PrimitiveNodesAt(n, ms[i], ms[i].primitives, st, k);
    var node := PrimitiveNodes(n, ms[i], ms[i].primitives, st).value[k];
    assert node.mesh == st.meshes[t];
    assert RecordConverted(st, t, ms[i], p) by {
      assert RecordConverted(st, t, pairs[t].0, pairs[t].1);
    }
  }

  // Cameras, images, samplers and textures

  /** A perspective camera with a missing far plane gets 1000; other
      projections are dropped. */
  function CamOf(c: G.Camera): (r: Option<Cam>)
    ensures r.Some? <==> c.Perspective?
    ensures r.Some? ==> r.value.fov == c.yfov && r.value.znear == c.znear
    ensures r.Some? && c.zfar.None? ==> r.value.zfar == 1000.0
    ensures r.Some? && c.zfar.Some? ==> r.value.zfar == c.zfar.value
  {
    match c
    case Perspective(yfov, znear, zfar) => Some(Cam(yfov, znear, zfar.GetOr(1000.0)))
    case Orthographic => None
  }

  /** Node `n` bears a mesh and a camera that gives `c`. */
  predicate HasCam(n: G.Node, c: Cam) {
    n.mesh.Some? && n.camera.Some? && CamOf(n.camera.value) == Some(c)
  }

  /** The camera node `n` contributes: its perspective camera when it also
      bears a mesh. */
  function CamsOf(n: G.Node): (r: seq<Cam>)
    ensures |r| <= 1
    ensures |r| == 1 <==> n.mesh.Some? && n.camera.Some? && n.camera.value.Perspective?
    ensures |r| == 1 ==> HasCam(n, r[0])
  {
    if n.mesh.Some? && n.camera.Some? && CamOf(n.camera.value).Some? then [CamOf(n.camera.value).value] else []
  }

  /** The cameras of the mesh-bearing nodes, in node order: a camera on a
      node without a mesh is never collected, and every perspective camera
      on a mesh-bearing node is. */
  function Cameras(nodes: seq<G.Node>): (r: seq<Cam>)
    ensures |r| <= |nodes|
    ensures forall k :: 0 <= k < |r| ==> exists j :: 0 <= j < |nodes| && HasCam(nodes[j], r[k])
    ensures forall j :: 0 <= j < |nodes| && |CamsOf(nodes[j])| == 1 ==> CamsOf(nodes[j])[0] in r
  {
    if |nodes| == 0 then []
    else
      var head := CamsOf(nodes[0]);
      var rest := Cameras(nodes[1..]);
      CamerasCombine(nodes, head, rest);
      head + rest
  }

  /** The step of Cameras: the first node's camera, then those of the rest,
      are sound and complete for the whole list. */
  lemma CamerasCombine(nodes: seq<G.Node>, head: seq<Cam>, rest: seq<Cam>)
    requires |nodes| > 0 && head == CamsOf(nodes[0]) && |rest| <= |nodes| - 1
    requires forall k :: 0 <= k < |rest| ==> exists j :: 0 <= j < |nodes[1..]| && HasCam(nodes[1..][j], rest[k])
    requires forall j :: 0 <= j < |nodes[1..]| && |CamsOf(nodes[1..][j])| == 1 ==> CamsOf(nodes[1..][j])[0] in rest
    ensures |head + rest| <= |nodes|
    ensures forall k :: 0 <= k < |head + rest| ==> exists j :: 0 <= j < |nodes| && HasCam(nodes[j], (head + rest)[k])
    ensures forall j :: 0 <= j < |nodes| && |CamsOf(nodes[j])| == 1 ==> CamsOf(nodes[j])[0] in head + rest
  {
    var r := head + rest;
    forall k | 0 <= k < |r|
      ensures exists j :: 0 <= j < |nodes| && HasCam(nodes[j], r[k])
    {
      if k < |head| {
        assert HasCam(nodes[0], r[k]);
      } else {
        assert r[k] == rest[k - |head|];
        var j :| 0 <= j < |nodes[1..]| && HasCam(nodes[1..][j], rest[k - |head|]);
        assert nodes[j + 1] == nodes[1..][j];
      }
    }
    forall j | 0 <= j < |nodes| && |CamsOf(nodes[j])| == 1
      ensures CamsOf(nodes[j])[0] in r
    {
      if j == 0 {
        assert r[0] == head[0];
      } else {
        assert nodes[j] == nodes[1..][j - 1];
      }
    }
  }

  /** Collecting cameras respects node order: the cameras of two runs of
      nodes are those of the first run followed by those of the second. */
  lemma {:induction false} CamerasAppend(a: seq<G.Node>, b: seq<G.Node>)
    ensures Cameras(a + b) == Cameras(a) + Cameras(b)
    decreases |a|
  {
    if |a| == 0 {
      assert a + b == b;
    } else {
      assert (a + b)[0] == a[0] && (a + b)[1..] == a[1..] + b;
      CamerasAppend(a[1..], b);
      CamerasCons(a + b);
      CamerasCons(a);
    }
  }

  lemma CamerasCons(nodes: seq<G.Node>)
    requires |nodes| > 0
    ensures Cameras(nodes) == CamsOf(nodes[0]) + Cameras(nodes[1..])
  {
  }

  /** `gltf::Image::try_from` on every image, in order; the first failure
      aborts the load. */
  function ConvertImages(raw: seq<RawImage>): (r: Result<seq<Image>, LoadError>)
    ensures r.Success? <==> forall k :: 0 <= k < |raw| ==> Pixels.ExpandZeroFill(raw[k].pixels, raw[k].format).Success?
    ensures r.Success? ==> |r.value| == |raw|
    ensures r.Success? ==> forall k :: 0 <= k < |raw| ==>
      r.value[k] == Image(Pixels.ExpandZeroFill(raw[k].pixels, raw[k].format).value, raw[k].width, raw[k].height)
    decreases |raw|
  {
    if |raw| == 0 then Success([])
    else
      var pixels :- Pixels.ExpandZeroFill(raw[0].pixels, raw[0].format).MapFailure(e => ImageFailed(e));
      var rest :- ConvertImages(raw[1..]);
      Success([Image(pixels, raw[0].width, raw[0].height)] + rest)
  }

  /** `load_file`: the mesh loop, the node loop, the images, then the default
      sampler followed by the document's samplers, and the textures. */
  function LoadFile(f: File): (r: Result<Model, LoadError>)
    ensures r.Success? <==>
      && LoadPairs(EMPTY, SupportedPairs(f.meshes)).Success?
      && NodesFrom(f.nodes, f.meshes, LoadPairs(EMPTY, SupportedPairs(f.meshes)).value).Success?
      && ConvertImages(f.images).Success?
    ensures r.Success? ==>
      && r.value.vertices == LoadPairs(EMPTY, SupportedPairs(f.meshes)).value.vertices
      && r.value.indices == LoadPairs(EMPTY, SupportedPairs(f.meshes)).value.indices
      && r.value.nodes == NodesFrom(f.nodes, f.meshes, LoadPairs(EMPTY, SupportedPairs(f.meshes)).value).value
      && r.value.images == ConvertImages(f.images).value
    ensures r.Success? ==> |r.value.samplers| == |f.samplers| + 1 && r.value.samplers[0] == GT.DefaultSampler()
    ensures r.Success? ==> forall k :: 0 <= k < |f.samplers| ==> r.value.samplers[k + 1] == GT.SamplerFrom(f.samplers[k])
    ensures r.Success? ==> |r.value.textures| == |f.textures|
    ensures r.Success? ==> forall k :: 0 <= k < |f.textures| ==> r.value.textures[k] == GT.TextureFrom(f.textures[k])
  {
    var st :- LoadPairs(EMPTY, SupportedPairs(f.meshes));
    var nodes :- NodesFrom(f.nodes, f.meshes, st);
    var images :- ConvertImages(f.images);
    Success(Model(st.vertices, st.indices, nodes, images, TexturesFrom(f.textures), SamplersFrom(f.samplers)))
  }

  /** The sampler list: the default sampler first, then each document sampler. */
  function SamplersFrom(ss: seq<G.Sampler>): (r: seq<GT.Sampler>)
    ensures |r| == |ss| + 1 && r[0] == GT.DefaultSampler()
    ensures forall k :: 0 <= k < |ss| ==> r[k + 1] == GT.SamplerFrom(ss[k])
  {
    [GT.DefaultSampler()] + seq(|ss|, k requires 0 <= k < |ss| => GT.SamplerFrom(ss[k]))
  }

  /** The texture list, one entry per document texture. */
  function TexturesFrom(ts: seq<G.Texture>): (r: seq<GT.Texture>)
    ensures |r| == |ts|
    ensures forall k :: 0 <= k < |ts| ==> r[k] == GT.TextureFrom(ts[k])
  {
    seq(|ts|, k requires 0 <= k < |ts| => GT.TextureFrom(ts[k]))
  }

  /** A textured primitive of the glTF loader samples with the default
      sampler exactly when its texture names no sampler: slot 0 is the
      default, slot `k + 1` the document's sampler `k`. */
  lemma TextureSamplerSlot(f: File, k: nat)
    requires LoadFile(f).Success? && k < |f.textures|
    requires f.textures[k].sampler.Some? ==> f.textures[k].sampler.value < |f.samplers|
    ensures var m := LoadFile(f).value;
      && m.textures[k].samplerIndex < |m.samplers|
      && (f.textures[k].sampler.None? <==> m.samplers[m.textures[k].samplerIndex] == GT.DefaultSampler() && m.textures[k].samplerIndex == 0)
      && (f.textures[k].sampler.Some? ==> m.samplers[m.textures[k].samplerIndex] == GT.SamplerFrom(f.samplers[f.textures[k].sampler.value]))
  {
    LoadedTables(f);
    var m := LoadFile(f).value;
    assert m.textures[k] == GT.TextureFrom(f.textures[k]);
  }

  lemma LoadedTables(f: File)
    requires LoadFile(f).Success?
    ensures LoadFile(f).value.textures == TexturesFrom(f.textures)
    ensures LoadFile(f).value.samplers == SamplersFrom(f.samplers)
  {
  }

  /** The mesh loop fails only on a primitive whose attributes are shorter
      than its positions. */
  lemma {:induction false} LoadPairsSucceeds(st: Loader, pairs: seq<(G.Mesh, G.Primitive)>)
    requires forall k :: 0 <= k < |pairs| ==> Supported(pairs[k].1) && AttributesCover(pairs[k].1)
    ensures LoadPairs(st, pairs).Success?
    decreases |pairs|
  {
    if |pairs| > 0 {
      LoadPairsSucceeds(st, pairs[..|pairs| - 1]);
    }
  }

  /** A document whose primitives' attributes cover their positions, whose
      nodes name existing meshes and whose images are whole 8-bit pixels
      loads. */
  lemma LoadFileSucceeds(f: File)
    requires forall m, p :: m in f.meshes && p in m.primitives && Supported(p) ==> AttributesCover(p)
    requires forall j :: 0 <= j < |f.nodes| && f.nodes[j].mesh.Some? ==> f.nodes[j].mesh.value < |f.meshes|
    requires forall k :: 0 <= k < |f.images| ==>
      Pixels.PixelSize(f.images[k].format).Some? && |f.images[k].pixels| % Pixels.PixelSize(f.images[k].format).value == 0
    ensures LoadFile(f).Success?
  {
    LoadPairsSucceeds(EMPTY, SupportedPairs(f.meshes));
    NodesExpand(f.nodes, f.meshes);
    forall k | 0 <= k < |f.images|
      ensures Pixels.ExpandZeroFill(f.images[k].pixels, f.images[k].format).Success?
    {
      Pixels.ZeroFillSucceeds(f.images[k].pixels, f.images[k].format, 0);
    }
  }
}
