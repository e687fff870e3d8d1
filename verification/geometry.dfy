/** The asset loader's geometry builder: every supported primitive of every
    mesh becomes one geometry with its own id, its vertices and indices are
    appended to two global arrays, and the builder records where each
    geometry's slice starts. */
module Geometry {
  import opened Wrappers
  import opened Bits
  import opened Vectors
  import G = GltfDocument
  import Materials
  import BoundingBoxes

  /** The vertex record of the global vertex buffer. */
  datatype Vertex = Vertex(
    position: Vec4, normal: Vec4, tangent: Vec4, color: Vec4, weights: Vec4,
    joints: UVec4, uv0: Vec2, uv1: Vec2, skinIndex: int)

  /** Where a geometry starts in the global arrays, and its material. */
  datatype Offsets = Offsets(vertexOffset: nat, indexOffset: nat, material: nat)

  /** Number of vertices and of indices of one geometry. */
  datatype Lengths = Lengths(vertices: nat, indices: nat)

  datatype GeoError = CounterOverflow | MissingPositions | IndexOutOfBounds | IndexCountNotTriangles

  /** `GeoBuilder` without its transient glTF buffers. */
  datatype GeoBuilder = GeoBuilder(
    vertices: seq<Vertex>, indices: seq<nat>, geoCounter: nat,
    offsets: seq<Offsets>, len: seq<Lengths>,
    normalTextures: seq<bool>, opacity: seq<bool>, materialId: seq<nat>)

  /** `GeoBuilder::default()`: everything empty. */
  function DefaultGeoBuilder(): (r: GeoBuilder)
    ensures r.vertices == [] && r.indices == [] && r.geoCounter == 0 && r.offsets == [] && r.len == []
    ensures r.normalTextures == [] && r.opacity == [] && r.materialId == []
  {
    GeoBuilder([], [], 0, [], [], [], [], [])
  }

  /** `GeoBuilder::new`: one normal-texture flag and one opacity flag per
      material, in material order; everything else empty. */
  function NewGeoBuilder(materials: seq<Materials.Material>): (r: GeoBuilder)
    ensures |r.normalTextures| == |materials| && |r.opacity| == |materials|
    ensures forall i :: 0 <= i < |materials| ==>
      r.normalTextures[i] == materials[i].HasNormalTexture() && r.opacity[i] == materials[i].IsOpaque()
    ensures r.(normalTextures := [], opacity := []) == DefaultGeoBuilder()
  {
    GeoBuilder([], [], 0, [], [],
      seq(|materials|, i requires 0 <= i < |materials| => materials[i].HasNormalTexture()),
      seq(|materials|, i requires 0 <= i < |materials| => materials[i].IsOpaque()),
      [])
  }

  /** `next_geo_id`: hands out the current counter, counts up and records the
      geometry's material; counting past `u32::MAX` is an overflow panic. */
  function NextGeoId(b: GeoBuilder, materialId: nat): (r: Result<(GeoBuilder, nat), GeoError>)
    ensures r.Success? <==> b.geoCounter < U32_MAX
    ensures r.Success? ==> var (b', id) := r.value;
      && id == b.geoCounter && b'.geoCounter == b.geoCounter + 1
      && b'.materialId == b.materialId + [materialId]
      && b' == b.(geoCounter := b'.geoCounter, materialId := b'.materialId)
  {
    var next :- CheckedAdd(b.geoCounter, 1).ToResult(CounterOverflow);
    Success((b.(geoCounter := next, materialId := b.materialId + [materialId]), b.geoCounter))
  }

  /** Ids are handed out in sequence: after `k` successful calls from a
      builder whose counter matched its material list, the ids were
      `0, 1, ..., k - 1` and the counter still matches. */
  lemma NextGeoIdKeepsCount(b: GeoBuilder, materialId: nat)
    requires b.geoCounter == |b.materialId| && b.geoCounter < U32_MAX
    ensures var (b', id) := NextGeoId(b, materialId).value;
      b'.geoCounter == |b'.materialId| && id == |b'.materialId| - 1 && b'.materialId[id] == materialId
  {
  }

  /** `is_opaque`: the opacity of the geometry's material; an unknown geometry
      or material is an index panic. */
  function IsOpaque(b: GeoBuilder, geoId: nat): (r: Result<bool, GeoError>)
    ensures r.Success? <==> geoId < |b.materialId| && b.materialId[geoId] < |b.opacity|
    ensures r.Success? ==> r.value == b.opacity[b.materialId[geoId]]
  {
    if geoId < |b.materialId| && b.materialId[geoId] < |b.opacity| then Success(b.opacity[b.materialId[geoId]])
    else Failure(IndexOutOfBounds)
  }

  function AllTrue(s: seq<bool>): (r: bool)
    ensures r <==> forall i :: 0 <= i < |s| ==> s[i]
  {
    if |s| == 0 then true
    else
      assert forall i :: 1 <= i < |s| ==> s[i] == s[1..][i - 1];
      s[0] && AllTrue(s[1..])
  }

  /** `fully_opaque`: every recorded opacity flag is set. */
  function FullyOpaque(b: GeoBuilder): (r: bool)
    ensures r <==> forall i :: 0 <= i < |b.opacity| ==> b.opacity[i]
  {
    AllTrue(b.opacity)
  }

  /** A builder made by `new` is fully opacity exactly when every material is,
      and reports each geometry's own material. */
  lemma NewBuilderOpacity(materials: seq<Materials.Material>, b: GeoBuilder)
    requires b.opacity == NewGeoBuilder(materials).opacity
    ensures FullyOpaque(b) <==> forall i :: 0 <= i < |materials| ==> materials[i].IsOpaque()
    ensures forall g :: 0 <= g < |b.materialId| && b.materialId[g] < |materials| ==>
      IsOpaque(b, g) == Success(materials[b.materialId[g]].IsOpaque())
  {
  }

  /** The per-geometry record uploaded to the shaders. */
  datatype PrimInfo = PrimInfo(vOffset: nat, iOffset: nat, materialId: nat, skinId: nat)

  function PrimInfoOf(o: Offsets): PrimInfo {
    PrimInfo(o.vertexOffset, o.indexOffset, o.material, 0)
  }

  /** `flatten`: one record per geometry, in geometry order, without a skin. */
  function Flatten(b: GeoBuilder): (r: seq<PrimInfo>)
    ensures |r| == |b.offsets|
    ensures forall i :: 0 <= i < |r| ==>
      && r[i].vOffset == b.offsets[i].vertexOffset && r[i].iOffset == b.offsets[i].indexOffset
      && r[i].materialId == b.offsets[i].material && r[i].skinId == 0
  {
    seq(|b.offsets|, i requires 0 <= i < |b.offsets| => PrimInfoOf(b.offsets[i]))
  }

  // Offset bookkeeping

  function VertexTotal(len: seq<Lengths>): nat {
    if |len| == 0 then 0 else VertexTotal(len[..|len| - 1]) + len[|len| - 1].vertices
  }

  function IndexTotal(len: seq<Lengths>): nat {
    if |len| == 0 then 0 else IndexTotal(len[..|len| - 1]) + len[|len| - 1].indices
  }

  /** Appends one geometry's vertices and indices and records, before
      extending, the current lengths of both arrays (cast to `u32`) as its
      offsets. */
  function AddGeometry(b: GeoBuilder, vertices: seq<Vertex>, indices: seq<nat>, material: nat): (r: GeoBuilder)
    ensures r.vertices == b.vertices + vertices && r.indices == b.indices + indices
    ensures r.len == b.len + [Lengths(|vertices|, |indices|)]
    ensures r.offsets == b.offsets + [Offsets(AsU32(|b.vertices|), AsU32(|b.indices|), material)]
    ensures r.geoCounter == b.geoCounter && r.materialId == b.materialId
    ensures r.opacity == b.opacity && r.normalTextures == b.normalTextures
  {
    b.(vertices := b.vertices + vertices, indices := b.indices + indices,
       len := b.len + [Lengths(|vertices|, |indices|)],
       offsets := b.offsets + [Offsets(AsU32(|b.vertices|), AsU32(|b.indices|), material)])
  }

  /** The offsets are the prefix sums of the recorded lengths (cast to
      `u32`), and the arrays hold exactly the recorded lengths. */
  ghost predicate Consistent(b: GeoBuilder) {
    && |b.offsets| == |b.len|
    && |b.vertices| == VertexTotal(b.len) && |b.indices| == IndexTotal(b.len)
    && forall i :: 0 <= i < |b.len| ==>
      && b.offsets[i].vertexOffset == AsU32(VertexTotal(b.len[..i]))
      && b.offsets[i].indexOffset == AsU32(IndexTotal(b.len[..i]))
  }

  lemma EmptyConsistent(materials: seq<Materials.Material>)
    ensures Consistent(DefaultGeoBuilder()) && Consistent(NewGeoBuilder(materials))
  {
  }

  /** Adding a geometry keeps the offsets the prefix sums of the lengths. */
  lemma AddGeometryConsistent(b: GeoBuilder, vertices: seq<Vertex>, indices: seq<nat>, material: nat)
    requires Consistent(b)
    ensures Consistent(AddGeometry(b, vertices, indices, material))
  {
    var r := AddGeometry(b, vertices, indices, material);
    assert r.len[..|r.len| - 1] == b.len;
    forall i | 0 <= i < |r.len|
      ensures r.offsets[i].vertexOffset == AsU32(VertexTotal(r.len[..i]))
      ensures r.offsets[i].indexOffset == AsU32(IndexTotal(r.len[..i]))
    {
      if i < |b.len| {
        assert r.len[..i] == b.len[..i];
      } else {
        assert r.len[..i] == b.len;
      }
    }
  }

  /** In a consistent builder whose arrays fit `u32` offsets, geometry `i`'s
      vertices and indices are the slices starting at its recorded offsets
      with its recorded lengths, and adding a geometry leaves every earlier
      slice where it was. */
  lemma AddGeometrySlices(b: GeoBuilder, vertices: seq<Vertex>, indices: seq<nat>, material: nat)
    requires Consistent(b) && |b.vertices| <= U32_MAX && |b.indices| <= U32_MAX
    ensures var r := AddGeometry(b, vertices, indices, material);
      var k := |b.len|;
      && r.offsets[k].vertexOffset == |b.vertices| && r.offsets[k].indexOffset == |b.indices|
      && r.vertices[r.offsets[k].vertexOffset..r.offsets[k].vertexOffset + r.len[k].vertices] == vertices
      && r.indices[r.offsets[k].indexOffset..r.offsets[k].indexOffset + r.len[k].indices] == indices
      && r.vertices[..|b.vertices|] == b.vertices && r.indices[..|b.indices|] == b.indices
  {
  }

  // Normals of primitives without a normal accessor

  /** Writes the face normal of triangles `t`, `t + 1`, ... onto their three
      vertices, later triangles overwriting earlier ones; reading a missing
      position or writing past the normal array is an index panic. */
  function Paint(normals: seq<Vec4>, positions: seq<Vec4>, indices: seq<nat>, t: nat,
                 face: (Vec4, Vec4, Vec4) -> Vec4): (r: Result<seq<Vec4>, GeoError>)
    requires 3 * t <= |indices| && |indices| % 3 == 0
    ensures r.Success? ==> |r.value| == |normals|
    ensures r.Success? <==> forall k :: 3 * t <= k < |indices| ==> indices[k] < |positions| && indices[k] < |normals|
    decreases |indices| - 3 * t
  {
    if 3 * t == |indices| then Success(normals)
    else
      var i0, i1, i2 := indices[3 * t], indices[3 * t + 1], indices[3 * t + 2];
      if i0 >= |positions| || i1 >= |positions| || i2 >= |positions| then Failure(IndexOutOfBounds)
      else if i0 >= |normals| || i1 >= |normals| || i2 >= |normals| then Failure(IndexOutOfBounds)
      else
        var n := face(positions[i0], positions[i1], positions[i2]);
        Paint(normals[i0 := n][i1 := n][i2 := n], positions, indices, t + 1, face)
  }

  /** `create_geo_normal` with the normal array given `size` entries: the
      index count must be a multiple of three (an assertion). */
  function GeoNormals(positions: seq<Vec4>, indices: seq<nat>, size: nat,
                      face: (Vec4, Vec4, Vec4) -> Vec4): (r: Result<seq<Vec4>, GeoError>)
    ensures r.Success? ==> |r.value| == size
    ensures r.Success? <==>
      |indices| % 3 == 0 && forall k :: 0 <= k < |indices| ==> indices[k] < |positions| && indices[k] < size
  {
    if |indices| % 3 != 0 then Failure(IndexCountNotTriangles)
    else Paint(seq(size, _ => ZERO4), positions, indices, 0, face)
  }

  /** `create_geo_normal` as written: one normal per index. */
  function CreateGeoNormalAsWritten(positions: seq<Vec4>, indices: seq<nat>,
                                    face: (Vec4, Vec4, Vec4) -> Vec4): (r: Result<seq<Vec4>, GeoError>)
    ensures r.Success? ==> |r.value| == |indices|
  {
    GeoNormals(positions, indices, |indices|, face)
  }

  /** `create_geo_normal` sized as the vertex assembly reads it: one normal
      per vertex. */
  function CreateGeoNormal(positions: seq<Vec4>, indices: seq<nat>,
                           face: (Vec4, Vec4, Vec4) -> Vec4): (r: Result<seq<Vec4>, GeoError>)
    ensures r.Success? ==> |r.value| == |positions|
    ensures r.Success? <==> |indices| % 3 == 0 && forall k :: 0 <= k < |indices| ==> indices[k] < |positions|
  {
    GeoNormals(positions, indices, |positions|, face)
  }

  /** The triangle `t` contains vertex `v`. */
  predicate InTriangle(indices: seq<nat>, t: nat, v: nat)
    requires 3 * t + 3 <= |indices|
  {
    indices[3 * t] == v || indices[3 * t + 1] == v || indices[3 * t + 2] == v
  }

  function FaceOf(positions: seq<Vec4>, indices: seq<nat>, t: nat, face: (Vec4, Vec4, Vec4) -> Vec4): Vec4
    requires 3 * t + 3 <= |indices|
    requires indices[3 * t] < |positions| && indices[3 * t + 1] < |positions| && indices[3 * t + 2] < |positions|
  {
    face(positions[indices[3 * t]], positions[indices[3 * t + 1]], positions[indices[3 * t + 2]])
  }

  /** What painting does to one vertex: a vertex of no remaining triangle
      keeps its normal; any other gets the face normal of a remaining
      triangle it belongs to. */
  lemma {:induction false} PaintAt(normals: seq<Vec4>, positions: seq<Vec4>, indices: seq<nat>, t: nat,
                                   face: (Vec4, Vec4, Vec4) -> Vec4, v: nat)
    requires 3 * t <= |indices| && |indices| % 3 == 0
    requires Paint(normals, positions, indices, t, face).Success? && v < |normals|
    ensures var r := Paint(normals, positions, indices, t, face).value;
      && ((forall u :: t <= u && 3 * u + 3 <= |indices| ==> !InTriangle(indices, u, v)) ==> r[v] == normals[v])
      && ((exists u :: t <= u && 3 * u + 3 <= |indices| && InTriangle(indices, u, v)) ==>
            exists u :: t <= u && 3 * u + 3 <= |indices| && InTriangle(indices, u, v)
              && r[v] == FaceOf(positions, indices, u, face))
    decreases |indices| - 3 * t
  {
    if 3 * t < |indices| {
      var i0, i1, i2 := indices[3 * t], indices[3 * t + 1], indices[3 * t + 2];
      var n := face(positions[i0], positions[i1], positions[i2]);
      var next := normals[i0 := n][i1 := n][i2 := n];
      PaintAt(next, positions, indices, t + 1, face, v);
      var r := Paint(normals, positions, indices, t, face).value;
      assert r == Paint(next, positions, indices, t + 1, face).value;
      if exists u :: t + 1 <= u && 3 * u + 3 <= |indices| && InTriangle(indices, u, v) {
      } else if InTriangle(indices, t, v) {
        assert r[v] == next[v] == n;
        assert n == FaceOf(positions, indices, t, face);
      } else {
        forall u | t <= u && 3 * u + 3 <= |indices|
          ensures !InTriangle(indices, u, v)
        {
          if u != t {
            assert t + 1 <= u;
          }
        }
      }
    }
  }

  /** Per vertex, the generated normals are zero for a vertex no triangle
      uses, and otherwise the face normal of one of the vertex's triangles. */
  lemma CreateGeoNormalAt(positions: seq<Vec4>, indices: seq<nat>, face: (Vec4, Vec4, Vec4) -> Vec4, v: nat)
    requires CreateGeoNormal(positions, indices, face).Success? && v < |positions|
    ensures var r := CreateGeoNormal(positions, indices, face).value;
      && ((forall u: nat :: 3 * u + 3 <= |indices| ==> !InTriangle(indices, u, v)) ==> r[v] == ZERO4)
      && ((exists u: nat :: 3 * u + 3 <= |indices| && InTriangle(indices, u, v)) ==>
            exists u: nat :: 3 * u + 3 <= |indices| && InTriangle(indices, u, v)
              && r[v] == FaceOf(positions, indices, u, face))
  {
    PaintAt(seq(|positions|, _ => ZERO4), positions, indices, 0, face, v);
  }

  /** Four vertices and one triangle over the first three: the normal array
      as written has three entries, so the fourth vertex has none, and a
      triangle naming vertex 3 already fails while painting; sized by the
      vertex count both succeed. */
  lemma NormalsSizedByIndexCount(positions: seq<Vec4>, face: (Vec4, Vec4, Vec4) -> Vec4)
    requires |positions| == 4
    ensures CreateGeoNormalAsWritten(positions, [0, 1, 2], face).Success?
    ensures |CreateGeoNormalAsWritten(positions, [0, 1, 2], face).value| == 3 < |positions|
    ensures CreateGeoNormalAsWritten(positions, [1, 2, 3], face).Failure?
    ensures |CreateGeoNormal(positions, [0, 1, 2], face).value| == |positions|
    ensures CreateGeoNormal(positions, [1, 2, 3], face).Success?
  {
    var a: seq<nat> := [0, 1, 2];
    var b: seq<nat> := [1, 2, 3];
    assert b[2] == 3;
  }

  // Primitives

  /** Floating-point geometry taken as given: the unit normal of a triangle
      with the three vertex positions, and the tangent a MikkTSpace generator
      assigns to vertex `i` of an indexed mesh with positions, normals and
      texture coordinates. */
  datatype Numerics = Numerics(
    face: (Vec4, Vec4, Vec4) -> Vec4,
    tangent: (seq<nat>, seq<Vec4>, seq<Vec4>, seq<Vec2>, nat) -> Vec4)

  /** `is_primitive_supported`: only triangle lists with positions. */
  predicate IsPrimitiveSupported(p: G.Primitive)
    ensures IsPrimitiveSupported(p) ==> p.positions.Some?
    ensures p.mode != G.Triangles ==> !IsPrimitiveSupported(p)
  {
    p.positions.Some? && p.mode == G.Triangles
  }

  /** The primitive's material, defaulting to material 0, as a `u32`. */
  function MaterialIndex(p: G.Primitive): (r: nat)
    ensures r <= U32_MAX
    ensures p.material.index.None? ==> r == Materials.DEFAULT_MATERIAL_INDEX
    ensures p.material.index.Some? && p.material.index.value <= U32_MAX ==> r == p.material.index.value
  {
    AsU32(p.material.index.GetOr(Materials.DEFAULT_MATERIAL_INDEX))
  }

  /** Indices of a primitive without an index accessor: each vertex once, in
      order, counting up to the vertex count cast to `u32`. */
  function DefaultIndices(vertexCount: nat): (r: seq<nat>)
    ensures |r| == AsU32(vertexCount)
    ensures vertexCount <= U32_MAX ==> |r| == vertexCount
    ensures forall i :: 0 <= i < |r| ==> r[i] == i
  {
    seq(AsU32(vertexCount), i requires 0 <= i < AsU32(vertexCount) => i)
  }

  function PadAll(vs: seq<Vec3>): (r: seq<Vec4>)
    ensures |r| == |vs|
    ensures forall i :: 0 <= i < |vs| ==> r[i] == Pad(vs[i], 0.0)
  {
    seq(|vs|, i requires 0 <= i < |vs| => Pad(vs[i], 0.0))
  }

  const DEFAULT_TANGENT := Vec4(1.0, 0.0, 0.0, 0.0)

  /** Tangents are generated when the primitive has none, has texture
      coordinates, and its material is recorded as carrying a normal texture;
      a material the builder has no flag for counts as having none. */
  predicate NeedsTangents(b: GeoBuilder, tangentsFound: bool, uvs0: seq<Vec2>, materialIndex: nat) {
    !tangentsFound && |uvs0| != 0 && materialIndex < |b.normalTextures| && b.normalTextures[materialIndex]
  }

  /** Every per-vertex array the assembly reads by vertex index covers every
      vertex; weights and joints are read with a default instead. */
  predicate Covers(n: nat, normals: seq<Vec4>, tangents: seq<Vec4>, colors: Option<seq<Vec4>>,
                   uv0: seq<Vec2>, uv1: seq<Vec2>) {
    && n <= |normals| && n <= |tangents| && n <= |uv0| && n <= |uv1|
    && (colors.Some? ==> n <= |colors.value|)
  }

  /** The vertices of a primitive: position, normal, tangent and both texture
      coordinates of vertex `i`, its colour (white without a colour
      accessor), its weights and joints (zero when missing) and no skin. */
  function Assemble(positions: seq<Vec4>, normals: seq<Vec4>, tangents: seq<Vec4>, colors: Option<seq<Vec4>>,
                    uv0: seq<Vec2>, uv1: seq<Vec2>, weights: seq<Vec4>, joints: seq<UVec4>): (r: Result<seq<Vertex>, GeoError>)
    ensures r.Success? <==> Covers(|positions|, normals, tangents, colors, uv0, uv1)
    ensures r.Success? ==> |r.value| == |positions| && forall i :: 0 <= i < |positions| ==>
      && r.value[i].position == positions[i] && r.value[i].normal == normals[i]
      && r.value[i].tangent == tangents[i] && r.value[i].uv0 == uv0[i] && r.value[i].uv1 == uv1[i]
      && r.value[i].color == (if colors.Some? then colors.value[i] else ONE4)
      && r.value[i].weights == (if i < |weights| then weights[i] else ZERO4)
      && r.value[i].joints == (if i < |joints| then joints[i] else UVec4(0, 0, 0, 0))
      && r.value[i].skinIndex == -1
  {
    if !Covers(|positions|, normals, tangents, colors, uv0, uv1) then Failure(IndexOutOfBounds)
    else
      Success(seq(|positions|, i requires 0 <= i < |positions| =>
        Vertex(positions[i], normals[i], tangents[i],
               if colors.Some? then colors.value[i] else ONE4,
               if i < |weights| then weights[i] else ZERO4,
               if i < |joints| then joints[i] else UVec4(0, 0, 0, 0),
               uv0[i], uv1[i], -1)))
  }

  /** The vertices and indices `Primitive::from` reads for a primitive:
      missing indices are generated, missing normals computed from the
      triangles, missing texture coordinates are zero, missing tangents are
      `(1, 0, 0, 0)` unless generated. */
  function PrimitiveData(p: G.Primitive, b: GeoBuilder, num: Numerics): (r: Result<(seq<Vertex>, seq<nat>), GeoError>)
    ensures p.positions.None? ==> r.Failure?
    ensures r.Success? ==> var (vs, ixs) := r.value;
      && |vs| == |p.positions.value|
      && ixs == (if p.indices.Some? then p.indices.value else DefaultIndices(|p.positions.value|))
      && forall i :: 0 <= i < |vs| ==> vs[i].position == Pad(p.positions.value[i], 0.0) && vs[i].skinIndex == -1
  {
    var positions :- p.positions.ToResult(MissingPositions);
    var pos := PadAll(positions);
    var indices := if p.indices.Some? then p.indices.value else DefaultIndices(|pos|);
    var normals :- if p.normals.Some? then Success(PadAll(p.normals.value)) else CreateGeoNormal(pos, indices, num.face);
    var uvs0 := p.uv0.GetOr(seq(|pos|, _ => ZERO2));
    var uvs1 := p.uv1.GetOr(seq(|pos|, _ => ZERO2));
    var tangents := p.tangents.GetOr(seq(|pos|, _ => DEFAULT_TANGENT));
    var material := MaterialIndex(p);
    var tangents' :=
      if NeedsTangents(b, p.tangents.Some?, uvs0, material)
      then seq(|tangents|, i requires 0 <= i < |tangents| => num.tangent(indices, pos, normals, uvs0, i))
      else tangents;
    var vertices :- Assemble(pos, normals, tangents', p.colors, uvs0, uvs1, p.weights.GetOr([]), p.joints.GetOr([]));
    Success((vertices, indices))
  }

  /** What the defaults give a vertex of a primitive that has only positions
      and indices: a computed normal, white colour, zero texture coordinates,
      the default tangent when no generation is due, zero weights and joints. */
  lemma PositionsOnlyVertex(p: G.Primitive, b: GeoBuilder, num: Numerics, i: nat)
    requires p.positions.Some? && p.normals.None? && p.colors.None? && p.uv0.None? && p.uv1.None?
    requires p.tangents.None? && p.weights.None? && p.joints.None?
    requires PrimitiveData(p, b, num).Success? && i < |p.positions.value|
    ensures var v := PrimitiveData(p, b, num).value.0[i];
      var pos := PadAll(p.positions.value);
      var indices := PrimitiveData(p, b, num).value.1;
      && CreateGeoNormal(pos, indices, num.face).Success?
      && v.normal == CreateGeoNormal(pos, indices, num.face).value[i]
      && v.color == ONE4 && v.uv0 == ZERO2 && v.uv1 == ZERO2
      && (!NeedsTangents(b, false, seq(|pos|, _ => ZERO2), MaterialIndex(p)) ==> v.tangent == DEFAULT_TANGENT)
      && v.weights == ZERO4 && v.joints == UVec4(0, 0, 0, 0)
  {
  }

  /** Normals, colours and texture coordinates given by the primitive reach
      the vertices unchanged. */
  lemma GivenAttributesKept(p: G.Primitive, b: GeoBuilder, num: Numerics, i: nat)
    requires PrimitiveData(p, b, num).Success? && p.positions.Some? && i < |p.positions.value|
    ensures var v := PrimitiveData(p, b, num).value.0[i];
      && (p.normals.Some? ==> v.normal == Pad(p.normals.value[i], 0.0))
      && (p.colors.Some? ==> v.color == p.colors.value[i])
      && (p.uv0.Some? ==> v.uv0 == p.uv0.value[i])
      && (p.uv1.Some? ==> v.uv1 == p.uv1.value[i])
      && (p.tangents.Some? ==> v.tangent == p.tangents.value[i])
  {
  }

  /** A primitive as the scene keeps it: its geometry and its bounding box.
      Material variants are not part of this model. */
  datatype Prim = Prim(geometryId: nat, aabb: BoundingBoxes.Aabb)

  /** `Primitive::from`: takes the next geometry id for the primitive's
      material and appends its vertices and indices to the builder. */
  function PrimitiveFrom(p: G.Primitive, b: GeoBuilder, num: Numerics): (r: Result<(GeoBuilder, Prim), GeoError>)
    ensures p.positions.None? || b.geoCounter >= U32_MAX ==> r.Failure?
    ensures r.Success? ==> var (b', prim) := r.value;
      && prim.geometryId == b.geoCounter && b'.geoCounter == b.geoCounter + 1
      && prim.aabb == BoundingBoxes.Aabb(p.boundsMin, p.boundsMax)
      && b'.materialId == b.materialId + [MaterialIndex(p)]
      && b'.offsets == b.offsets + [Offsets(AsU32(|b.vertices|), AsU32(|b.indices|), MaterialIndex(p))]
      && |b'.len| == |b.len| + 1 && b'.len[|b.len|].vertices == |p.positions.value|
      && |b'.vertices| == |b.vertices| + |p.positions.value| && |b'.indices| == |b.indices| + b'.len[|b.len|].indices
      && b'.vertices[..|b.vertices|] == b.vertices && b'.indices[..|b.indices|] == b.indices
      && b'.opacity == b.opacity && b'.normalTextures == b.normalTextures
  {
    var material := MaterialIndex(p);
    var next :- NextGeoId(b, material);
    var (b1, geoId) := next;
    var data :- PrimitiveData(p, b1, num);
    var (vertices, indices) := data;
    Success((AddGeometry(b1, vertices, indices, material), Prim(geoId, BoundingBoxes.FromBounds(p.boundsMin, p.boundsMax))))
  }

  /** The builder's bookkeeping: offsets are prefix sums of the lengths, and
      there is one offset record and one material per handed-out id, the two
      agreeing on the material. */
  ghost predicate Tracks(b: GeoBuilder) {
    && Consistent(b)
    && |b.offsets| == b.geoCounter == |b.materialId|
    && forall g :: 0 <= g < |b.offsets| ==> b.offsets[g].material == b.materialId[g]
  }

  lemma PrimitiveFromTracks(p: G.Primitive, b: GeoBuilder, num: Numerics)
    requires Tracks(b) && PrimitiveFrom(p, b, num).Success?
    ensures Tracks(PrimitiveFrom(p, b, num).value.0)
  {
    var (b1, geoId) := NextGeoId(b, MaterialIndex(p)).value;
    var (vertices, indices) := PrimitiveData(p, b1, num).value;
    AddGeometryConsistent(b1, vertices, indices, MaterialIndex(p));
  }

  function CountSupported(ps: seq<G.Primitive>): (r: nat)
    ensures r <= |ps|
  {
    if |ps| == 0 then 0 else (if IsPrimitiveSupported(ps[0]) then 1 else 0) + CountSupported(ps[1..])
  }

  /** The supported primitives of a mesh, in order, each built on the builder
      the previous one left. */
  function BuildPrimitives(ps: seq<G.Primitive>, b: GeoBuilder, num: Numerics): (r: Result<(GeoBuilder, seq<Prim>), GeoError>)
    ensures r.Success? ==> var (b', prims) := r.value;
      && |prims| == CountSupported(ps)
      && b'.geoCounter == b.geoCounter + |prims|
      && (forall k :: 0 <= k < |prims| ==> prims[k].geometryId == b.geoCounter + k)
      && b'.opacity == b.opacity && b'.normalTextures == b.normalTextures
    decreases |ps|
  {
    if |ps| == 0 then Success((b, []))
    else if !IsPrimitiveSupported(ps[0]) then BuildPrimitives(ps[1..], b, num)
    else
      var first :- PrimitiveFrom(ps[0], b, num);
      var rest :- BuildPrimitives(ps[1..], first.0, num);
      Success((rest.0, [first.1] + rest.1))
  }

  lemma {:induction false} BuildPrimitivesTracks(ps: seq<G.Primitive>, b: GeoBuilder, num: Numerics)
    requires Tracks(b) && BuildPrimitives(ps, b, num).Success?
    ensures Tracks(BuildPrimitives(ps, b, num).value.0)
    decreases |ps|
  {
    if |ps| > 0 {
      if !IsPrimitiveSupported(ps[0]) {
        BuildPrimitivesTracks(ps[1..], b, num);
      } else {
        PrimitiveFromTracks(ps[0], b, num);
        BuildPrimitivesTracks(ps[1..], PrimitiveFrom(ps[0], b, num).value.0, num);
      }
    }
  }

  /** A mesh as the scene keeps it. */
  datatype MeshOut = MeshOut(index: nat, name: Option<string>, primitives: seq<Prim>)

  /** `Mesh::new`: one primitive per supported primitive of the glTF mesh. */
  function MeshNew(m: G.Mesh, b: GeoBuilder, num: Numerics): (r: Result<(GeoBuilder, MeshOut), GeoError>)
    ensures r.Success? ==> var (b', mesh) := r.value;
      && mesh.index == m.index && mesh.name == m.name
      && |mesh.primitives| == CountSupported(m.primitives)
      && b'.geoCounter == b.geoCounter + |mesh.primitives|
      && (forall k :: 0 <= k < |mesh.primitives| ==> mesh.primitives[k].geometryId == b.geoCounter + k)
      && b'.opacity == b.opacity && b'.normalTextures == b.normalTextures
  {
    var built :- BuildPrimitives(m.primitives, b, num);
    Success((built.0, MeshOut(m.index, m.name, built.1)))
  }

  /** `Mesh::get_aabb`: the union of the primitives' boxes, none for a mesh
      without primitives. */
  function MeshAabb(m: MeshOut): (r: Option<BoundingBoxes.Aabb>)
    ensures r.None? <==> |m.primitives| == 0
    ensures r.Some? ==> forall k :: 0 <= k < |m.primitives| ==> BoundingBoxes.Within(m.primitives[k].aabb, r.value)
  {
    var boxes := Boxes(m.primitives);
    BoundingBoxes.Union(boxes)
  }

  function Boxes(ps: seq<Prim>): (r: seq<BoundingBoxes.Aabb>)
    ensures |r| == |ps| && forall k :: 0 <= k < |ps| ==> r[k] == ps[k].aabb
  {
    seq(|ps|, k requires 0 <= k < |ps| => ps[k].aabb)
  }

  function CountAllSupported(ms: seq<G.Mesh>): nat {
    if |ms| == 0 then 0 else CountSupported(ms[0].primitives) + CountAllSupported(ms[1..])
  }

  /** The meshes of a document, in order, sharing one builder. */
  function BuildMeshes(ms: seq<G.Mesh>, b: GeoBuilder, num: Numerics): (r: Result<(GeoBuilder, seq<MeshOut>), GeoError>)
    ensures r.Success? ==> var (b', meshes) := r.value;
      && |meshes| == |ms|
      && (forall i :: 0 <= i < |ms| ==> meshes[i].index == ms[i].index)
      && b'.geoCounter == b.geoCounter + CountAllSupported(ms)
      && b'.opacity == b.opacity && b'.normalTextures == b.normalTextures
    decreases |ms|
  {
    if |ms| == 0 then Success((b, []))
    else
      var first :- MeshNew(ms[0], b, num);
      var rest :- BuildMeshes(ms[1..], first.0, num);
      Success((rest.0, [first.1] + rest.1))
  }

  lemma {:induction false} BuildMeshesTracks(ms: seq<G.Mesh>, b: GeoBuilder, num: Numerics)
    requires Tracks(b) && BuildMeshes(ms, b, num).Success?
    ensures Tracks(BuildMeshes(ms, b, num).value.0)
    decreases |ms|
  {
    if |ms| > 0 {
      BuildPrimitivesTracks(ms[0].primitives, b, num);
      BuildMeshesTracks(ms[1..], MeshNew(ms[0], b, num).value.0, num);
    }
  }

  /** Building a document's meshes from an empty builder hands out the ids
      `0, 1, ...`: there is one offset record per id, and every geometry's
      slice of the arrays is where its offsets say. */
  lemma BuildMeshesFromEmpty(ms: seq<G.Mesh>, b: GeoBuilder, num: Numerics)
    requires b.(normalTextures := [], opacity := []) == DefaultGeoBuilder()
    requires BuildMeshes(ms, b, num).Success?
    ensures var b' := BuildMeshes(ms, b, num).value.0;
      && Tracks(b') && b'.geoCounter == CountAllSupported(ms) == |b'.offsets| == |b'.len|
  {
    assert Tracks(b);
    BuildMeshesTracks(ms, b, num);
  }

  // The builder `Doc::new` starts from

  /** Built from the default builder, which records no material flags, the
      document's geometry always reads as fully opaque, and no primitive ever
      has its tangents generated, whatever the materials. */
  lemma DefaultBuilderForgetsMaterials(ms: seq<G.Mesh>, num: Numerics)
    requires BuildMeshes(ms, DefaultGeoBuilder(), num).Success?
    ensures var b := BuildMeshes(ms, DefaultGeoBuilder(), num).value.0;
      && FullyOpaque(b)
      && forall found: bool, uvs: seq<Vec2>, material: nat :: !NeedsTangents(b, found, uvs, material)
  {
  }

  /** A document with a material that is not opaque: built from the default
      builder it reads as fully opaque, built from `GeoBuilder::new` over its
      materials it does not. */
  lemma BlendMaterialReadAsOpaque(ms: seq<G.Mesh>, num: Numerics, materials: seq<Materials.Material>, i: nat)
    requires i < |materials| && !materials[i].IsOpaque()
    requires BuildMeshes(ms, DefaultGeoBuilder(), num).Success?
    requires BuildMeshes(ms, NewGeoBuilder(materials), num).Success?
    ensures FullyOpaque(BuildMeshes(ms, DefaultGeoBuilder(), num).value.0)
    ensures !FullyOpaque(BuildMeshes(ms, NewGeoBuilder(materials), num).value.0)
  {
    var b := BuildMeshes(ms, NewGeoBuilder(materials), num).value.0;
    assert !b.opacity[i];
  }

  /** Built from `GeoBuilder::new`, the flags the primitives consult are the
      materials' own: a primitive without tangents but with texture
      coordinates, whose material has a normal texture, gets its tangents
      generated. */
  lemma NewBuilderGeneratesTangents(ms: seq<G.Mesh>, num: Numerics, materials: seq<Materials.Material>,
                                    uvs: seq<Vec2>, material: nat)
    requires material < |materials| && materials[material].HasNormalTexture() && |uvs| != 0
    requires BuildMeshes(ms, NewGeoBuilder(materials), num).Success?
    ensures NeedsTangents(BuildMeshes(ms, NewGeoBuilder(materials), num).value.0, false, uvs, material)
    ensures FullyOpaque(BuildMeshes(ms, NewGeoBuilder(materials), num).value.0)
        <==> forall j :: 0 <= j < |materials| ==> materials[j].IsOpaque()
  {
  }
}
