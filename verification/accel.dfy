/** Building the acceleration structures of a loaded document: one
    bottom-level structure per geometry, built in geometry-id order, and a
    top-level structure with one instance per primitive of every node that
    carries a mesh. */
module AccelerationStructures {
  import opened Wrappers
  import opened Bits
  import opened Transforms
  import Sorting
  import Geometry
  import SceneGraph

  datatype AccelError = GeometryOutOfRange | NotTriangles | OffsetOverflow | MeshOutOfRange | BlasOutOfRange

  /** Size in bytes of one `u32` index. */
  const INDEX_SIZE: nat := 4
  /** Largest value of the 24-bit half of a `Packed24_8`. */
  const LOW_24: nat := 0x100_0000
  /** Instance mask that every ray's cull mask matches. */
  const FULL_MASK: nat := 0xFF
  /** `VK_GEOMETRY_INSTANCE_TRIANGLE_FACING_CULL_DISABLE_BIT_KHR`. */
  const CULL_DISABLE: nat := 0x1

  // Packed24_8

  /** `Packed24_8::new(low, high)`: the low 24 bits of `low` below the byte
      `high`. */
  function Pack24(low: nat, high: nat): (r: nat)
    requires high < 0x100
    ensures r <= U32_MAX
  {
    high * LOW_24 + low % LOW_24
  }

  function Low24(p: nat): nat {
    p % LOW_24
  }

  function High8(p: nat): nat {
    p / LOW_24
  }

  /** Unpacking a packed pair gives back the byte and the low 24 bits of the
      first value, which is the value itself below 2^24. */
  lemma PackRoundTrip(low: nat, high: nat)
    requires high < 0x100
    ensures Low24(Pack24(low, high)) == low % LOW_24 && High8(Pack24(low, high)) == high
    ensures low < LOW_24 ==> Low24(Pack24(low, high)) == low
  {
  }

  // Bottom level

  datatype BuildRange = BuildRange(firstVertex: nat, primitiveCount: nat, primitiveOffset: nat)

  datatype BlasInput = BlasInput(geoId: nat, maxVertex: nat, range: BuildRange, maxPrimitives: seq<nat>)

  /** `primitive_to_vk_geometry`: the build input of geometry `geoId`. An id
      past the builder's records is an index panic, an index count that is
      not a multiple of three fails the assertion, and a byte offset past
      `u32` is an overflow. The triangle count and the vertex count are the
      `usize` lengths cast to `u32`, so they wrap past 2^32 - 1 and are exact
      below it. */
  function BlasFor(b: Geometry.GeoBuilder, geoId: nat): (r: Result<BlasInput, AccelError>)
    ensures r.Success? <==>
      && geoId < |b.len| && geoId < |b.offsets| && b.len[geoId].indices % 3 == 0
      && INDEX_SIZE * b.offsets[geoId].indexOffset <= U32_MAX
    ensures r.Success? ==> var blas := r.value;
      && blas.geoId == geoId && blas.maxPrimitives == [blas.range.primitiveCount]
      && blas.range.primitiveCount == AsU32(b.len[geoId].indices / 3)
      && (b.len[geoId].indices / 3 <= U32_MAX ==> 3 * blas.range.primitiveCount == b.len[geoId].indices)
      && blas.range.primitiveOffset == INDEX_SIZE * b.offsets[geoId].indexOffset
      && blas.range.firstVertex == b.offsets[geoId].vertexOffset
      && blas.maxVertex == AsU32(b.len[geoId].vertices)
      && (b.len[geoId].vertices <= U32_MAX ==> blas.maxVertex == b.len[geoId].vertices)
  {
    if geoId >= |b.len| || geoId >= |b.offsets| then Failure(GeometryOutOfRange)
    else
      var len := b.len[geoId];
      var offsets := b.offsets[geoId];
      if len.indices % 3 != 0 then Failure(NotTriangles)
      else
        var offset :- CheckedMul(offsets.indexOffset, INDEX_SIZE).ToResult(OffsetOverflow);
        var count := AsU32(len.indices / 3);
        Success(BlasInput(geoId, AsU32(len.vertices), BuildRange(offsets.vertexOffset, count, offset), [count]))
  }

  /** The `u32` casts matter: a geometry of 3 * 2^32 indices, all triangles,
      is given zero primitives. */
  lemma CountWrapsPastU32(b: Geometry.GeoBuilder)
    requires |b.len| == 1 && |b.offsets| == 1 && b.offsets[0].indexOffset == 0
    requires b.len[0].indices == 3 * (U32_MAX + 1)
    ensures BlasFor(b, 0).Success? && BlasFor(b, 0).value.range.primitiveCount == 0
  {
    assert b.len[0].indices / 3 == U32_MAX + 1;
  }

  lemma {:induction false} IndexTotalPrefix(len: seq<Geometry.Lengths>, i: nat)
    requires i < |len|
    ensures Geometry.IndexTotal(len[..i + 1]) == Geometry.IndexTotal(len[..i]) + len[i].indices
    ensures Geometry.IndexTotal(len[..i + 1]) <= Geometry.IndexTotal(len)
    ensures Geometry.VertexTotal(len[..i + 1]) == Geometry.VertexTotal(len[..i]) + len[i].vertices
    ensures Geometry.VertexTotal(len[..i + 1]) <= Geometry.VertexTotal(len)
    decreases |len|
  {
    assert len[..i + 1][..i] == len[..i];
    if i + 1 < |len| {
      var init := len[..|len| - 1];
      assert init[..i + 1] == len[..i + 1] && init[..i] == len[..i] && init[i] == len[i];
      IndexTotalPrefix(init, i);
    } else {
      assert len[..i + 1] == len;
    }
  }

  /** In a builder whose bookkeeping holds and whose index bytes fit `u32`,
      the build input of a triangle geometry reads exactly that geometry's
      part of the shared arrays: the indices from the sum of the earlier
      geometries' index counts up to that sum plus its own, and the vertices
      likewise. */
  lemma BlasCoversGeometry(b: Geometry.GeoBuilder, g: nat)
    requires Geometry.Tracks(b) && INDEX_SIZE * |b.indices| <= U32_MAX && |b.vertices| <= U32_MAX
    requires g < b.geoCounter && b.len[g].indices % 3 == 0
    ensures BlasFor(b, g).Success?
    ensures var blas := BlasFor(b, g).value;
      var first := Geometry.IndexTotal(b.len[..g]);
      && blas.range.primitiveOffset == INDEX_SIZE * first
      && first + 3 * blas.range.primitiveCount == Geometry.IndexTotal(b.len[..g + 1]) <= |b.indices|
      && blas.range.firstVertex == Geometry.VertexTotal(b.len[..g])
      && blas.range.firstVertex + blas.maxVertex == Geometry.VertexTotal(b.len[..g + 1]) <= |b.vertices|
  {
    IndexTotalPrefix(b.len, g);
  }

  /** The primitives of all meshes, mesh after mesh. */
  function AllPrims(meshes: seq<Geometry.MeshOut>): (r: seq<Geometry.Prim>)
    ensures |meshes| > 0 ==> r == meshes[0].primitives + AllPrims(meshes[1..])
  {
    if |meshes| == 0 then [] else meshes[0].primitives + AllPrims(meshes[1..])
  }

  /** One build input per primitive, in the order given. */
  function BlasInputs(prims: seq<Geometry.Prim>, b: Geometry.GeoBuilder): (r: Result<seq<BlasInput>, AccelError>)
    ensures r.Success? <==> forall k :: 0 <= k < |prims| ==> BlasFor(b, prims[k].geometryId).Success?
    ensures r.Success? ==> |r.value| == |prims|
    ensures r.Success? ==> forall k :: 0 <= k < |prims| ==> r.value[k] == BlasFor(b, prims[k].geometryId).value
    decreases |prims|
  {
    if |prims| == 0 then Success([])
    else
      var first :- BlasFor(b, prims[0].geometryId);
      var rest :- BlasInputs(prims[1..], b);
      Success([first] + rest)
  }

  function GeoIdOf(blas: BlasInput): nat {
    blas.geoId
  }

  /** The build inputs of `create_as`, sorted by geometry id. */
  function CreateBlases(meshes: seq<Geometry.MeshOut>, b: Geometry.GeoBuilder): (r: Result<seq<BlasInput>, AccelError>)
    ensures r.Success? <==> BlasInputs(AllPrims(meshes), b).Success?
    ensures r.Success? ==> multiset(r.value) == multiset(BlasInputs(AllPrims(meshes), b).value)
    ensures r.Success? ==> |r.value| == |AllPrims(meshes)|
  {
    var inputs :- BlasInputs(AllPrims(meshes), b);
    Success(Sorting.SortByKey(inputs, GeoIdOf))
  }

  /** Whatever the order of the meshes, the inputs come out ordered by
      geometry id. */
  lemma BlasesSorted(meshes: seq<Geometry.MeshOut>, b: Geometry.GeoBuilder)
    requires CreateBlases(meshes, b).Success?
    ensures Sorting.SortedBy(CreateBlases(meshes, b).value, GeoIdOf)
  {
    Sorting.SortCorrect(BlasInputs(AllPrims(meshes), b).value, GeoIdOf);
  }

  /** When the primitives of the meshes carry the ids `0, 1, ...` in order,
      the build input at position `g` is the one of geometry `g`, so that
      `blases[geo_id]` is the structure built from geometry `geo_id`. */
  lemma BlasAtOwnId(meshes: seq<Geometry.MeshOut>, b: Geometry.GeoBuilder)
    requires forall k :: 0 <= k < |AllPrims(meshes)| ==> AllPrims(meshes)[k].geometryId == k
    requires CreateBlases(meshes, b).Success?
    ensures |CreateBlases(meshes, b).value| == |AllPrims(meshes)|
    ensures forall g :: 0 <= g < |AllPrims(meshes)| ==>
      BlasFor(b, g).Success? && CreateBlases(meshes, b).value[g] == BlasFor(b, g).value
  {
    var prims := AllPrims(meshes);
    var inputs := BlasInputs(prims, b).value;
    forall i, j | 0 <= i < j < |inputs|
      ensures GeoIdOf(inputs[i]) <= GeoIdOf(inputs[j])
    {
      assert inputs[i] == BlasFor(b, prims[i].geometryId).value;
      assert inputs[j] == BlasFor(b, prims[j].geometryId).value;
    }
    assert Sorting.SortedBy(inputs, GeoIdOf);
    Sorting.SortOfSorted(inputs, GeoIdOf);
    assert CreateBlases(meshes, b).value == inputs;
    forall g | 0 <= g < |prims|
      ensures BlasFor(b, g).Success? && CreateBlases(meshes, b).value[g] == BlasFor(b, g).value
    {
      assert prims[g].geometryId == g;
    }
  }

  /** The meshes built for a document hand out the ids `b.geoCounter`,
      `b.geoCounter + 1`, ... to their primitives in mesh order. */
  lemma {:induction false} BuiltPrimsConsecutive(ms: seq<Geometry.G.Mesh>, b: Geometry.GeoBuilder, num: Geometry.Numerics)
    requires Geometry.BuildMeshes(ms, b, num).Success?
    ensures var prims := AllPrims(Geometry.BuildMeshes(ms, b, num).value.1);
      && |prims| == Geometry.CountAllSupported(ms)
      && forall k :: 0 <= k < |prims| ==> prims[k].geometryId == b.geoCounter + k
    decreases |ms|
  {
    if |ms| > 0 {
      var (b1, mesh) := Geometry.MeshNew(ms[0], b, num).value;
      BuiltPrimsConsecutive(ms[1..], b1, num);
      var meshes := Geometry.BuildMeshes(ms, b, num).value.1;
      assert meshes[0] == mesh && meshes[1..] == Geometry.BuildMeshes(ms[1..], b1, num).value.1;
    }
  }

  // Top level

  datatype Instance = Instance(
    transform: seq<real>, customIndexAndMask: nat, sbtOffsetAndFlags: nat, blas: nat)

  /** The instances of one primitive list under one transform: custom index
      the geometry id, full mask, no hit-group offset, back-face culling off,
      and the bottom-level structure at the geometry id; an id past the
      built structures is an index panic. */
  function PrimInstances(prims: seq<Geometry.Prim>, transform: seq<real>, blasCount: nat): (r: Result<seq<Instance>, AccelError>)
    ensures r.Success? <==> forall k :: 0 <= k < |prims| ==> prims[k].geometryId < blasCount
    ensures r.Success? ==> |r.value| == |prims| && forall k :: 0 <= k < |prims| ==>
      && r.value[k].transform == transform && r.value[k].blas == prims[k].geometryId
      && Low24(r.value[k].customIndexAndMask) == prims[k].geometryId % LOW_24
      && High8(r.value[k].customIndexAndMask) == FULL_MASK
      && Low24(r.value[k].sbtOffsetAndFlags) == 0 && High8(r.value[k].sbtOffsetAndFlags) == CULL_DISABLE
    decreases |prims|
  {
    if |prims| == 0 then Success([])
    else
      var id := prims[0].geometryId;
      if id >= blasCount then Failure(BlasOutOfRange)
      else
        PackRoundTrip(id, FULL_MASK);
        PackRoundTrip(0, CULL_DISABLE);
        var rest :- PrimInstances(prims[1..], transform, blasCount);
        Success([Instance(transform, Pack24(id, FULL_MASK), Pack24(0, CULL_DISABLE), id)] + rest)
  }

  /** The instances of one node: none without a mesh, otherwise one per
      primitive of its mesh under the node's world transform laid out row
      major; a mesh index past the document's meshes is an index panic. */
  function NodeInstances(n: SceneGraph.Node, meshes: seq<Geometry.MeshOut>, blasCount: nat): (r: Result<seq<Instance>, AccelError>)
    ensures n.mesh.None? ==> r == Success([])
    ensures n.mesh.Some? ==> (r.Success? <==>
      n.mesh.value < |meshes| && PrimInstances(meshes[n.mesh.value].primitives, InstanceMatrix(Eval(n.World())), blasCount).Success?)
    ensures r.Success? && n.mesh.Some? ==> |r.value| == |meshes[n.mesh.value].primitives|
  {
    match n.mesh
    case None => Success([])
    case Some(m) =>
      if m >= |meshes| then Failure(MeshOutOfRange)
      else PrimInstances(meshes[m].primitives, InstanceMatrix(Eval(n.World())), blasCount)
  }

  /** Every node in `ids` has its instances built. */
  predicate EveryNodeBuilds(ids: seq<nat>, nodes: SceneGraph.Nodes, meshes: seq<Geometry.MeshOut>, blasCount: nat)
    requires forall i :: 0 <= i < |ids| ==> ids[i] in nodes
  {
    forall i :: 0 <= i < |ids| ==> NodeInstances(nodes[ids[i]], meshes, blasCount).Success?
  }

  /** The instance list of `create_top_as`, the nodes visited in the order
      `ids` (the node map's iteration order). */
  function TopInstances(ids: seq<nat>, nodes: SceneGraph.Nodes, meshes: seq<Geometry.MeshOut>, blasCount: nat): (r: Result<seq<Instance>, AccelError>)
    requires forall i :: 0 <= i < |ids| ==> ids[i] in nodes
    ensures r.Success? <==> EveryNodeBuilds(ids, nodes, meshes, blasCount)
    decreases |ids|
  {
    if |ids| == 0 then Success([])
    else
      var first :- NodeInstances(nodes[ids[0]], meshes, blasCount);
      var rest :- TopInstances(ids[1..], nodes, meshes, blasCount);
      Success(first + rest)
  }

  lemma {:induction false} TopInstancesAppend(a: seq<nat>, c: seq<nat>, nodes: SceneGraph.Nodes, meshes: seq<Geometry.MeshOut>, blasCount: nat)
    requires forall i :: 0 <= i < |a| ==> a[i] in nodes
    requires forall i :: 0 <= i < |c| ==> c[i] in nodes
    requires TopInstances(a + c, nodes, meshes, blasCount).Success?
    ensures TopInstances(a, nodes, meshes, blasCount).Success? && TopInstances(c, nodes, meshes, blasCount).Success?
    ensures TopInstances(a + c, nodes, meshes, blasCount).value
         == TopInstances(a, nodes, meshes, blasCount).value + TopInstances(c, nodes, meshes, blasCount).value
    decreases |a|
  {
    if |a| == 0 {
      assert a + c == c;
    } else {
      assert (a + c)[0] == a[0] && (a + c)[1..] == a[1..] + c;
      assert forall i :: 0 <= i < |a[1..] + c| ==> (a[1..] + c)[i] == (a + c)[i + 1];
      TopInstancesAppend(a[1..], c, nodes, meshes, blasCount);
    }
  }

  /** The instance list does not depend on the order the node map is
      iterated in: any rearrangement of the node ids builds the same
      instances, in another order, and fails exactly when the first fails. */
  lemma {:induction false} InstancesOrderFree(ids: seq<nat>, ids': seq<nat>, nodes: SceneGraph.Nodes, meshes: seq<Geometry.MeshOut>, blasCount: nat)
    requires forall i :: 0 <= i < |ids| ==> ids[i] in nodes
    requires multiset(ids) == multiset(ids')
    ensures forall i :: 0 <= i < |ids'| ==> ids'[i] in nodes
    ensures TopInstances(ids, nodes, meshes, blasCount).Success? <==> TopInstances(ids', nodes, meshes, blasCount).Success?
    ensures TopInstances(ids, nodes, meshes, blasCount).Success? ==>
      multiset(TopInstances(ids, nodes, meshes, blasCount).value) == multiset(TopInstances(ids', nodes, meshes, blasCount).value)
    decreases |ids|
  {
    PermutedIdsInNodes(ids, ids', nodes);
    if |ids| == 0 {
      assert |ids'| == |multiset(ids')| == 0;
    } else {
      var x := ids[0];
      assert x in multiset(ids');
      var k :| 0 <= k < |ids'| && ids'[k] == x;
      var a, c := ids'[..k], ids'[k + 1..];
      MultisetRemove(ids, ids', k);
      assert ids' == a + [x] + c;
      assert forall i :: 0 <= i < |a| ==> a[i] == ids'[i];
      assert forall i :: 0 <= i < |c| ==> c[i] == ids'[k + 1 + i];
      InstancesOrderFree(ids[1..], a + c, nodes, meshes, blasCount);
      MiddleSuccess(a, x, c, nodes, meshes, blasCount);
      TopCons(ids, nodes, meshes, blasCount);
      if TopInstances(ids, nodes, meshes, blasCount).Success? {
        RearrangedBlocks(a, x, c, nodes, meshes, blasCount);
      }
    }
  }

  lemma TopCons(ids: seq<nat>, nodes: SceneGraph.Nodes, meshes: seq<Geometry.MeshOut>, blasCount: nat)
    requires |ids| > 0 && forall i :: 0 <= i < |ids| ==> ids[i] in nodes
    ensures TopInstances(ids, nodes, meshes, blasCount).Success? <==>
      NodeInstances(nodes[ids[0]], meshes, blasCount).Success? && TopInstances(ids[1..], nodes, meshes, blasCount).Success?
    ensures TopInstances(ids, nodes, meshes, blasCount).Success? ==>
      TopInstances(ids, nodes, meshes, blasCount).value
      == NodeInstances(nodes[ids[0]], meshes, blasCount).value + TopInstances(ids[1..], nodes, meshes, blasCount).value
  {
  }

  lemma PermutedIdsInNodes(ids: seq<nat>, ids': seq<nat>, nodes: SceneGraph.Nodes)
    requires forall i :: 0 <= i < |ids| ==> ids[i] in nodes
    requires multiset(ids) == multiset(ids')
    ensures forall i :: 0 <= i < |ids'| ==> ids'[i] in nodes
  {
    forall i | 0 <= i < |ids'|
      ensures ids'[i] in nodes
    {
      assert ids'[i] in multiset(ids');
      assert ids'[i] in multiset(ids);
    }
  }

  /** Taking the first element off one of two sequences with the same
      elements, and the same element off the other, leaves the same
      elements. */
  lemma MultisetRemove<T>(s: seq<T>, t: seq<T>, k: nat)
    requires multiset(s) == multiset(t) && |s| > 0 && k < |t| && t[k] == s[0]
    ensures multiset(s[1..]) == multiset(t[..k] + t[k + 1..])
  {
    var x, a, c := s[0], t[..k], t[k + 1..];
    assert t == a + [x] + c;
    assert s == [x] + s[1..];
    forall y
      ensures multiset(s[1..])[y] == multiset(a + c)[y]
    {
      assert multiset(s)[y] == multiset{x}[y] + multiset(s[1..])[y];
      assert multiset(t)[y] == multiset(a)[y] + multiset{x}[y] + multiset(c)[y];
      assert multiset(a + c)[y] == multiset(a)[y] + multiset(c)[y];
    }
    assert multiset(s[1..]) == multiset(a + c);
  }

  /** A node's instances can be built in the middle of a list exactly when
      they and the rest of the list can. */
  lemma MiddleSuccess(a: seq<nat>, x: nat, c: seq<nat>, nodes: SceneGraph.Nodes, meshes: seq<Geometry.MeshOut>, blasCount: nat)
    requires x in nodes
    requires forall i :: 0 <= i < |a| ==> a[i] in nodes
    requires forall i :: 0 <= i < |c| ==> c[i] in nodes
    ensures forall i :: 0 <= i < |a + [x] + c| ==> (a + [x] + c)[i] in nodes
    ensures forall i :: 0 <= i < |a + c| ==> (a + c)[i] in nodes
    ensures TopInstances(a + [x] + c, nodes, meshes, blasCount).Success? <==>
      NodeInstances(nodes[x], meshes, blasCount).Success? && TopInstances(a + c, nodes, meshes, blasCount).Success?
  {
    assert forall i :: 0 <= i < |a + [x] + c| ==> (a + [x] + c)[i] in nodes by {
      forall i | 0 <= i < |a + [x] + c|
        ensures (a + [x] + c)[i] in nodes
      {
        if i > |a| {
          assert (a + [x] + c)[i] == c[i - |a| - 1];
        }
      }
    }
    TopSuccessSplit(a, [x], c, nodes, meshes, blasCount);
    EmptyMiddle(a, c);
    TopSuccessSplit(a, [], c, nodes, meshes, blasCount);
  }

  lemma EmptyMiddle<T>(a: seq<T>, c: seq<T>)
    ensures a + [] + c == a + c
  {
  }

  /** Moving one node's block of instances from between two runs of nodes
      to the front keeps the instances. */
  lemma RearrangedBlocks(a: seq<nat>, x: nat, c: seq<nat>, nodes: SceneGraph.Nodes, meshes: seq<Geometry.MeshOut>, blasCount: nat)
    requires x in nodes
    requires forall i :: 0 <= i < |a| ==> a[i] in nodes
    requires forall i :: 0 <= i < |c| ==> c[i] in nodes
    requires forall i :: 0 <= i < |a + [x] + c| ==> (a + [x] + c)[i] in nodes
    requires NodeInstances(nodes[x], meshes, blasCount).Success?
    requires TopInstances(a + [x] + c, nodes, meshes, blasCount).Success?
    ensures TopInstances(a + c, nodes, meshes, blasCount).Success?
    ensures multiset(TopInstances(a + [x] + c, nodes, meshes, blasCount).value)
         == multiset(NodeInstances(nodes[x], meshes, blasCount).value) + multiset(TopInstances(a + c, nodes, meshes, blasCount).value)
  {
    TopSuccessSplit(a, [x], c, nodes, meshes, blasCount);
    TopSuccessSplit(a, [], c, nodes, meshes, blasCount);
    assert a + [] + c == a + c;
    TopInstancesAppend(a, c, nodes, meshes, blasCount);
    TopInstancesAppend(a + [x], c, nodes, meshes, blasCount);
    TopInstancesAppend(a, [x], nodes, meshes, blasCount);
    var first := NodeInstances(nodes[x], meshes, blasCount).value;
    assert TopInstances([x], nodes, meshes, blasCount).value == first + [];
  }

  /** A three-part id list succeeds exactly when its parts do. */
  lemma TopSuccessSplit(a: seq<nat>, m: seq<nat>, c: seq<nat>, nodes: SceneGraph.Nodes, meshes: seq<Geometry.MeshOut>, blasCount: nat)
    requires forall i :: 0 <= i < |a + m + c| ==> (a + m + c)[i] in nodes
    ensures forall i :: 0 <= i < |a| ==> a[i] in nodes
    ensures forall i :: 0 <= i < |m| ==> m[i] in nodes
    ensures forall i :: 0 <= i < |c| ==> c[i] in nodes
    ensures TopInstances(a + m + c, nodes, meshes, blasCount).Success? <==>
      TopInstances(a, nodes, meshes, blasCount).Success? && TopInstances(m, nodes, meshes, blasCount).Success?
      && TopInstances(c, nodes, meshes, blasCount).Success?
  {
    assert forall i :: 0 <= i < |a| ==> a[i] == (a + m + c)[i];
    assert forall i :: 0 <= i < |m| ==> m[i] == (a + m + c)[|a| + i];
    assert forall i :: 0 <= i < |c| ==> c[i] == (a + m + c)[|a| + |m| + i];
  }

  datatype TopLevel = TopLevel(instances: seq<Instance>, primitiveCount: nat)

  /** `ids` lists every node of the map exactly once, as iterating a
      `HashMap` does, in some order. */
  predicate ListsEveryNode(ids: seq<nat>, nodes: SceneGraph.Nodes) {
    multiset(ids) == multiset(nodes.Keys)
  }

  lemma KeysListed(ids: seq<nat>, nodes: SceneGraph.Nodes)
    requires ListsEveryNode(ids, nodes)
    ensures forall i :: 0 <= i < |ids| ==> ids[i] in nodes
    ensures forall k :: k in nodes ==> k in ids
  {
    forall i | 0 <= i < |ids|
      ensures ids[i] in nodes
    {
      assert ids[i] in multiset(ids);
    }
    forall k | k in nodes
      ensures k in ids
    {
      assert k in multiset(nodes.Keys);
    }
  }

  /** `create_as`: the sorted bottom-level inputs and the top-level instance
      list over every node of the map, whose build range counts the
      instances (cast to `u32`). It fails exactly when a bottom-level input
      fails or some node's instances do. */
  function CreateAs(meshes: seq<Geometry.MeshOut>, b: Geometry.GeoBuilder, ids: seq<nat>, nodes: SceneGraph.Nodes): (r: Result<(seq<BlasInput>, TopLevel), AccelError>)
    requires ListsEveryNode(ids, nodes)
    ensures r.Success? <==> (
      && CreateBlases(meshes, b).Success?
      && forall k :: k in nodes ==> NodeInstances(nodes[k], meshes, |CreateBlases(meshes, b).value|).Success?)
    ensures r.Success? ==> var (blases, top) := r.value;
      && CreateBlases(meshes, b) == Success(blases)
      && (forall i :: 0 <= i < |ids| ==> ids[i] in nodes)
      && TopInstances(ids, nodes, meshes, |blases|) == Success(top.instances)
      && top.primitiveCount == AsU32(|top.instances|)
      && (|top.instances| <= U32_MAX ==> top.primitiveCount == |top.instances|)
  {
    KeysListed(ids, nodes);
    var blases :- CreateBlases(meshes, b);
    assert EveryNodeBuilds(ids, nodes, meshes, |blases|) <==>
      forall k :: k in nodes ==> NodeInstances(nodes[k], meshes, |blases|).Success? by {
      if EveryNodeBuilds(ids, nodes, meshes, |blases|) {
        forall k | k in nodes
          ensures NodeInstances(nodes[k], meshes, |blases|).Success?
        {
          var i :| 0 <= i < |ids| && ids[i] == k;
        }
      }
    }
    var instances :- TopInstances(ids, nodes, meshes, |blases|);
    Success((blases, TopLevel(instances, AsU32(|instances|))))
  }

  /** Two iteration orders of the node map give the same bottom level and
      the same top-level instances, in another order, with the same count. */
  lemma CreateAsOrderFree(meshes: seq<Geometry.MeshOut>, b: Geometry.GeoBuilder, ids: seq<nat>, ids': seq<nat>, nodes: SceneGraph.Nodes)
    requires ListsEveryNode(ids, nodes) && ListsEveryNode(ids', nodes)
    ensures CreateAs(meshes, b, ids, nodes).Success? <==> CreateAs(meshes, b, ids', nodes).Success?
    ensures CreateAs(meshes, b, ids, nodes).Success? ==>
      var (blases, top) := CreateAs(meshes, b, ids, nodes).value;
      var (blases', top') := CreateAs(meshes, b, ids', nodes).value;
      blases == blases' && multiset(top.instances) == multiset(top'.instances) && top.primitiveCount == top'.primitiveCount
  {
    KeysListed(ids, nodes);
    if CreateBlases(meshes, b).Success? {
      InstancesOrderFree(ids, ids', nodes, meshes, |CreateBlases(meshes, b).value|);
      if CreateAs(meshes, b, ids, nodes).Success? {
        var top := CreateAs(meshes, b, ids, nodes).value.1;
        var top' := CreateAs(meshes, b, ids', nodes).value.1;
        assert |top.instances| == |multiset(top.instances)| == |multiset(top'.instances)| == |top'.instances|;
      }
    }
  }

  /** Each instance of the top level points at the bottom-level structure
      built from the geometry it stands for, and (below 2^24 geometries) its
      custom index is that geometry's id, the key shaders use to find the
      geometry's offsets and material. */
  lemma {:induction false} InstancesReferToOwnGeometry(
    ids: seq<nat>, nodes: SceneGraph.Nodes, meshes: seq<Geometry.MeshOut>, b: Geometry.GeoBuilder,
    blases: seq<BlasInput>, inst: Instance)
    requires forall i :: 0 <= i < |ids| ==> ids[i] in nodes
    requires forall k :: 0 <= k < |AllPrims(meshes)| ==> AllPrims(meshes)[k].geometryId == k
    requires CreateBlases(meshes, b) == Success(blases)
    requires TopInstances(ids, nodes, meshes, |blases|).Success?
    requires inst in TopInstances(ids, nodes, meshes, |blases|).value
    ensures
      && inst.blas < |blases| && BlasFor(b, inst.blas).Success?
      && blases[inst.blas] == BlasFor(b, inst.blas).value && blases[inst.blas].geoId == inst.blas
      && High8(inst.customIndexAndMask) == FULL_MASK
      && (inst.blas < LOW_24 ==> Low24(inst.customIndexAndMask) == inst.blas)
    decreases |ids|
  {
    InstanceInList(ids, nodes, meshes, |blases|, inst);
    BlasAt(meshes, b, blases, inst.blas);
  }

  lemma BlasAt(meshes: seq<Geometry.MeshOut>, b: Geometry.GeoBuilder, blases: seq<BlasInput>, g: nat)
    requires forall k :: 0 <= k < |AllPrims(meshes)| ==> AllPrims(meshes)[k].geometryId == k
    requires CreateBlases(meshes, b) == Success(blases)
    requires g < |blases|
    ensures BlasFor(b, g).Success? && blases[g] == BlasFor(b, g).value && blases[g].geoId == g
  {
    BlasAtOwnId(meshes, b);
  }

  /** Every instance in a successful list passed the bottom-level range check
      and carries the mask and the id of its geometry. */
  lemma {:induction false} InstanceInList(ids: seq<nat>, nodes: SceneGraph.Nodes, meshes: seq<Geometry.MeshOut>, blasCount: nat, inst: Instance)
    requires forall i :: 0 <= i < |ids| ==> ids[i] in nodes
    requires TopInstances(ids, nodes, meshes, blasCount).Success?
    requires inst in TopInstances(ids, nodes, meshes, blasCount).value
    ensures inst.blas < blasCount && High8(inst.customIndexAndMask) == FULL_MASK
    ensures Low24(inst.customIndexAndMask) == inst.blas % LOW_24
    ensures inst.blas < LOW_24 ==> Low24(inst.customIndexAndMask) == inst.blas
    decreases |ids|
  {
    var first := NodeInstances(nodes[ids[0]], meshes, blasCount).value;
    if inst in first {
      var n := nodes[ids[0]];
      var k :| 0 <= k < |first| && first[k] == inst;
    } else {
      InstanceInList(ids[1..], nodes, meshes, blasCount, inst);
    }
    if inst.blas < LOW_24 {
      ModUnique(inst.blas, LOW_24, 0, inst.blas);
    }
  }

  /** For a document whose meshes were built from an empty builder, every
      geometry has a bottom-level input at its own id, each reading its own
      part of the shared arrays when the index bytes fit `u32` and every
      index count is a multiple of three. */
  lemma DocumentBlases(ms: seq<Geometry.G.Mesh>, b0: Geometry.GeoBuilder, num: Geometry.Numerics)
    requires b0.(normalTextures := [], opacity := []) == Geometry.DefaultGeoBuilder()
    requires Geometry.BuildMeshes(ms, b0, num).Success?
    requires var b := Geometry.BuildMeshes(ms, b0, num).value.0;
      && INDEX_SIZE * |b.indices| <= U32_MAX && |b.vertices| <= U32_MAX
      && forall g :: 0 <= g < |b.len| ==> b.len[g].indices % 3 == 0
    ensures var (b, meshes) := Geometry.BuildMeshes(ms, b0, num).value;
      && CreateBlases(meshes, b).Success?
      && |CreateBlases(meshes, b).value| == b.geoCounter
      && forall g :: 0 <= g < b.geoCounter ==> CreateBlases(meshes, b).value[g].geoId == g
  {
    var (b, meshes) := Geometry.BuildMeshes(ms, b0, num).value;
    Geometry.BuildMeshesFromEmpty(ms, b0, num);
    BuiltPrimsConsecutive(ms, b0, num);
    var prims := AllPrims(meshes);
    forall k | 0 <= k < |prims|
      ensures BlasFor(b, prims[k].geometryId).Success?
    {
      BlasCoversGeometry(b, k);
    }
    BlasAtOwnId(meshes, b);
  }
}
