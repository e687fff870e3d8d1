# rustracer core rules in Dafny

rustracer is a Vulkan ray tracer written in Rust: a small Vulkan wrapper library, an application
framework, two glTF asset loaders and three example programs (a Cornell box, a glTF viewer and a
reflections demo). Most of it drives the GPU driver, the window system and the file system. Spread
through that plumbing are many small deterministic rules, and this project models them as pure
Dafny functions over integers, enumerations and sequences and proves what they promise:

- **Ray-tracing table layout.** Power-of-two size alignment, the shader binding table's byte image
  and region addresses, shader-group counting and group records with unused slots, and the viewer's
  shader list.
- **Device and swapchain selection.** Feature implication, extension subsets, queue-family
  predicates, first-fit physical-device selection, stable device ranking, surface format, present
  mode, extent clamping, image count and sharing mode, and the `Version` constructors.
- **Per-frame state machines.** The statistics display cycle, the in-flight frame ring, the bounded
  statistics logs and `FrameStats::tick`, the keyboard and mouse `Controls`, and progressive sample
  accounting in the example programs.
- **Asset decoding and mapping.** Two pixel expanders to RGBA8, cube-map face names, the glTF index
  shifts and defaults for textures, samplers, materials and lights, and the glTF-to-Vulkan enum
  maps.
- **Geometry and scene bookkeeping.** Vertex and index concatenation with prefix-sum offsets,
  primitive filters, acceleration-structure build ranges and instances, the pre-order scene walk,
  the light partition, parent-transform propagation and bounding-box union.
- **The licence collector script** over an abstract bottom-up directory walk.

The modules follow the source layout:

| file | module | models |
|---|---|---|
| wrappers.dfy | `Wrappers` | `Option` and `Result`, shared by every module |
| bits.dfy | `Bits` | unsigned widths, checked arithmetic, casts and bit tests |
| sorting.dfy | `Sorting` | Rust's stable `sort_by_key` |
| align.dfy | `Align` | crates/libs/vulkan/src/utils/mod.rs |
| sbt.dfy | `ShaderBindingTable` | crates/libs/vulkan/src/ray_tracing/shader_binding_table.rs |
| rt_pipeline.dfy | `RayTracingPipeline` | crates/libs/vulkan/src/ray_tracing/pipeline.rs |
| vk_types.dfy | `VkTypes` | the Vulkan enum and flag values the rules compare |
| device.dfy | `Device` | crates/libs/vulkan/src/device.rs |
| physical_device.dfy | `PhysicalDevices` | crates/libs/vulkan/src/physical_device.rs |
| queue.dfy | `Queue` | crates/libs/vulkan/src/queue.rs |
| context.dfy | `Context` | crates/libs/vulkan/src/context.rs |
| instance.dfy | `Instance` | crates/libs/vulkan/src/instance.rs |
| swapchain.dfy | `Swapchain` | crates/libs/vulkan/src/swapchain.rs |
| version.dfy | `Version` | crates/libs/vulkan/src/lib.rs |
| app_stats.dfy | `AppStats` | crates/libs/app/src/lib.rs |
| controls.dfy | `Controls` | crates/libs/app/src/camera.rs |
| gltf_document.dfy | `GltfDocument` | the parsed glTF document both loaders read |
| pixels.dfy | `Pixels` | both `image.rs` files |
| textures.dfy | `Textures`, `GltfTextures` | both `texture.rs` files |
| materials.dfy | `Materials` | crates/libs/asset_loader/src/material.rs |
| lights.dfy | `Lights` | crates/libs/asset_loader/src/light.rs |
| geometry.dfy | `Geometry` | crates/libs/asset_loader/src/geometry.rs |
| document.dfy | `Document` | `Doc::new` and `check_indices!` in crates/libs/asset_loader/src/scene_graph.rs |
| scene_graph.dfy | `SceneGraph` | scene traversal, node loading and transforms in the same file |
| accel.dfy | `AccelerationStructures` | crates/libs/asset_loader/src/acceleration_structures.rs |
| aabb.dfy | `BoundingBoxes` | crates/libs/asset_loader/src/aabb.rs |
| cubemap.dfy | `Cubemap` | crates/libs/asset_loader/src/cubumap.rs |
| vk_globals.dfy | `VkGlobals` | crates/libs/asset_loader/src/globals.rs |
| transforms.dfy, vectors.dfy | `Transforms`, `Vectors` | the abstract `Mat4` monoid, the 3x4 row-major re-layout and vector padding |
| gltf_loader.dfy | `GltfLoader` | crates/libs/gltf/src/lib.rs |
| gui_state.dfy | `GuiState` | crates/examples/gltf_viewer/src/gui_state.rs |
| viewer_pipeline.dfy | `ViewerPipeline` | crates/examples/gltf_viewer/src/pipeline_res.rs |
| sample_accounting.dfy | `SampleAccounting` | sample accounting in the Cornell box and glTF viewer `main.rs` |
| example_models.dfy | `ExampleModels` | the model set-up of the reflections demo and the Cornell box |
| license_extractor.dfy | `LicenseExtractor` | assets/models/license_extractor.py |

Modelling choices:

- Rust's fixed-width integers are `nat` with explicit bounds. A `u32` addition or multiplication that
  would overflow is an error result, as in a debug build. `as u32` and `as i32` casts wrap explicitly.
- Floating-point values (bounding boxes, material factors, light intensities) are reals. Only
  copying, minimum and maximum are modelled, never rounding.
- `Mat4` is an abstract monoid: a matrix is the sequence of local transforms multiplied so far, so
  composition is concatenation and the identity is the empty sequence.
- Durations are natural numbers of nanoseconds, and the statistics logs hold whole milliseconds.
- A panic (`assert!`, an index out of range, `unwrap` on `None`, `unimplemented!`) is the `Failure`
  case of a `Result`. A returned `Err` is also a `Failure`, with the error it carries.
- `HashMap` iteration order, which the source does not fix, is an input sequence.
- Some call sites do not match the functions they call. The model follows the defining code:
  - crates/examples/gltf_viewer/src/main.rs:140 reads `gui.heatmap`, which the viewer's `Gui` lacks.
    `SampleAccounting.SampleSettings` carries the flag for both programs.
  - crates/libs/asset_loader/src/scene_graph.rs:126 calls `update_info` with one argument.
    The definition at crates/libs/asset_loader/src/image.rs:46 also takes the set of linear
    images. `Pixels.UpdateInfo` takes both, and `Document` passes the set `find_linear_textures`
    computes.
  - The asset loader's `Texture` (crates/libs/asset_loader/src/texture.rs:3-9) has neither an
    `index` field nor a `Default` implementation. Yet crates/libs/asset_loader/src/scene_graph.rs:138-139
    starts the texture list with `Texture::default()` and checks `index` with `check_indices!`,
    and crates/libs/asset_loader/src/globals.rs:334 puts `t.index` first in each triple.
    `Textures.Texture` carries an `index`: the texture's slot in the loader's list. It is 0 for the
    default texture, whose fields are all zero, and the glTF index plus one otherwise, the same
    shift `Sampler::from` and `Image::update_info` apply. The triple's first entry is that slot,
    which is the reference `TextureInfo::new` writes into a material.
  - crates/examples/cornell_box/src/model.rs:171 reads `t.texture_index` of the `gltf` crate's
    `Texture` (crates/libs/gltf/src/texture.rs:2-5), which has only `image_index` and
    `sampler_index`. `ExampleModels.CornellTextures` uses the texture's position in the list.
  - crates/examples/gltf_viewer/src/main.rs:80 calls `create_pipeline(context, &globals)`, while
    crates/examples/gltf_viewer/src/pipeline_res.rs:21-25 also takes `fully_opaque`.
    `ViewerPipeline.ViewerShaders` takes the flag as a parameter. The document's value for it is
    `Geometry.FullyOpaque` of its geometry builder.
  - The Cornell box's GUI has no `scene` field, yet its `state_change` compares scenes. The scene
    a GUI state selects is the parameter `sceneOf` of `SampleAccounting.StateChange`.
  - The Cornell box's geometry info reads texture-info fields and an `ior` that the loader's
    `Material` lacks. Those fields are left out of `ExampleModels.CornellGeometryOf`.
  - crates/examples/cornell_box/src/desc_sets.rs:93 destructures a pair from the three-element
    texture triples that crates/examples/cornell_box/src/model.rs:168-177 builds. The model keeps
    the triples.

## Model

| member | source | states |
|---|---|---|
| BoundingBoxes.MinOf | crates/libs/asset_loader/src/aabb.rs:29-34 | `min_by` over a non-empty list returns one of the values, and none of them is smaller |
| BoundingBoxes.MaxOf | crates/libs/asset_loader/src/aabb.rs:37-39 | `max_by` over a non-empty list returns one of the values, and none of them is larger |
| BoundingBoxes.Union | crates/libs/asset_loader/src/aabb.rs:21-44 | no box exactly when the list is empty; a single box is returned unchanged; otherwise the result encloses every input box |
| BoundingBoxes.UnionIsTight | crates/libs/asset_loader/src/aabb.rs:26-42 | each of the six faces of the union lies on the matching face of some input box |
| BoundingBoxes.TightBoxUnique | crates/libs/asset_loader/src/aabb.rs:26-42 | an enclosing box that touches the inputs on all six faces is unique, so the union is the least enclosing box |
| BoundingBoxes.UnionOrderIndependent | crates/libs/asset_loader/src/aabb.rs:21-44 | the union depends only on which boxes are given, not on their order |
| BoundingBoxes.TransferTight | crates/libs/asset_loader/src/aabb.rs:26-42 | a face that touches a box of a sub-list also touches a box of the whole list |
| BoundingBoxes.Max3 | crates/libs/asset_loader/src/aabb.rs:53-59 | the comparison chain returns one of the three values, and none of them is larger |
| BoundingBoxes.LargerSideSize | crates/libs/asset_loader/src/aabb.rs:47-60 | the result is one of the three absolute side lengths, and none of them is longer |
| BoundingBoxes.Scale | crates/libs/asset_loader/src/aabb.rs:85-91 | both corners are multiplied by the factor, component by component |
| BoundingBoxes.ScaleComposes | crates/libs/asset_loader/src/aabb.rs:85-91 | scaling by `j` and then by `k` is scaling by `j * k`, and scaling by 1 changes nothing |
| BoundingBoxes.SidesScale | crates/libs/asset_loader/src/aabb.rs:48-51 | a non-negative factor multiplies each absolute side length by that factor |
| BoundingBoxes.ScaledLargerSide | crates/libs/asset_loader/src/aabb.rs:47-60 | the longest side of a box scaled by a non-negative factor is the longest of its scaled sides |
| BoundingBoxes.Max3Scale | crates/libs/asset_loader/src/aabb.rs:53-59 | the three-way comparison commutes with scaling by a non-negative factor |
| BoundingBoxes.FromBounds | crates/libs/asset_loader/src/aabb.rs:94-102 | the box's corners are the accessor's minimum and maximum bounds |
| Align.ComputeAlignedSize | crates/libs/vulkan/src/utils/mod.rs:11-13 | fails exactly when the alignment is 0 (the `alignment - 1` underflows) or when `size + alignment - 1` overflows `u32`; any result fits in `u32` |
| Align.AlignedSizeRoundsUp | crates/libs/vulkan/src/utils/mod.rs:11-13 | for a power-of-two alignment and no overflow, the masked sum is the least multiple of the alignment not below the size |
| Align.AlignedSizeIdempotent | crates/libs/vulkan/src/utils/mod.rs:11-13 | aligning a size that is already aligned returns it unchanged |
| Bits.CheckedAdd | crates/libs/app/src/lib.rs:833-834 | a `u32` addition succeeds exactly when the sum fits, and then gives the sum |
| Bits.CheckedMul | crates/libs/asset_loader/src/acceleration_structures.rs:54 | a `u32` multiplication succeeds exactly when the product fits, and then gives the product |
| Bits.AsU32 | crates/libs/asset_loader/src/acceleration_structures.rs:160 | an `as u32` cast keeps the value modulo 2^32, and keeps a value that already fits |
| Bits.AsI32 | crates/examples/rt_reflections/src/main.rs:190-192 | an `as i32` cast gives the two's-complement value congruent modulo 2^32, and keeps a value that already fits |
| Bits.ContainsBit | crates/libs/vulkan/src/queue.rs:28-34 | a one-bit flag is contained in a flag set exactly when that bit of the set is one |
| AccelerationStructures.PackRoundTrip | crates/libs/asset_loader/src/acceleration_structures.rs:125-129 | `Packed24_8::new(low, high)` unpacks to the byte `high` and the low 24 bits of `low`, which is `low` itself below 2^24 |
| AccelerationStructures.BlasFor | crates/libs/asset_loader/src/acceleration_structures.rs:15-63 | succeeds exactly when the geometry id is in range, its index count is a multiple of three and the byte offset fits `u32`; then one range of `(indices / 3) as u32` triangles starting at the geometry's vertex offset, with primitive offset four bytes per index before the geometry's index offset, `max_vertex` the vertex count `as u32`, and `max_primitives` the same count; both casts wrap past 2^32 - 1 and are exact below it |
| AccelerationStructures.CountWrapsPastU32 | crates/libs/asset_loader/src/acceleration_structures.rs:26 | a geometry of 3 * 2^32 indices builds with a primitive count of zero, because the triangle count is cast to `u32` |
| AccelerationStructures.BlasCoversGeometry | crates/libs/asset_loader/src/acceleration_structures.rs:23-56 | for a builder that tracks its geometries, the range of geometry `g` covers exactly its own slice of the shared index and vertex arrays: its byte offset is four times the index total of the geometries before it, and it runs up to the total including it |
| AccelerationStructures.BlasInputs | crates/libs/asset_loader/src/acceleration_structures.rs:70-76 | one input per primitive, in primitive order, each the input of that primitive's geometry; fails exactly when one of them fails |
| AccelerationStructures.AllPrims | crates/libs/asset_loader/src/acceleration_structures.rs:70-74 | the primitives of all meshes, mesh after mesh |
| AccelerationStructures.CreateBlases | crates/libs/asset_loader/src/acceleration_structures.rs:70-77 | the bottom-level inputs of all primitives, rearranged: the same inputs with the same multiplicity |
| AccelerationStructures.BlasesSorted | crates/libs/asset_loader/src/acceleration_structures.rs:77 | the inputs come out ordered by geometry id |
| AccelerationStructures.BlasAtOwnId | crates/libs/asset_loader/src/acceleration_structures.rs:70-90 | when primitive `k` owns geometry `k`, structure `g` of the sorted list is the input of geometry `g` |
| AccelerationStructures.BuiltPrimsConsecutive | crates/libs/asset_loader/src/geometry.rs:88-114 | the built primitives of all meshes carry consecutive geometry ids, one per supported primitive, starting at the builder's counter |
| AccelerationStructures.PrimInstances | crates/libs/asset_loader/src/acceleration_structures.rs:121-134 | one instance per primitive under the node's transform, referring to the primitive's geometry, with mask 0xFF, custom index the geometry id and culling disabled; fails exactly when a geometry id is past the built structures (the `blases[geo_id]` index) |
| AccelerationStructures.NodeInstances | crates/libs/asset_loader/src/acceleration_structures.rs:114-135 | no instances for a node without a mesh; otherwise one per primitive of its mesh, failing when the mesh index or a geometry id is out of range |
| AccelerationStructures.TopInstances | crates/libs/asset_loader/src/acceleration_structures.rs:113-136 | the instance list succeeds exactly when every listed node's instances build |
| AccelerationStructures.TopInstancesAppend | crates/libs/asset_loader/src/acceleration_structures.rs:113-136 | the instances of two runs of nodes are those of the first run followed by those of the second |
| AccelerationStructures.InstancesOrderFree | crates/libs/asset_loader/src/acceleration_structures.rs:114 | visiting the same nodes in any order, as hash-map iteration may, succeeds or fails alike and yields the same instances up to order |
| AccelerationStructures.RearrangedBlocks | crates/libs/asset_loader/src/acceleration_structures.rs:114-135 | moving one node's block of instances out of the middle of the list keeps every instance |
| AccelerationStructures.MiddleSuccess | crates/libs/asset_loader/src/acceleration_structures.rs:114-135 | a node in the middle of the list builds together with the rest exactly when it and the rest build separately |
| AccelerationStructures.CreateAs | crates/libs/asset_loader/src/acceleration_structures.rs:65-94 | over every node of the map, each once: the bottom-level list is the sorted per-primitive inputs, the top level holds the instances of all nodes against that many structures, its primitive count is the instance count cast to `u32`, and it fails exactly when a bottom-level input or some node's instances fail |
| AccelerationStructures.CreateAsOrderFree | crates/libs/asset_loader/src/acceleration_structures.rs:113-136 | the node map's iteration order changes neither the bottom level, nor whether the build succeeds, nor the instances up to their order, nor their count |
| AccelerationStructures.InstancesReferToOwnGeometry | crates/libs/asset_loader/src/acceleration_structures.rs:121-133 | for a document whose primitive `k` owns geometry `k`, every instance refers to the structure built for its own geometry and carries the full mask and its geometry id as custom index |
| AccelerationStructures.BlasAt | crates/libs/asset_loader/src/acceleration_structures.rs:77-90 | under the same assumption, structure `g` of the built list was made for geometry `g` |
| AccelerationStructures.InstanceInList | crates/libs/asset_loader/src/acceleration_structures.rs:121-133 | every instance of a successful list passed the structure range check and carries the full mask and the low 24 bits of its geometry id |
| AccelerationStructures.DocumentBlases | crates/libs/asset_loader/src/acceleration_structures.rs:65-90 | for meshes built from an empty builder whose index bytes fit `u32` and whose index counts are multiples of three, the list holds one input per geometry, input `g` at position `g` |
| AccelerationStructures.KeysListed | crates/libs/asset_loader/src/acceleration_structures.rs:113 | an iteration of the node map visits only nodes of the map and every one of them |
| Geometry.DefaultGeoBuilder | crates/libs/asset_loader/src/geometry.rs:31-44 | the derived default builder is empty: no vertices, indices, geometries, offsets, material flags or material ids |
| Geometry.NewGeoBuilder | crates/libs/asset_loader/src/geometry.rs:47-54 | one normal-texture flag and one opacity flag per material, in material order, and otherwise the default builder |
| Geometry.NextGeoId | crates/libs/asset_loader/src/geometry.rs:88-93 | returns the current counter, advances it by one and records the material id; fails when the `u32` counter would overflow; nothing else changes |
| Geometry.NextGeoIdKeepsCount | crates/libs/asset_loader/src/geometry.rs:88-93 | when the counter equals the number of recorded material ids it still does afterwards, and the id handed out indexes its own material |
| Geometry.IsOpaque | crates/libs/asset_loader/src/geometry.rs:56-58 | the opacity flag of the geometry's material; fails where either index panics |
| Geometry.FullyOpaque | crates/libs/asset_loader/src/geometry.rs:60-62 | true exactly when every material flag is opaque |
| Geometry.NewBuilderOpacity | crates/libs/asset_loader/src/geometry.rs:47-62 | with flags taken from the materials, the builder is fully opaque exactly when every material is, and a geometry's opacity is its material's |
| Geometry.Flatten | crates/libs/asset_loader/src/geometry.rs:76-97 | one record per geometry carrying its vertex offset, index offset and material, with skin id 0 |
| Geometry.AddGeometry | crates/libs/asset_loader/src/geometry.rs:252-259 | the primitive's vertices and indices are appended, its lengths recorded, and its offsets are the previous array lengths cast to `u32` |
| Geometry.EmptyConsistent | crates/libs/asset_loader/src/geometry.rs:31-54 | a fresh builder is consistent: offsets are running totals of the recorded lengths |
| Geometry.AddGeometryConsistent | crates/libs/asset_loader/src/geometry.rs:252-259 | appending a primitive keeps every offset equal to the total length of the geometries before it |
| Geometry.AddGeometrySlices | crates/libs/asset_loader/src/geometry.rs:252-259 | while the arrays fit `u32`, the new geometry's offsets and lengths select exactly its own vertices and indices, and earlier data is untouched |
| Geometry.Paint | crates/libs/asset_loader/src/geometry.rs:274-288 | painting triangles from `t` on keeps the array length and succeeds exactly when every remaining index is inside the positions and the normals |
| Geometry.GeoNormals | crates/libs/asset_loader/src/geometry.rs:270-290 | an array of the given size painted triangle by triangle; fails when the index count is not a multiple of three or an index is out of range |
| Geometry.CreateGeoNormalAsWritten | crates/libs/asset_loader/src/geometry.rs:270-290 | as written, the normal array has one entry per index rather than per vertex |
| Geometry.CreateGeoNormal | crates/libs/asset_loader/src/geometry.rs:270-290 | one normal per vertex; succeeds exactly when the index count is a multiple of three and every index names a vertex |
| Geometry.PaintAt | crates/libs/asset_loader/src/geometry.rs:274-288 | a vertex in no remaining triangle keeps its normal; otherwise it holds the face normal of one of the triangles that use it (the last writer wins) |
| Geometry.CreateGeoNormalAt | crates/libs/asset_loader/src/geometry.rs:270-290 | a vertex used by no triangle gets the zero vector; otherwise the face normal of a triangle that uses it |
| Geometry.NormalsSizedByIndexCount | crates/libs/asset_loader/src/geometry.rs:272 | for four positions and one triangle the as-written array has three entries, and the triangle 1, 2, 3 indexes past it; the corrected array has four entries and succeeds |
| Geometry.MaterialIndex | crates/libs/asset_loader/src/geometry.rs:142-143 | the material's index when it has one, `DEFAULT_MATERIAL_INDEX` otherwise, cast to `u32` |
| Geometry.DefaultIndices | crates/libs/asset_loader/src/geometry.rs:172-174 | without an index accessor the indices are 0, 1, 2, ... up to the vertex count cast to `u32` |
| Geometry.PadAll | crates/libs/asset_loader/src/geometry.rs:166 | every position becomes a four-vector with `w` = 0 |
| Geometry.Assemble | crates/libs/asset_loader/src/geometry.rs:228-249 | one vertex per position taking the position, normal, tangent and both UV sets at its index, colour white and weights and joints zero when missing, skin index -1; fails exactly when an attribute array is shorter than the positions |
| Geometry.PrimitiveData | crates/libs/asset_loader/src/geometry.rs:150-251 | fails without positions; otherwise one vertex per position with that position padded, and the accessor's indices or the default ones |
| Geometry.PositionsOnlyVertex | crates/libs/asset_loader/src/geometry.rs:166-249 | a primitive with positions only gets generated normals, a white colour, zero UVs, weights and joints, and the default tangent when no tangents are generated |
| Geometry.GivenAttributesKept | crates/libs/asset_loader/src/geometry.rs:177-249 | every attribute the primitive supplies is copied into its vertex unchanged |
| Geometry.PrimitiveFrom | crates/libs/asset_loader/src/geometry.rs:132-267 | a primitive takes the next geometry id, records its material and offsets, appends its vertices and indices without touching earlier data, and keeps its bounding box |
| Geometry.PrimitiveFromTracks | crates/libs/asset_loader/src/geometry.rs:132-267 | adding a primitive keeps the builder tracking its geometries: consistent offsets, one offset, length and material id per id handed out |
| Geometry.CountSupported | crates/libs/asset_loader/src/geometry.rs:292-294 | the number of primitives with positions in triangle mode, never more than there are primitives |
| Geometry.BuildPrimitives | crates/libs/asset_loader/src/geometry.rs:106-108 | one built primitive per supported primitive, with consecutive geometry ids from the builder's counter |
| Geometry.BuildPrimitivesTracks | crates/libs/asset_loader/src/geometry.rs:106-108 | building a mesh's primitives keeps the builder tracking its geometries |
| Geometry.MeshNew | crates/libs/asset_loader/src/geometry.rs:101-114 | the mesh keeps its index and name and holds one primitive per supported primitive, numbered consecutively |
| Geometry.MeshAabb | crates/libs/asset_loader/src/geometry.rs:116-119 | no box for a mesh without primitives; otherwise a box enclosing every primitive's box |
| Geometry.BuildMeshes | crates/libs/asset_loader/src/scene_graph.rs:110-113 | one mesh per source mesh in order, with the counter advanced by the number of supported primitives |
| Geometry.BuildMeshesTracks | crates/libs/asset_loader/src/scene_graph.rs:110-113 | building all meshes keeps the builder tracking its geometries |
| Geometry.BuildMeshesFromEmpty | crates/libs/asset_loader/src/scene_graph.rs:105-113 | from an empty builder, the geometry count equals the number of supported primitives and of recorded offsets and lengths |
| Geometry.DefaultBuilderForgetsMaterials | crates/libs/asset_loader/src/scene_graph.rs:105-108 | a default builder has no material flags: it reports fully opaque and never generates tangents |
| Geometry.BlendMaterialReadAsOpaque | crates/libs/asset_loader/src/scene_graph.rs:105-108 | with a non-opaque material, the default builder still reports fully opaque while the builder made from the materials does not |
| Geometry.NewBuilderGeneratesTangents | crates/libs/asset_loader/src/geometry.rs:197-212 | a builder made from the materials generates tangents for a normal-mapped material with UVs, and is fully opaque exactly when every material is |
| Geometry.IsPrimitiveSupported | crates/libs/asset_loader/src/geometry.rs:292-294 | a supported primitive has positions, and a primitive not in triangle mode is never supported |
| SceneGraph.Node.World | crates/libs/asset_loader/src/scene_graph.rs:249-254 | the world transform is the cached parent chain followed by the node's own local transform |
| SceneGraph.NodeOf | crates/libs/asset_loader/src/scene_graph.rs:180-197 | a loaded node keeps the glTF node's children, mesh and light, caches the parent chain it was loaded under, and its world transform is that chain times its local matrix |
| SceneGraph.LoadNode | crates/libs/asset_loader/src/scene_graph.rs:180-204 | loading a node already present fails the `assert!`; on success every earlier entry is kept unchanged and the node itself is stored under the given parent chain |
| SceneGraph.LoadChildren | crates/libs/asset_loader/src/scene_graph.rs:201-203 | loading children in order never changes or removes a node already loaded |
| SceneGraph.LoadNodeSound | crates/libs/asset_loader/src/scene_graph.rs:180-204 | every node a successful load added has all its children added too, each caching its parent's world transform |
| SceneGraph.LoadChildrenSound | crates/libs/asset_loader/src/scene_graph.rs:201-203 | after loading a child list, each listed child is newly loaded under the given parent chain and every new node's children are loaded under its world transform |
| SceneGraph.LoadedTreeConsistent | crates/libs/asset_loader/src/scene_graph.rs:180-204 | a tree loaded into an empty map is consistent: the root caches the given chain and every child in it caches its parent's world transform |
| SceneGraph.LoadTwiceFails | crates/libs/asset_loader/src/scene_graph.rs:182 | a node that lists itself as its child is loaded twice, which the `assert!` rejects |
| SceneGraph.LoadScene | crates/libs/asset_loader/src/scene_graph.rs:161-178 | a scene already loaded is left as it is; otherwise loading succeeds exactly when the scene index exists and all its roots load, and the scene is then recorded |
| SceneGraph.LoadRoots | crates/libs/asset_loader/src/scene_graph.rs:173-176 | loading the roots keeps every node already loaded |
| SceneGraph.LoadSceneIdempotent | crates/libs/asset_loader/src/scene_graph.rs:161-162 | loading the current scene a second time changes nothing |
| SceneGraph.LoadSceneRoots | crates/libs/asset_loader/src/scene_graph.rs:164-176 | after loading, the scene records the glTF scene's roots in order and each root caches the identity |
| SceneGraph.Visit | crates/libs/asset_loader/src/scene_graph.rs:83-92 | a walk starts at the node itself and visits only loaded nodes |
| SceneGraph.VisitChildren | crates/libs/asset_loader/src/scene_graph.rs:89-91 | the walk of a child list visits only loaded nodes |
| SceneGraph.VisitPreOrder | crates/libs/asset_loader/src/scene_graph.rs:83-92 | pre-order: the node comes first and its loaded children follow in listed order, each before the next |
| SceneGraph.VisitChildrenOrder | crates/libs/asset_loader/src/scene_graph.rs:89-91 | the loaded children appear in the walk in their listed order; the ones not loaded are skipped |
| SceneGraph.VisitLeaf | crates/libs/asset_loader/src/scene_graph.rs:88-91 | a node none of whose children are loaded is visited alone |
| SceneGraph.NoneLoaded | crates/libs/asset_loader/src/scene_graph.rs:90 | a child list none of whose entries is loaded contributes nothing to the walk |
| SceneGraph.TraverseRootNodes | crates/libs/asset_loader/src/scene_graph.rs:76-80 | a missing current scene or an unloaded root is an unwrap panic; otherwise only loaded nodes are visited |
| SceneGraph.VisitRoots | crates/libs/asset_loader/src/scene_graph.rs:77-79 | the roots' walks in scene order; any root not loaded is an unwrap panic |
| SceneGraph.RawLights | crates/libs/asset_loader/src/scene_graph.rs:55-63 | succeeds exactly when every visited light index is in range, giving one raw light per visited node that has a light |
| SceneGraph.Split | crates/libs/asset_loader/src/scene_graph.rs:58-62 | the lists keep only lights of the requested kind, taken from the walk's lights |
| SceneGraph.OrDefault | crates/libs/asset_loader/src/scene_graph.rs:66-72 | an empty list becomes one default light; a non-empty list is kept |
| SceneGraph.GetLightsRaw | crates/libs/asset_loader/src/scene_graph.rs:52-74 | both lists are non-empty; the point list holds no directional light and the directional list holds only directional lights unless it is the single default |
| SceneGraph.LightsPartitioned | crates/libs/asset_loader/src/scene_graph.rs:52-74 | every light met in the walk lands in exactly one of the two lists, in walk order, when that list is not padded |
| SceneGraph.SplitMultiset | crates/libs/asset_loader/src/scene_graph.rs:58-62 | splitting by kind loses and duplicates nothing |
| SceneGraph.UpdateParent | crates/libs/asset_loader/src/scene_graph.rs:213-221 | updating a node that is not loaded is an unwrap panic |
| SceneGraph.UpdateLocal | crates/libs/asset_loader/src/scene_graph.rs:206-211 | updating a node that is not loaded panics; otherwise the same nodes remain and the node carries the new local transform |
| SceneGraph.Writes | crates/libs/asset_loader/src/scene_graph.rs:213-221 | the first cache assignment gives the node the new parent chain, and every assignment is to a loaded node |
| SceneGraph.UpdateParentIsApply | crates/libs/asset_loader/src/scene_graph.rs:213-221 | the recursive update is the same as performing its cache assignments in order, and it succeeds exactly when they can be listed |
| SceneGraph.UpdateParentShape | crates/libs/asset_loader/src/scene_graph.rs:213-221 | an update changes only cached parent chains |
| SceneGraph.ApplyDistinct | crates/libs/asset_loader/src/scene_graph.rs:213-221 | when each node is assigned at most once, each assigned node ends with its assigned chain and every other node is unchanged |
| SceneGraph.WritesClosed | crates/libs/asset_loader/src/scene_graph.rs:217-220 | every child of an updated node is updated as well |
| SceneGraph.WritesParented | crates/libs/asset_loader/src/scene_graph.rs:217-220 | every updated node after the first is the child of an earlier one and receives that node's new world transform |
| SceneGraph.UpdateParentConsistent | crates/libs/asset_loader/src/scene_graph.rs:213-221 | when no node sits twice in the subtree, the update gives the node the new chain, leaves every node outside the subtree alone and leaves each subtree node's children caching its new world transform |
| SceneGraph.UpdateLocalRestores | crates/libs/asset_loader/src/scene_graph.rs:206-211 | in a consistent tree where each node has one parent, replacing a local transform yields a consistent tree again with the node's world transform built from the new local transform |
| SceneGraph.UpdateChildren | crates/libs/asset_loader/src/scene_graph.rs:217-220 | updating the children one after the other keeps the set of loaded nodes, and succeeds only when every child is loaded |
| Document.CheckIndices | crates/libs/asset_loader/src/scene_graph.rs:19-23 | `check_indices!` passes exactly when every element's own index equals its position, and then returns the list unchanged |
| Document.CurrentScene | crates/libs/asset_loader/src/scene_graph.rs:95-98 | the default scene when the document names one, otherwise the first scene; a document without scenes panics with "No scene" |
| Document.DocImages | crates/libs/asset_loader/src/image.rs:46-58 | each decoded image gets index `i + 1`, the URI as its source (none for a buffer view), its own size, and linear gamma exactly when its glTF index is in the linear set |
| Document.DocImage | crates/libs/asset_loader/src/image.rs:46-58 | one decoded document image sits in slot `first + 1`, keeps its URI and size, and is linear exactly when its glTF index is in the linear set |
| Document.DocImageList | crates/libs/asset_loader/src/scene_graph.rs:118-131 | the default image in slot 0, then glTF image `i - 1` in slot `i` with index `i`, its URI and its size |
| Document.DocNewFrom | crates/libs/asset_loader/src/scene_graph.rs:94-159 | a new document has a scene, no loaded scenes or nodes, one material and one light per glTF entry at its own index, default material and sampler 0, and the meshes, images, samplers and textures built and checked as the lists above |
| Document.DocMeshes | crates/libs/asset_loader/src/scene_graph.rs:110-114 | one mesh per glTF mesh at its own index, all built on one builder that gains one geometry per supported primitive and keeps its material flags |
| Document.DocSamplerList | crates/libs/asset_loader/src/scene_graph.rs:133-136 | the default sampler in slot 0, then the document's samplers, each at its own index |
| Document.DocTextureList | crates/libs/asset_loader/src/scene_graph.rs:138-139 | the default texture in slot 0, then glTF texture `k` converted in slot `k + 1`, each at its own slot; the check passes exactly when every converted texture names slot `k + 1` |
| Document.TextureListChecks | crates/libs/asset_loader/src/scene_graph.rs:138-139 | with either image reference, the texture list passes its check exactly when glTF texture `k` carries index `k` |
| Document.DocNewImages | crates/libs/asset_loader/src/scene_graph.rs:118-130 | slot `k + 1` of the image list holds glTF image `k`: its source, index and size |
| Document.DocNewImage | crates/libs/asset_loader/src/scene_graph.rs:118-130 | with the shifted texture references, slot `j + 1` of the image list exists and holds glTF image `j`: its source, index and size |
| Document.DocNewImageSlot | crates/libs/asset_loader/src/scene_graph.rs:118-130 | read from the slot side: every slot `i > 0` holds glTF image `i - 1` |
| Document.DocNewAsWritten | crates/libs/asset_loader/src/scene_graph.rs:105-108 | with the default builder the document records no opacity and no normal-texture flags, whatever its materials |
| Document.DocNew | crates/libs/asset_loader/src/scene_graph.rs:105-108 | with the builder made from the materials, the builder's opacity and normal-texture flags are those of the document's materials |
| Document.DocNewTextures | crates/libs/asset_loader/src/scene_graph.rs:138-139 | the texture list has the default texture in slot 0 and glTF texture `k`, converted, in slot `k + 1`, whose own index is `k + 1`; that texture refers to glTF image `source` as written, which is the slot before its image, and to slot `source + 1` once shifted |
| Document.AsWrittenReportsOpaque | crates/libs/asset_loader/src/scene_graph.rs:105-108 | a document with a blending material is reported fully opaque as written, and not once the builder knows the materials |
| Document.DocGeometryTracked | crates/libs/asset_loader/src/scene_graph.rs:110-113 | the document's geometry ids run from 0, one per supported primitive, each with its offsets and lengths recorded |
| Document.LoadFile | crates/libs/asset_loader/src/scene_graph.rs:258-272 | `load_file` over the corrected `Document.DocNew`, whose builder carries the materials' flags (the Findings row for scene_graph.rs:105-108; `Document.DocNewAsWritten` is the source as written): succeeds exactly when the document is built and the current scene exists and its node trees load into the empty node map; the result is that document with only the current scene and its nodes loaded |
| Lights.KindCode | crates/libs/asset_loader/src/light.rs:29-34 | the shader codes of the three light kinds are 0, 1 and 2 |
| Lights.LightTypeFrom | crates/libs/asset_loader/src/light.rs:49-59 | a glTF light is directional exactly when its kind is directional; point and spot lights both become point lights |
| Lights.LightFrom | crates/libs/asset_loader/src/light.rs:121-131 | keeps the light's index, colour, name and intensity; a missing range becomes the largest `f32` |
| Lights.DefaultLightRaw | crates/libs/asset_loader/src/light.rs:108-118 | the padding light is white, has transform (1,1,1,1), zero range and intensity, and is a point light, so never directional |
| Lights.GetTransform | crates/libs/asset_loader/src/light.rs:37-46 | a directional light carries the world matrix's third column scaled by 0.1; point and spot lights carry zero |
| Lights.ToRaw | crates/libs/asset_loader/src/light.rs:16-26 | the raw light has the colour with a zero fourth component, the kind's code, range and intensity unchanged, zero padding, and is directional exactly when the light is |
| Lights.RawDirectionality | crates/libs/asset_loader/src/light.rs:49-59 | a raw light built from a glTF light is directional exactly when the glTF kind is; anything else has the point code |
| Lights.UpdateColor | crates/libs/asset_loader/src/light.rs:103-105 | the colour is replaced and every other field is left as it was |
| Lights.ReportLights | crates/libs/asset_loader/src/light.rs:134-137 | the two reported counts are the numbers of directional and of point lights |
| Lights.ReportCoversAll | crates/libs/asset_loader/src/light.rs:134-137 | with spot lights read as point lights, the two counts add up to all the document's lights |
| Materials.TextureInfoNew | crates/libs/asset_loader/src/material.rs:33-56 | an absent texture is (-1, -1); a present one refers to slot `1 + index` and keeps its texture coordinate set |
| Materials.NoneIffAbsent | crates/libs/asset_loader/src/material.rs:58-60 | `is_none` holds exactly when the glTF material had no such texture |
| Materials.TransmissionFrom | crates/libs/asset_loader/src/material.rs:258-266 | a present transmission is marked as existing and keeps its factor |
| Materials.VolumeFrom | crates/libs/asset_loader/src/material.rs:215-230 | a present volume is marked as existing and keeps its attenuation colour and distance |
| Materials.SpecularFrom | crates/libs/asset_loader/src/material.rs:301-312 | a present specular block is marked as existing and its colour gains a zero fourth component |
| Materials.MaterialFrom | crates/libs/asset_loader/src/material.rs:332-380 | index defaults to 0 and IOR to 1.5; name, alpha mode and cutoff, sidedness, unlit flag, base colour and the metallic and roughness factors are kept; the base-colour, metallic-roughness, normal, emissive and occlusion textures are converted references; emissive gains a zero fourth component; each extension is present exactly when the glTF material has it, converted |
| Materials.TransmissionOf | crates/libs/asset_loader/src/material.rs:374 | the transmission block is present exactly when the glTF material has one, converted |
| Materials.VolumeOf | crates/libs/asset_loader/src/material.rs:354 | the volume block is present exactly when the glTF material has one, converted |
| Materials.SpecularOf | crates/libs/asset_loader/src/material.rs:336 | the specular block is present exactly when the glTF material has one, converted |
| Materials.SpecularGlossinessOf | crates/libs/asset_loader/src/material.rs:342-344 | the specular-glossiness block is present exactly when the glTF material has one, converted |
| Materials.MaterialPredicates | crates/libs/asset_loader/src/material.rs:93-100 | a material has a normal texture exactly when the glTF material does, and is opaque exactly when its alpha mode is opaque |
| Materials.AlphaModeCode | crates/libs/asset_loader/src/material.rs:170 | the alpha mode is sent to the shaders as a code from 1 to 3 |
| Materials.ModeOfCode | crates/libs/asset_loader/src/material.rs:170 | a shader reading the alpha-mode code gets back exactly the mode that has that code, and no mode for a code outside 1 to 3 |
| Materials.Flag | crates/libs/asset_loader/src/material.rs:172 | a boolean is sent as 1 when set and 0 otherwise |
| Materials.ToRaw | crates/libs/asset_loader/src/material.rs:162-190 | the alpha mode becomes its code and the two flags 0 or 1; the cutoff defaults to 0.5; base colour, emissive factor, IOR, metallic-roughness block and the four texture references are copied; the workflow is specular-glossiness exactly when that block exists; padding is zero; each absent extension becomes its default block and each present one is copied |
| Materials.RawRecoversPresence | crates/libs/asset_loader/src/material.rs:162-190 | from the raw material one can read back which extensions the glTF material had, its sidedness, unlit flag, alpha mode and IOR |
| Materials.LinearSources | crates/libs/asset_loader/src/material.rs:107-125 | the images one material reads as data are exactly those of its normal, metallic-roughness, transmission and specular textures |
| Materials.SourceOf | crates/libs/asset_loader/src/material.rs:108-110 | an absent texture contributes no image; a present one its source image |
| Materials.FindLinearTextures | crates/libs/asset_loader/src/material.rs:102-128 | an image is linear exactly when some material reads it as data |
| Materials.ColourTexturesStaySrgb | crates/libs/asset_loader/src/material.rs:103-105 | a material with only colour textures marks no image linear |
| Materials.SpecularGlossinessFrom | crates/libs/asset_loader/src/material.rs:278-288 | the diffuse, specular and glossiness factors are copied; an absent texture becomes the empty reference, and a present one with an index below `i32::MAX` refers to its index plus one, for both the diffuse and the specular-glossiness texture |
| Textures.DefaultSampler | crates/libs/asset_loader/src/texture.rs:20-30 | the default sampler sits at index 0, filters linearly with linear mip-maps and repeats in both directions |
| Textures.SamplerSlot | crates/libs/asset_loader/src/texture.rs:63 | a texture without a sampler uses slot 0; sampler `i` sits in slot `i + 1` |
| Textures.SlotSampler | crates/libs/asset_loader/src/texture.rs:63 | slot 0 reads back as no sampler |
| Textures.SlotRoundTrip | crates/libs/asset_loader/src/texture.rs:63 | the slot numbering and its inverse undo each other in both directions |
| Textures.ConversionsKeepVariant | crates/libs/asset_loader/src/texture.rs:87-117 | each filter and wrap conversion keeps the variant's name and maps distinct glTF variants to distinct loader variants |
| Textures.TextureFrom | crates/libs/asset_loader/src/texture.rs:55-67 | a texture keeps the glTF image index, its own index and name, and its sampler's slot |
| Textures.TextureFromShifted | crates/libs/asset_loader/src/texture.rs:61 | the corrected texture differs only in referring to the image's slot `source + 1` |
| Textures.SamplerFrom | crates/libs/asset_loader/src/texture.rs:69-85 | missing filters become linear; given filters and both wrap modes keep their variant; the sampler's own index is its slot |
| GltfTextures.TextureFrom | crates/libs/gltf/src/texture.rs:38-45 | a texture keeps the glTF image index and refers to slot 0 without a sampler or `i + 1` for sampler `i` |
| GltfTextures.SamplerFrom | crates/libs/gltf/src/texture.rs:47-62 | missing filters become linear |
| GltfTextures.DefaultSampler | crates/libs/gltf/src/lib.rs:196-203 | slot 0 holds a linear, linear-mip-mapped, repeating sampler, as in the asset loader |
| GltfTextures.CratesAgree | crates/libs/gltf/src/texture.rs:38-62 | both crates convert textures and samplers to the same image index, sampler slot, filters and wrap modes |
| Pixels.PixelSize | crates/libs/asset_loader/src/image.rs:121-127 | 8-bit formats with one to four channels have that many bytes per pixel; every other format is unsupported |
| Pixels.ExpandLuma | crates/libs/asset_loader/src/image.rs:117-127 | an unsupported format is the "16 bytes images" error |
| Pixels.LumaShape | crates/libs/asset_loader/src/image.rs:139-175 | the asset loader's expansion succeeds exactly when the format is supported and the buffer holds at least as many bytes as the pixels need; then pixel `k` becomes the four bytes at `4k` built from the `k`-th source pixel |
| Pixels.LumaFromSucceeds | crates/libs/asset_loader/src/image.rs:142-175 | reading pixels `i` to `n` succeeds exactly when none is left or all of them lie in the buffer, and yields four bytes each |
| Pixels.LumaFromAt | crates/libs/asset_loader/src/image.rs:142-175 | in the expanded buffer, pixel `k` sits at `4(k - i)` and is built from source pixel `k` |
| Pixels.LumaIsGrey | crates/libs/asset_loader/src/image.rs:150-157 | one- and two-channel images are read as grey: red, green and blue are the same byte |
| Pixels.RgbaIsCopied | crates/libs/asset_loader/src/image.rs:164-169 | an RGBA buffer of exactly the pixel count is copied unchanged |
| Pixels.LumaPixel | crates/libs/asset_loader/src/image.rs:149-171 | each pixel expands to four bytes |
| Pixels.ZeroFillPixel | crates/libs/gltf/src/image.rs:67-91 | each pixel of the glTF crate's loader expands to four bytes |
| Pixels.ExpandZeroFill | crates/libs/gltf/src/image.rs:37-47 | an unsupported format is the "16 bytes images" error |
| Pixels.ZeroFillSucceeds | crates/libs/gltf/src/image.rs:61-96 | the glTF crate's walk succeeds exactly when the remaining bytes are a whole number of pixels, since a partial last pixel reads past the end |
| Pixels.ZeroFillLength | crates/libs/gltf/src/image.rs:61-96 | a walk over `k` whole pixels yields `4k` bytes |
| Pixels.ZeroFillAt | crates/libs/gltf/src/image.rs:61-96 | pixel `i` of the walk sits at byte `4i` of the result and is built from the `i`-th whole pixel |
| Pixels.ZeroFillShape | crates/libs/gltf/src/image.rs:14-25 | the glTF crate's expansion succeeds exactly when the format is supported and the buffer is a whole number of pixels; then pixel `i` of the result is built from source pixel `i` |
| Pixels.SamePixel | crates/libs/gltf/src/image.rs:77-89 | for RGB and RGBA the two loaders build the same four bytes from a pixel |
| Pixels.LoadersAgreeOnColour | crates/libs/asset_loader/src/image.rs:89-104 | for RGB and RGBA buffers of exactly the pixel count, both crates' loaders produce the same bytes |
| Pixels.DefaultImage | crates/libs/asset_loader/src/image.rs:31-43 | the default image is a single 1x1 RGBA pixel whose four bytes are 1, with index 0, sRGB gamma and no source |
| Pixels.UpdateInfo | crates/libs/asset_loader/src/image.rs:46-58 | the image index becomes the glTF index plus one, the gamma turns linear exactly for linear images and is otherwise kept, the source is replaced and the pixels are untouched |
| Pixels.ImageFromData | crates/libs/asset_loader/src/image.rs:89-104 | decoding succeeds exactly when the `u32` pixel count does not overflow, the format is supported and the buffer holds enough bytes; the result has four bytes per pixel, the given size and format, index 0 and sRGB |
| Cubemap.FaceIndex | crates/libs/asset_loader/src/cubumap.rs:20-27 | the six faces have the layer numbers 0 to 5 |
| Cubemap.FaceOfStem | crates/libs/asset_loader/src/cubumap.rs:31-47 | each variant name identifies its own face |
| Cubemap.Stem | crates/libs/asset_loader/src/cubumap.rs:31 | the stem is the longest prefix of the name without a '.', and is followed by a '.' when shorter than the name |
| Cubemap.GetIndex | crates/libs/asset_loader/src/cubumap.rs:30-49 | a file name is accepted exactly when its stem names a face or one of its synonyms, and then yields that face's layer; otherwise `unimplemented!` |
| Cubemap.FirstUnknown | crates/libs/asset_loader/src/cubumap.rs:89 | no name is reported exactly when every name is a face; a reported name is one of them and is no face |
| Cubemap.SortEntries | crates/libs/asset_loader/src/cubumap.rs:89 | with two or more entries sorting succeeds exactly when every name is a face; the result is a permutation of the entries ordered by layer |
| Cubemap.LoadAll | crates/libs/asset_loader/src/cubumap.rs:53-66 | loading succeeds exactly when every image loads, giving each image in entry order |
| Cubemap.CollectSize | crates/libs/asset_loader/src/cubumap.rs:59-64 | the upload buffer is as long as all pixel buffers together, and each image's pixels sit in one block at the sum of the sizes before it |
| Cubemap.SkyBoxNew | crates/libs/asset_loader/src/cubumap.rs:86-105 | succeeds exactly when the entries sort by face and every sorted entry loads; the images are then the loaded sorted entries, one per entry, the buffer is their pixels concatenated, with image `i` right after the images before it and the total size, and the sampler is the default one |
| Cubemap.GetExtents | crates/libs/asset_loader/src/cubumap.rs:111-113 | as written, the width of image 0 and the height of image 1, which needs at least two images |
| Cubemap.GetExtentsFixed | crates/libs/asset_loader/src/cubumap.rs:111-113 | the width and height of the first image, which needs only one |
| Cubemap.ExtentsDisagree | crates/libs/asset_loader/src/cubumap.rs:111-113 | a one-image skybox has extents only under the corrected reading |
| Cubemap.ExtentsAgreeOnSquareSets | crates/libs/asset_loader/src/cubumap.rs:111-113 | when the first two faces have the same height, both readings agree |
| Cubemap.GetGamma | crates/libs/asset_loader/src/cubumap.rs:115-117 | the skybox's gamma is that of its first image, which must exist |
| Cubemap.FaceNamesResolve | crates/libs/asset_loader/src/cubumap.rs:30-34 | `posx.jpg` and the other face names, with or without extension, resolve to their own layer |
| Cubemap.StemOfDotted | crates/libs/asset_loader/src/cubumap.rs:31 | the stem of `base.ext` is `base` when `base` has no dot |
| Cubemap.FaceIndexInjective | crates/libs/asset_loader/src/cubumap.rs:20-27 | distinct faces have distinct layers |
| Cubemap.Collect | crates/libs/asset_loader/src/cubumap.rs:59-64 | the upload buffer starts with the first image's pixels |
| Cubemap.TotalSize | crates/libs/asset_loader/src/cubumap.rs:107-109 | the total size is at least the first image's pixel count |
| Cubemap.TotalSizeBounds | crates/libs/asset_loader/src/cubumap.rs:107-109 | every image's pixel count is at most the total, and the total is zero exactly when every image is empty |
| Cubemap.CollectAt | crates/libs/asset_loader/src/cubumap.rs:59-64 | image `i`'s pixels sit in the upload buffer right after the bytes of the images before it |
| GltfLoader.MaterialFrom | crates/libs/gltf/src/material.rs:11-23 | the base-colour texture is present exactly when the glTF material has one, as that texture's index; the emissive factor gains a zero fourth component |
| GltfLoader.PrimitiveVertices | crates/libs/gltf/src/lib.rs:84-132 | a primitive's vertices are read exactly when its normal, colour and UV arrays cover its positions; one vertex per position with position and normal padded by 0, colour defaulting to one and UVs to zero |
| GltfLoader.MeshPairs | crates/libs/gltf/src/lib.rs:80 | the supported primitives of one mesh, each paired with the mesh, none missed |
| GltfLoader.SupportedPairs | crates/libs/gltf/src/lib.rs:79-80 | every supported primitive of every mesh, in document order, and nothing else |
| GltfLoader.AddPrimitive | crates/libs/gltf/src/lib.rs:81-156 | a primitive already in the redirect map is skipped; otherwise it is added exactly when its attributes cover its positions, appending to the vertex, index and mesh lists and recording its redirect while keeping every earlier one |
| GltfLoader.LoadPairs | crates/libs/gltf/src/lib.rs:79-158 | after the mesh loop every supported primitive has a redirect, the vertex and index lists only grew, and redirects point at recorded meshes |
| GltfLoader.AddPrimitiveLayout | crates/libs/gltf/src/lib.rs:88-155 | adding a primitive keeps the layout: each recorded mesh's offsets are the totals before it and its ranges lie in the shared arrays |
| GltfLoader.LoadPairsLayout | crates/libs/gltf/src/lib.rs:79-158 | the loaded meshes sit back to back in the shared vertex and index arrays, one redirect per mesh |
| GltfLoader.LoadPairsConverts | crates/libs/gltf/src/lib.rs:79-158 | when primitive keys are distinct, each recorded mesh holds exactly its primitive's converted vertices and indices at its offsets |
| GltfLoader.LoadPairsRedirects | crates/libs/gltf/src/lib.rs:81-146 | when primitive keys are distinct, the redirect map sends the key of the `k`-th supported primitive to mesh `k` and nothing else |
| GltfLoader.NewKeyAbsent | crates/libs/gltf/src/lib.rs:83 | a primitive whose key differs from all earlier ones is not yet in the redirect map |
| GltfLoader.AddPrimitiveRedirects | crates/libs/gltf/src/lib.rs:144-146 | a new primitive is redirected to the next mesh slot |
| GltfLoader.AddPrimitiveRecords | crates/libs/gltf/src/lib.rs:120-155 | a new primitive's mesh record holds its converted data, and earlier records stay valid |
| GltfLoader.KeepsOldRecord | crates/libs/gltf/src/lib.rs:120-155 | appending to the lists never invalidates a record already made |
| GltfLoader.WellIndexedKeysDistinct | crates/libs/gltf/src/lib.rs:81 | in a document whose meshes and primitives sit at their own indices, no two supported primitives share a key |
| GltfLoader.PrimitiveNodes | crates/libs/gltf/src/lib.rs:164-174 | a node's mesh yields one output node per supported primitive, and succeeds exactly when each of those has a redirect to a recorded mesh |
| GltfLoader.PrimitiveNodesAt | crates/libs/gltf/src/lib.rs:164-174 | output node `k` carries the node's transform and name and the mesh its `k`-th supported primitive was redirected to |
| GltfLoader.SkipUnsupported | crates/libs/gltf/src/lib.rs:164 | an unsupported primitive yields no node |
| GltfLoader.ConsSupported | crates/libs/gltf/src/lib.rs:164-174 | a supported primitive yields its node ahead of those of the primitives after it |
| GltfLoader.NodesFrom | crates/libs/gltf/src/lib.rs:160-175 | the node loop succeeds exactly when every mesh-bearing node refers to an existing mesh whose supported primitives all have redirects; it yields one node per such primitive |
| GltfLoader.NodesFromBlocks | crates/libs/gltf/src/lib.rs:160-175 | the node loop's output is every node's expansion in node order: the block of glTF node `j` starts after the expansions of the nodes before it and is exactly its primitive nodes, or empty without a mesh |
| GltfLoader.NodesFromCons | crates/libs/gltf/src/lib.rs:160-175 | the output starts with the first node's primitive nodes and continues with the rest of the loop's output |
| GltfLoader.NodesExpand | crates/libs/gltf/src/lib.rs:160-175 | after the mesh loop every node that refers to an existing mesh expands without panicking |
| GltfLoader.PrimitiveNodesCarryData | crates/libs/gltf/src/lib.rs:160-175 | each output node carries its glTF node's transform and name and a mesh holding exactly its primitive's converted vertices and indices |
| GltfLoader.CamOf | crates/libs/gltf/src/lib.rs:178-189 | only perspective cameras are kept, with their field of view and near plane, and far plane 1000 when none is given |
| GltfLoader.CamsOf | crates/libs/gltf/src/lib.rs:178-189 | a node contributes at most one camera, and one exactly when it bears a mesh and a perspective camera |
| GltfLoader.Cameras | crates/libs/gltf/src/lib.rs:159-189 | every camera kept belongs to a node that has both a mesh and that camera, and every perspective camera on a mesh-bearing node is kept |
| GltfLoader.CamerasAppend | crates/libs/gltf/src/lib.rs:159-189 | cameras are collected in node order: those of two runs of nodes are the first run's followed by the second's |
| GltfLoader.ConvertImages | crates/libs/gltf/src/lib.rs:191-194 | image conversion succeeds exactly when each image expands, giving each image's expanded pixels with its size |
| GltfLoader.LoadFile | crates/libs/gltf/src/lib.rs:67-219 | loading succeeds exactly when the mesh loop, the node loop and the image conversion do; the model carries their vertices, indices, nodes and converted images, the default sampler and then every document sampler, and one converted texture per glTF texture |
| GltfLoader.SamplersFrom | crates/libs/gltf/src/lib.rs:196-207 | the default sampler in slot 0, then sampler `k` in slot `k + 1` |
| GltfLoader.TexturesFrom | crates/libs/gltf/src/lib.rs:209 | one converted texture per glTF texture, in order |
| GltfLoader.TextureSamplerSlot | crates/libs/gltf/src/lib.rs:196-209 | a texture's sampler slot is in range; it is the default sampler exactly when the texture names none, and otherwise the converted sampler it names |
| GltfLoader.LoadPairsSucceeds | crates/libs/gltf/src/lib.rs:84-139 | the mesh loop never panics when every supported primitive's attributes cover its positions |
| GltfLoader.LoadFileSucceeds | crates/libs/gltf/src/lib.rs:67-219 | a document with covering attributes, node meshes in range and whole-pixel images always loads |
| GltfLoader.Supported | crates/libs/gltf/src/lib.rs:221-225 | a primitive the viewer loader accepts has indices, positions and normals |
| GltfLoader.SupportedIgnoresMode | crates/libs/gltf/src/lib.rs:221-225 | unlike the asset loader, this check does not look at the primitive mode: changing it never changes the answer |
| VkGlobals.GammaFormat | crates/libs/asset_loader/src/globals.rs:24-31 | linear images are created `R8G8B8A8_UNORM` and sRGB images `R8G8B8A8_SRGB`, and nothing else maps to either |
| VkGlobals.FormatGamma | crates/libs/asset_loader/src/globals.rs:24-31 | exactly the two image formats stand for a gamma |
| VkGlobals.GammaFormatRoundTrip | crates/libs/asset_loader/src/globals.rs:24-31 | the format chosen for a gamma reads back as that gamma, and each of the two formats comes from its gamma |
| VkGlobals.AddressMode | crates/libs/asset_loader/src/globals.rs:352-360 | each wrap mode maps to one of the three Vulkan address modes |
| VkGlobals.WrapOfAddress | crates/libs/asset_loader/src/globals.rs:352-360 | exactly the three address modes stand for a wrap mode |
| VkGlobals.AddressModeRoundTrip | crates/libs/asset_loader/src/globals.rs:352-360 | the wrap-to-address map is one-to-one and onto the three address modes |
| VkGlobals.MagFilterCode | crates/libs/asset_loader/src/globals.rs:363-366 | linear magnification is `LINEAR` and nearest is `NEAREST` |
| VkGlobals.MinFilterCode | crates/libs/asset_loader/src/globals.rs:368-375 | a minification filter is created with the filter it applies within one mip level; the mipmap part is dropped |
| VkGlobals.MapGltfSampler | crates/libs/asset_loader/src/globals.rs:362-382 | the `u` address mode follows the texture's `s` wrap and `v` its `t` wrap; the filters are the magnification filter and the in-level minification filter |
| VkGlobals.SamplerInfoKeeps | crates/libs/asset_loader/src/globals.rs:362-382 | two samplers get the same create info exactly when they agree on magnification, in-level minification and both wraps |
| VkGlobals.DefaultSamplerInfo | crates/libs/asset_loader/src/globals.rs:362-382 | the default sampler is created linear, linear, repeat, repeat |
| VkGlobals.TextureEntryOf | crates/libs/asset_loader/src/globals.rs:334 | a table entry holds the texture's slot, image slot and sampler slot |
| VkGlobals.TextureTable | crates/libs/asset_loader/src/globals.rs:331-335 | one entry per texture of the loader's list, in order |
| VkGlobals.Bound | crates/libs/asset_loader/src/globals.rs:314-335 | an entry binds the view made from the image in its image slot and the sampler in its sampler slot, and fails exactly when either slot is out of range |
| VkGlobals.DefaultTextureEntry | crates/libs/asset_loader/src/globals.rs:331-335 | entry 0 is the default texture, which binds the default image and the default sampler |
| VkGlobals.TextureBindsPreviousImage | crates/libs/asset_loader/src/globals.rs:331-335 | as written, glTF texture `k` sits in entry `k + 1` and, naming glTF image `j`, binds slot `j`: the default image when `j` is 0, otherwise glTF image `j - 1`, while glTF image `j` sits in slot `j + 1` |
| VkGlobals.PreviousImageSlot | crates/libs/asset_loader/src/globals.rs:331-335 | as written, the texture in slot `k + 1` has glTF image index `j` as its image slot and a sampler slot in range |
| VkGlobals.PreviousImages | crates/libs/asset_loader/src/scene_graph.rs:118-130 | slot `j` holds the default image when `j` is 0 and glTF image `j - 1` otherwise, with glTF image `j` in slot `j + 1` |
| VkGlobals.TextureBindsOwnImage | crates/libs/asset_loader/src/globals.rs:331-335 | with the shifted reference, glTF texture `k` sits in entry `k + 1` and binds the decoded glTF image it names, with its size, and the sampler it names, or the default sampler when it names none |
| VkGlobals.OwnImageSlot | crates/libs/asset_loader/src/globals.rs:331-335 | with the shifted reference, the texture in slot `k + 1` has an image slot holding the image it names |
| VkGlobals.OwnSamplerSlot | crates/libs/asset_loader/src/globals.rs:331-335 | the texture in slot `k + 1` has a sampler slot holding the sampler it names, or the default one |
| VkGlobals.TextureRefSelectsOwnEntry | crates/libs/asset_loader/src/material.rs:33-56 | a material's texture reference `1 + index` selects the table entry made from the very glTF texture it refers to, and that entry carries the same slot |
| VkGlobals.BaseColorSelectsOwnEntry | crates/libs/asset_loader/src/material.rs:346 | material `i`'s base-colour reference is its texture's index plus one and selects that texture's own table entry |
| VkGlobals.ViewOf | crates/libs/asset_loader/src/globals.rs:261-307 | a view has the image's size and the format of its gamma |
| VkGlobals.CreateGlobal | crates/libs/asset_loader/src/globals.rs:309-350 | succeeds exactly when the lights can be collected; one view per image and one sampler per sampler in order, the texture table, one record per geometry, one raw material per material, the two light lists and the skins |
| VkGlobals.BuffersNew | crates/libs/asset_loader/src/globals.rs:44-152 | the animation pair exists exactly when the document has skins, and then holds the skins and a second copy of the vertices; the other buffers hold the builder's vertices and indices and the globals' records, materials and lights |
| VkGlobals.GeometryRecordsLocate | crates/libs/asset_loader/src/globals.rs:83-88 | each geometry record the shaders read gives offsets equal to the totals of the geometries before it, inside the uploaded arrays, and that geometry's material id |
| VkGlobals.PreviousTextureSlots | crates/libs/asset_loader/src/globals.rs:331-335 | as written, glTF texture `k` sits in slot `k + 1`, refers to its glTF image index and has a sampler slot in range |
| ExampleModels.GuiNew | crates/examples/rt_reflections/src/main.rs:168-182 | the reflections demo starts with a white light along (-2, -1, -2) and the default ten bounces, a value that fits the u32 field |
| ExampleModels.ShownDepth | crates/examples/rt_reflections/src/main.rs:190 | the u32 depth shown in the i32 input box is the same number when it fits in i32 and a negative number otherwise |
| ExampleModels.EditDepth | crates/examples/rt_reflections/src/main.rs:191-192 | whatever the user types, the stored depth is at least one; a positive entry is kept as typed and anything below one becomes one |
| ExampleModels.UneditedDepth | crates/examples/rt_reflections/src/main.rs:190-192 | leaving the box alone keeps a depth between 1 and the i32 maximum and resets any other to one, so the default depth survives the editor |
| ExampleModels.LightUboOf | crates/examples/rt_reflections/src/main.rs:94-105 | the uniform's light direction and colour carry the GUI's three components unchanged, padded with a zero fourth component |
| ExampleModels.LightUboInjective | crates/examples/rt_reflections/src/main.rs:94-113 | two lights give the same uniform words exactly when they are the same light: the upload loses nothing |
| ExampleModels.TransformBuffer | crates/examples/rt_reflections/src/main.rs:291-310 | the transform buffer holds one twelve-value row-major 3x4 matrix per node, in node order |
| ExampleModels.TransformBufferRows | crates/examples/rt_reflections/src/main.rs:291-310 | entry j is the instance matrix of node j's transform, and for an affine transform reading it back gives the node's transform again |
| ExampleModels.NodeRange | crates/examples/rt_reflections/src/main.rs:490-523 | a node's build range starts at the mesh's first vertex, covers index_count / 3 triangles, starts at the mesh's first index in bytes and selects the node's own transform; it is refused when the byte offset overflows u32 |
| ExampleModels.NodeRanges | crates/examples/rt_reflections/src/main.rs:488-527 | the ranges exist exactly when every node's byte offset fits in u32, one per node in node order, each the range of that node |
| ExampleModels.RangeReadsOwnMesh | crates/examples/rt_reflections/src/main.rs:490-523 | a range's primitive offset is a whole number of indices naming the mesh's first index, its triangles stay inside the index buffer, and without u32 wrap-around its transform offset selects the node's own matrix |
| ExampleModels.TextureOfSlot | crates/examples/rt_reflections/src/main.rs:497-500 | the shader's texture slot names a texture exactly when it is not negative, and then that texture |
| ExampleModels.ReflectionsGeometryOf | crates/examples/rt_reflections/src/main.rs:494-503 | a node's geometry record copies its transform, base colour, metallic factor and mesh offsets, and stores its base colour texture as an i32 or -1 when there is none |
| ExampleModels.GeometryTextureRoundTrip | crates/examples/rt_reflections/src/main.rs:497-500 | for texture indices that fit in i32, reading the slot back gives the material's base colour texture, absence included |
| ExampleModels.CornellGeometryOf | crates/examples/cornell_box/src/acceleration_structure.rs:55-68 | the Cornell box record copies the node's transform, base colour, emissive colour, metallic and roughness factors and mesh offsets, with a zero padding word |
| ExampleModels.ReflectionsGeometries | crates/examples/rt_reflections/src/main.rs:488-504 | one reflections geometry record per node |
| ExampleModels.CornellGeometries | crates/examples/cornell_box/src/acceleration_structure.rs:50-68 | one Cornell box geometry record per node |
| ExampleModels.GeometriesMatchRanges | crates/examples/rt_reflections/src/main.rs:494-521 | record j of the geometry buffer and build range j describe the same triangles: the same first vertex and first index, and the transform the range selects is the record's transform |
| ExampleModels.SingleInstance | crates/examples/rt_reflections/src/main.rs:546-565 | the one top-level instance uses the identity transform, custom index 0, the full visibility mask, record offset 0 and the cull-disable flag |
| ExampleModels.ExampleTopLevel | crates/examples/rt_reflections/src/main.rs:546-595 | the top level holds exactly that single instance, and its range counts one primitive |
| ExampleModels.TopLevelIsIdentity | crates/examples/rt_reflections/src/main.rs:548-552 | the instance's 3x4 matrix reads back as the identity transform |
| ExampleModels.WithDummy | crates/examples/rt_reflections/src/main.rs:374-430 | each fallback list is never empty: a non-empty list is kept unchanged and an empty one becomes the single dummy |
| ExampleModels.ExampleViews | crates/examples/rt_reflections/src/main.rs:319-398 | one sRGB view per loaded image with that image's size, or a single 1x1 dummy view when the model has no images |
| ExampleModels.ExampleSamplerInfo | crates/examples/rt_reflections/src/main.rs:441-459 | a sampler keeps its magnification filter, reduces its minification filter to linear or nearest and leaves addressing at the default repeat |
| ExampleModels.ExampleSamplers | crates/examples/rt_reflections/src/main.rs:402-416 | one sampler per loaded sampler, mapped in order, or a single default sampler when there are none |
| ExampleModels.ExampleSamplerAgrees | crates/examples/rt_reflections/src/main.rs:441-459 | the demo's sampler equals the viewer's mapping of the same glTF sampler exactly when both wrap modes are repeat |
| ExampleModels.LoadedSamplersNeverDummy | crates/examples/rt_reflections/src/main.rs:402-416 | after a successful load the sampler list begins with the loader's linear default, so the dummy sampler is never needed |
| ExampleModels.ReflectionsTextures | crates/examples/rt_reflections/src/main.rs:418-427 | one (image, sampler) pair per texture, in order, or the single pair (0, 0) when there are none |
| ExampleModels.CornellTextures | crates/examples/cornell_box/src/model.rs:168-177 | one (texture, image, sampler) triple per texture, its own position first, or the single triple (0, 0, 0) when there are none |
| ExampleModels.TexturesBindLoadedData | crates/examples/rt_reflections/src/main.rs:418-427 | texture k's entry names its source image, whose view has that image's size, and a sampler that is the mapping of its own glTF sampler or of the default; the Cornell box triple agrees |
| ExampleModels.DummyTextureBinds | crates/examples/rt_reflections/src/main.rs:374-430 | with no textures the single dummy entry names view 0 and sampler 0, and both lists always have an element 0 |
| ExampleModels.WriteAt | crates/examples/rt_reflections/src/main.rs:773-783 | one descriptor write sets exactly its array element and leaves every other element as it was |
| ExampleModels.TextureWritesAsWritten | crates/examples/rt_reflections/src/main.rs:770-785 | the texture loop writes every texture to array element 0 of binding 6 and leaves the array's length alone |
| ExampleModels.AsWrittenKeepsLast | crates/examples/rt_reflections/src/main.rs:770-785 | after the loop element 0 holds the last texture's view and sampler and every other element is untouched |
| ExampleModels.AsWrittenLosesFirstTexture | crates/examples/rt_reflections/src/main.rs:770-785 | with two textures the first one is bound nowhere and element 1 stays unset |
| ExampleModels.TextureWrites | crates/examples/rt_reflections/src/main.rs:770-785 | writing texture k to array element k leaves the array's length alone |
| ExampleModels.TextureWritesBindEach | crates/examples/rt_reflections/src/main.rs:770-785 | with the element index set per texture, element k holds texture k's view and sampler and elements past the last texture are untouched |
| ExampleModels.PoolTotalStep | crates/examples/rt_reflections/src/main.rs:711-734 | the descriptors a pool provides of one type are the first entry's count for that type plus those of the rest |
| ExampleModels.ReflectionsPool | crates/examples/rt_reflections/src/main.rs:709-734 | the pool is refused when one more set than the swapchain images overflows u32, and otherwise has room for one static set and one set per swapchain image |
| ExampleModels.ReflectionsPoolFits | crates/examples/rt_reflections/src/main.rs:709-737 | the pool provides one acceleration structure, one uniform buffer, three storage buffers, one storage image per swapchain image and one sampled image per view |
| ExampleModels.CornellPool | crates/examples/cornell_box/src/desc_sets.rs:27-57 | the Cornell box pool is refused when one more set than the swapchain images overflows u32, and otherwise has room for one static set and one set per swapchain image |
| ExampleModels.CornellPoolFits | crates/examples/cornell_box/src/desc_sets.rs:27-57 | the Cornell box pool provides one storage image per swapchain image plus one per accumulation image, which is twice the swapchain images exactly when the two counts agree, and one sampled image per view |
| AppStats.NextMode | crates/libs/app/src/lib.rs:119-133 | the statistics overlay always switches to a different mode, the one after it in the order none, basic, full, wrapping around |
| AppStats.ToggleStats | crates/libs/app/src/lib.rs:667-669 | the toggle key moves the overlay to the next mode in the order none, basic, full, wrapping around: a different mode, from which two more toggles come back |
| AppStats.ModeCycle | crates/libs/app/src/lib.rs:126-132 | three toggles bring the overlay back to where it was, after passing through all three modes |
| AppStats.NewInFlightFrames | crates/libs/app/src/lib.rs:731-753 | a new ring of in-flight frames has the requested number of frames and starts at frame 0 |
| AppStats.NextFrame | crates/libs/app/src/lib.rs:755-757 | moving on keeps the ring size and steps to the following frame, wrapping to 0 after the last; an empty ring is an error, the remainder by zero |
| AppStats.Advance | crates/libs/app/src/lib.rs:755-757 | any number of steps keeps the ring size and stays inside the ring |
| AppStats.AdvanceIsModular | crates/libs/app/src/lib.rs:755-757 | after n steps the current frame is the starting frame plus n, modulo the number of frames |
| AppStats.RingReturnsToStart | crates/libs/app/src/lib.rs:755-757 | stepping once per frame in the ring comes back to the starting frame |
| AppStats.NewQueue | crates/libs/app/src/lib.rs:859-861 | a new log is empty and remembers its maximum size |
| AppStats.Push | crates/libs/app/src/lib.rs:863-868 | pushing appends the value; a log that is full first drops its oldest entry, so it never grows past its maximum; a log of size zero fails on the removal |
| AppStats.PushAll | crates/libs/app/src/lib.rs:863-868 | a run of pushes keeps the log within its maximum size |
| AppStats.PushAllKeepsNewest | crates/libs/app/src/lib.rs:863-868 | after any run of pushes the log holds exactly the newest entries, up to its maximum size, in arrival order |
| AppStats.SaturatingSub | crates/libs/app/src/lib.rs:824 | the CPU time is the frame time less the GPU time, and zero when the GPU time is longer |
| AppStats.DefaultFrameStats | crates/libs/app/src/lib.rs:801-816 | fresh statistics have zero counters, a zero timer and three empty logs of 1000 entries |
| AppStats.Tick | crates/libs/app/src/lib.rs:822-843 | a tick fails exactly when a u32 frame counter would overflow, and otherwise keeps the logs within 1000 entries and the counters within u32 |
| AppStats.TickEffect | crates/libs/app/src/lib.rs:822-843 | a tick logs the previous frame, CPU and GPU times in milliseconds, counts the frame, and once more than a second has accumulated publishes the frame count as the fps and carries the excess of the timer over |
| AppStats.SetFrameTime | crates/libs/app/src/lib.rs:845-848 | the last frame time becomes the previous one, the new one is stored and nothing else changes |
| AppStats.SetGpuTime | crates/libs/app/src/lib.rs:850-852 | only the GPU time changes |
| AppStats.GpuFrameTime | crates/libs/app/src/lib.rs:775-780 | the GPU time is the distance between the two timestamps, and zero when the end stamp is not after the start |
| Context.NewBuilder | crates/libs/vulkan/src/context.rs:44-54 | a new builder asks for Vulkan 1.2, no application name, no extensions, the default device features and no ray tracing |
| Context.SetVulkanVersion | crates/libs/vulkan/src/context.rs:56-61 | the setter replaces the version and leaves every other setting alone |
| Context.SetAppName | crates/libs/vulkan/src/context.rs:63-65 | the setter replaces the application name and leaves every other setting alone |
| Context.SetRequiredExtensions | crates/libs/vulkan/src/context.rs:67-72 | the setter replaces the extension list and leaves every other setting alone |
| Context.SetRequiredDeviceFeatures | crates/libs/vulkan/src/context.rs:74-79 | the setter replaces the required features and leaves every other setting alone |
| Context.SetWithRaytracingContext | crates/libs/vulkan/src/context.rs:81-86 | the setter replaces the ray tracing switch and leaves every other setting alone |
| Context.SettersCommute | crates/libs/vulkan/src/context.rs:56-86 | setters of different fields can be called in either order, and a second call of the same setter overrides the first |
| Context.FirstGraphics | crates/libs/vulkan/src/context.rs:196-203 | the graphics family is the first family with queues that supports graphics, compute and timestamp queries, and there is none exactly when no family qualifies |
| Context.FirstPresent | crates/libs/vulkan/src/context.rs:196-207 | the present family is the first family with queues that can present, and there is none exactly when no family qualifies |
| Context.ScanFindsFirst | crates/libs/vulkan/src/context.rs:196-212 | the scan of one device keeps a family already found from an earlier device and otherwise takes that device's first suitable family, for graphics and for present separately |
| Context.SuitableDeviceIsFound | crates/libs/vulkan/src/context.rs:192-226 | whenever some device is suitable the selection succeeds |
| Context.FindFromSound | crates/libs/vulkan/src/context.rs:192-228 | the selection fails only with "Could not find a suitable device", and a device it returns is from the list, meets the extension, surface and feature requirements, and comes with a graphics family and a present family of the right kinds |
| Context.FindFromComplete | crates/libs/vulkan/src/context.rs:192-226 | a suitable device at or after the start of the search is enough for the search to succeed |
| Context.CarryOverSelectsForeignFamily | crates/libs/vulkan/src/context.rs:189-228 | because the found families survive from one device to the next, a device with only a present family, after a device with only a graphics family, is selected together with the first device's graphics family |
| Context.FirstSuitableCorrect | crates/libs/vulkan/src/context.rs:192-228 | with the families reset per device, the selection fails exactly when no device is suitable, and otherwise returns the first suitable device with its own first graphics and present families |
| Context.FixedFamiliesBelongToDevice | crates/libs/vulkan/src/context.rs:192-228 | the corrected selection's graphics and present families belong to the selected device and have the required capabilities |
| Context.ContextNew | crates/libs/vulkan/src/context.rs:94-128 | context creation over the corrected selection `Context.FirstSuitableCorrect` (the Findings row for context.rs:189-228; as written, the device pair [A, B] of `Context.CarryOverSelectsForeignFamily` breaks the success condition below): requests one queue per distinct family, graphics first, on a device that meets the requirements and owns both families, and keeps the ray tracing switch; with a cached device list it succeeds exactly when some cached device is suitable, and with an empty cache exactly when the driver reports devices and one of them is suitable |
| Context.EnumeratedSuitable | crates/libs/vulkan/src/instance.rs:81-99 | with an empty cache, the listed devices hold a suitable one exactly when the driver reported one |
| Context.SuitableAmongRanked | crates/libs/vulkan/src/instance.rs:81-99 | ranking the devices does not change whether a suitable one exists |
| Context.FindFrom | crates/libs/vulkan/src/context.rs:192-228 | the search with the carried-over family slots fails only with "Could not find a suitable device", and a device it returns comes from the list at or after the start and meets the extension, surface and feature requirements |
| Context.SelectSuitablePhysicalDevice | crates/libs/vulkan/src/context.rs:182-228 | the selection as written: it fails only with "Could not find a suitable device"; a chosen device is in the list and meets the requirements, and the two families returned are a graphics family and a present family; some suitable device is enough for success. It is no if-and-only-if, and the families may belong to an earlier, rejected device (the as-written half of the Findings row, shown by `Context.CarryOverSelectsForeignFamily`) |
| Context.SelectSuitablePhysicalDeviceFixed | crates/libs/vulkan/src/context.rs:182-228 | the corrected selection fails, with the same message, exactly when no device is suitable, and otherwise returns the first suitable device in list order with its own first graphics family and its own first present family |
| Controls.KeyOf | crates/libs/app/src/camera.rs:9-14 | every movement flag has its own key, and only mouse look has none |
| Controls.DefaultControls | crates/libs/app/src/camera.rs:128-141 | at start no movement flag is set, the camera is not looking around and the cursor delta is zero |
| Controls.Reset | crates/libs/app/src/camera.rs:144-149 | a reset clears the cursor delta and keeps every flag |
| Controls.KeyEventSetsBoundFlag | crates/libs/app/src/camera.rs:157-181 | a key event sets the flag bound to that key to whether the key is pressed, leaves every other flag and the cursor delta alone |
| Controls.KeyEventFlag | crates/libs/app/src/camera.rs:157-181 | flag by flag: after a key event a flag reads the key state when the key is its own, and its previous value otherwise |
| Controls.UnboundKeyIgnored | crates/libs/app/src/camera.rs:157-181 | a key that no flag is bound to changes nothing |
| Controls.MouseEventSetsLook | crates/libs/app/src/camera.rs:183-187 | a mouse button event sets mouse look to whether the right button is pressed, and changes nothing for any other button |
| Controls.MotionAccumulates | crates/libs/app/src/camera.rs:191-198 | mouse motion adds up in the cursor delta across events and leaves every flag alone |
| Controls.HandleEvent | crates/libs/app/src/camera.rs:151-203 | an event that is not a window key or mouse input or a mouse motion leaves the controls unchanged; only mouse motion touches the cursor delta; a flag changes only through a key event bound to it (never the look flag), or through a right-button mouse input (only the look flag), and then becomes whether the key or button is pressed |
| Device.CompatibleIffFieldwise | crates/libs/vulkan/src/device.rs:116-125 | a device offers what is required exactly when every feature that is required is offered |
| Device.CompatibleReflexive | crates/libs/vulkan/src/device.rs:116-125 | a feature set always satisfies itself |
| Device.DefaultRequirementsAlwaysMet | crates/libs/vulkan/src/device.rs:106-125 | every device meets the default requirements, and a device offering nothing meets only them |
| Device.CompatibleTransitive | crates/libs/vulkan/src/device.rs:116-125 | a device that offers what a second one offers meets every requirement the second one meets |
| Device.Dedup | crates/libs/vulkan/src/device.rs:27-28 | removing consecutive repeats keeps the first index and the same set of indices, never lengthens the list and leaves no index twice in a row |
| Device.DedupKeepsDistinctNeighbours | crates/libs/vulkan/src/device.rs:27-28 | a list without consecutive repeats is left as it is |
| Device.DedupIdempotent | crates/libs/vulkan/src/device.rs:27-28 | removing consecutive repeats twice is the same as once |
| Device.DedupKeepsRunHeads | crates/libs/vulkan/src/device.rs:27-28 | removing consecutive repeats keeps exactly the elements that start a run, the first element and each one that differs from the one before it, in their order |
| Device.FamilyIndices | crates/libs/vulkan/src/device.rs:27 | the index list holds each family's index, in family order |
| Device.QueueCreateIndices | crates/libs/vulkan/src/device.rs:26-38 | the queue list is `dedup` of the family indices in family order: it equals the run-heads reference `Device.RunHeadsFrom`, keeping index i exactly when it differs from index i - 1, so order is fixed and non-adjacent repeats stay; it holds each requested index and no index twice in a row |
| Device.GraphicsPresentQueues | crates/libs/vulkan/src/device.rs:26-38 | with a graphics and a present family, one queue is requested when they are the same family and two, graphics first, when they differ |
| Instance.Rank | crates/libs/vulkan/src/instance.rs:93-97 | discrete GPUs rank first, integrated GPUs second and every other kind of device last |
| Instance.RankDevices | crates/libs/vulkan/src/instance.rs:93-97 | the device list is reordered by rank without losing or adding devices, and devices of the same rank keep the driver's order |
| Instance.EnumeratePhysicalDevices | crates/libs/vulkan/src/instance.rs:81-103 | a non-empty cached list is returned as it is; otherwise the driver's list, or its error, is returned sorted by rank and stably |
| Instance.CachedListIsStable | crates/libs/vulkan/src/instance.rs:81-103 | once a non-empty list is cached, later calls return it whatever the driver would report |
| PhysicalDevices.SupportsExtensions | crates/libs/vulkan/src/physical_device.rs:115-122 | a device supports a list of extensions exactly when it supports each one |
| PhysicalDevices.EmptyExtensionsSupported | crates/libs/vulkan/src/physical_device.rs:115-122 | every device supports an empty extension list |
| PhysicalDevices.ExtensionOrderIrrelevant | crates/libs/vulkan/src/physical_device.rs:115-122 | order and repetition in the extension list do not matter |
| PhysicalDevices.ExtensionSubsetSupported | crates/libs/vulkan/src/physical_device.rs:115-122 | a device that supports a list supports every part of it |
| Queue.NewQueueFamily | crates/libs/vulkan/src/queue.rs:16-26 | a family keeps the index and properties it is given, and can present exactly when the surface said so |
| Queue.QueueFlagBits | crates/libs/vulkan/src/queue.rs:28-34 | graphics support is bit 0 of the queue flags and compute support bit 1 |
| Queue.FamiliesFromProperties | crates/libs/vulkan/src/physical_device.rs:39-52 | the families are numbered by their position in the driver's list and each carries the surface's answer for its own index |
| Device.DeviceFeatures.IsCompatibleWith | crates/libs/vulkan/src/device.rs:117-124 | a feature set satisfies itself, every set satisfies the empty requirement, and the full set satisfies every requirement |
| Queue.QueueFamily.SupportsCompute | crates/libs/vulkan/src/queue.rs:28-30 | compute support is exactly bit 1 of the queue flags |
| Queue.QueueFamily.SupportsGraphics | crates/libs/vulkan/src/queue.rs:32-34 | graphics support is exactly bit 0 of the queue flags |
| Queue.QueueFamily.SupportsPresent | crates/libs/vulkan/src/queue.rs:36-38 | a family that can present is the same family with its present flag set |
| Queue.QueueFamily.HasQueues | crates/libs/vulkan/src/queue.rs:40-42 | a family without queues reports a queue count of zero |
| Queue.QueueFamily.SupportsTimestampQueries | crates/libs/vulkan/src/queue.rs:44-46 | a family without timestamp support reports zero valid timestamp bits |
| RayTracingPipeline.GroupedIndices | crates/libs/vulkan/src/ray_tracing/pipeline.rs:99-129 | the shaders that get a group of their own are listed in increasing position, and none of them is the any-hit shader |
| RayTracingPipeline.PipelineNew | crates/libs/vulkan/src/ray_tracing/pipeline.rs:48-141 | pipeline creation succeeds exactly when there is at most one any-hit and one shadow any-hit shader and none of the `u32` counts overflows; it then keeps every shader as a stage and makes one group per shader except the any-hit one. The group count is the shader count cast to `u32`, less one for an any-hit shader, and equals the number of groups whenever the shader count fits in `u32`. Ray generation, miss (shadow miss included) and hit (shadow any-hit included) groups add up to the number of groups, and the recursion depth asked for is 2 |
| RayTracingPipeline.ScanAnyHitsSpec | crates/libs/vulkan/src/ray_tracing/pipeline.rs:61-77 | the any-hit scan fails exactly when one of the two any-hit kinds occurs twice, and finds an any-hit shader exactly when there is one |
| RayTracingPipeline.ScanAnyHitIndex | crates/libs/vulkan/src/ray_tracing/pipeline.rs:61-77 | the any-hit position the scan finds is that of an any-hit shader |
| RayTracingPipeline.CountPartition | crates/libs/vulkan/src/ray_tracing/pipeline.rs:24-31 | every shader belongs to exactly one of the six kinds, so the per-kind counts add up to the number of shaders |
| RayTracingPipeline.GroupedIndicesCount | crates/libs/vulkan/src/ray_tracing/pipeline.rs:80 | the number of groups is the number of shaders less the any-hit ones |
| RayTracingPipeline.GroupedIndicesComplete | crates/libs/vulkan/src/ray_tracing/pipeline.rs:99-129 | every shader other than the any-hit one gets a group |
| RayTracingPipeline.GroupRecordsCorrect | crates/libs/vulkan/src/ray_tracing/pipeline.rs:99-129 | group k describes the k-th shader that is not any-hit: ray generation and miss shaders as general groups, a closest-hit shader as a triangle hit group paired with the any-hit shader if there is one, the shadow any-hit shader as a triangle hit group of its own, with every unused slot marked unused |
| RayTracingPipeline.ScanAnyHits | crates/libs/vulkan/src/ray_tracing/pipeline.rs:63-78 | the scan never reports a count overflow, keeps an index already found, and any index it finds lies in the scanned range and points at a shader of that kind |
| RayTracingPipeline.GroupFor | crates/libs/vulkan/src/ray_tracing/pipeline.rs:100-129 | a ray generation or miss shader gets a general group holding its index as `u32`; a closest-hit shader gets a triangle hit group with its index and the any-hit index, if any; a shadow any-hit shader gets a triangle hit group with its index as any-hit; the intersection slot is always unused |
| RayTracingPipeline.Groups | crates/libs/vulkan/src/ray_tracing/pipeline.rs:100-129 | one group per shader except the any-hit shaders, each with an unused intersection slot |
| SampleAccounting.FrameSamples | crates/examples/gltf_viewer/src/main.rs:134-138 | a frame never traces more samples than requested, never pushes the total past the maximum, traces none once the maximum is reached, and otherwise traces the request or exactly what is left |
| SampleAccounting.Update | crates/examples/gltf_viewer/src/main.rs:134-143 | the frame's sample count is the capped request; the running total starts over when accumulation is off or the heat map is shown, and otherwise grows by the frame's samples |
| SampleAccounting.UpdateBounded | crates/examples/gltf_viewer/src/main.rs:134-143 | a total within the maximum stays within it, and an accumulating total at or past the maximum stays where it is |
| SampleAccounting.UpdateFitsU32 | crates/examples/gltf_viewer/src/main.rs:134-143 | with a u32 maximum and total, the new total fits in u32, so the addition cannot overflow |
| SampleAccounting.Fresh | crates/examples/gltf_viewer/src/main.rs:104-110 | a new renderer starts with no samples and no remembered camera or GUI state |
| SampleAccounting.FirstStateChangeRecords | crates/examples/gltf_viewer/src/main.rs:228-234 | the first state check only records the camera and the GUI state and rebuilds nothing |
| SampleAccounting.StateChangeEffect | crates/examples/gltf_viewer/src/main.rs:228-248 | the scene is rebuilt exactly when the GUI state changed along with its scene; any camera or GUI change restarts accumulation, no change leaves everything as it was, and the new GUI state is remembered |
| SampleAccounting.StateChange | crates/examples/gltf_viewer/src/main.rs:228-248 | after a check the tracker holds the current GUI state; the sample total is kept or restarts at zero; a rebuild happens only when a GUI state was recorded whose scene differs from the new one, and then the total is zero and the camera baseline cleared; without a rebuild the current camera is recorded |
| ShaderBindingTable.Lift | crates/libs/vulkan/src/ray_tracing/shader_binding_table.rs:27 | a missing value becomes the given error and a present one is passed on |
| ShaderBindingTable.AlignU32 | crates/libs/vulkan/src/utils/mod.rs:11-13 | the u32 rounding succeeds and agrees with the modelled alignment exactly when that one does |
| ShaderBindingTable.RegionSizeOf | crates/libs/vulkan/src/ray_tracing/shader_binding_table.rs:46-56 | a region's size is its handle bytes rounded up to the group alignment, and fails exactly when the product or the rounding leaves u32 |
| ShaderBindingTable.RegionPad | crates/libs/vulkan/src/ray_tracing/shader_binding_table.rs:69-72 | the group padding is what the rounding added to the region's handle bytes |
| ShaderBindingTable.ComputeLayout | crates/libs/vulkan/src/ray_tracing/shader_binding_table.rs:22-59 | a layout keeps the device's handle size and alignment, has the three group counts in the order ray generation, miss, hit, reads group_count handles that fit u32 bytes, and sizes each region as the rounding prescribes, with a u32 total |
| ShaderBindingTable.LayoutSums | crates/libs/vulkan/src/ray_tracing/shader_binding_table.rs:59 | the buffer size is the sum of the three region sizes |
| ShaderBindingTable.LayoutWithPowerOfTwoAlignments | crates/libs/vulkan/src/ray_tracing/shader_binding_table.rs:22-71 | with power-of-two alignments the aligned handle size and every region size are the least multiples above their contents, the pads are smaller than the alignments, and every region starts on a group-aligned offset |
| ShaderBindingTable.RegionRoundsUp | crates/libs/vulkan/src/ray_tracing/shader_binding_table.rs:46-56 | a region's size is the least multiple of a power-of-two group alignment above its handle bytes, with a pad below the alignment |
| ShaderBindingTable.RegionOffsetsAligned | crates/libs/vulkan/src/ray_tracing/shader_binding_table.rs:59-71 | when every region size is a multiple of the alignment, so is every region's starting offset |
| ShaderBindingTable.RegionPadOnlyOverflows | crates/libs/vulkan/src/ray_tracing/shader_binding_table.rs:46-71 | a region never shrinks its handle bytes, and with a power-of-two alignment its size and pad fail only by u32 overflow |
| ShaderBindingTable.LayoutFailsOnlyByOverflow | crates/libs/vulkan/src/ray_tracing/shader_binding_table.rs:22-71 | with power-of-two alignments the layout fails only by u32 overflow |
| ShaderBindingTable.Zeros | crates/libs/vulkan/src/ray_tracing/shader_binding_table.rs:82-91 | padding is that many zero bytes |
| ShaderBindingTable.CopySlot | crates/libs/vulkan/src/ray_tracing/shader_binding_table.rs:75-86 | one slot appends a handle's bytes followed by its padding zeros |
| ShaderBindingTable.CopyRegion | crates/libs/vulkan/src/ray_tracing/shader_binding_table.rs:68-91 | one region appends each of its handles in its padded slot, then the group padding |
| ShaderBindingTable.BuildSbtData | crates/libs/vulkan/src/ray_tracing/shader_binding_table.rs:60-91 | the table is built exactly when the driver returned enough handle bytes, and then holds the three regions one after the other |
| ShaderBindingTable.GroupBytesLength | crates/libs/vulkan/src/ray_tracing/shader_binding_table.rs:73-86 | a region's slots take count times the aligned handle size |
| ShaderBindingTable.RegionsUpToLength | crates/libs/vulkan/src/ray_tracing/shader_binding_table.rs:60-91 | the regions before group g fill exactly the bytes up to g's starting offset |
| ShaderBindingTable.SbtBytesLength | crates/libs/vulkan/src/ray_tracing/shader_binding_table.rs:59-91 | the table's length is the buffer size the regions add up to |
| ShaderBindingTable.HandlesBeforeMono | crates/libs/vulkan/src/ray_tracing/shader_binding_table.rs:73-80 | later groups read their handles further into the handle data |
| ShaderBindingTable.RegionHandlesFit | crates/libs/vulkan/src/ray_tracing/shader_binding_table.rs:73-80 | a group's handles end where the next group's begin and within the handle data |
| ShaderBindingTable.SlotInRegion | crates/libs/vulkan/src/ray_tracing/shader_binding_table.rs:73-86 | within a region, byte b of slot k is byte b of that group's k-th handle, or zero in the handle padding |
| ShaderBindingTable.RegionInTable | crates/libs/vulkan/src/ray_tracing/shader_binding_table.rs:60-91 | a region's bytes appear in the table at that region's starting offset |
| ShaderBindingTable.HandleInTable | crates/libs/vulkan/src/ray_tracing/shader_binding_table.rs:60-91 | in the table, byte b of slot k of group g is byte b of the handle of the group's k-th shader in handle order, or zero in the handle padding |
| ShaderBindingTable.RegionPaddingIsZero | crates/libs/vulkan/src/ray_tracing/shader_binding_table.rs:88-91 | the group padding after a region's slots is zero |
| ShaderBindingTable.SbtRegions | crates/libs/vulkan/src/ray_tracing/shader_binding_table.rs:106-122 | the table is described by three strided regions |
| ShaderBindingTable.RegionsAddressHandles | crates/libs/vulkan/src/ray_tracing/shader_binding_table.rs:106-122 | the regions start at the buffer address plus each region's offset, have the region sizes and end with the buffer; reading at a region's address plus k strides plus b gives byte b of the group's k-th handle, the ray generation region holding its one handle |
| Swapchain.FindFormat | crates/libs/vulkan/src/swapchain.rs:45-52 | the search finds the preferred format exactly when the surface offers it |
| Swapchain.ChooseSurfaceFormat | crates/libs/vulkan/src/swapchain.rs:32-54 | choosing a format fails exactly when the surface offers none, and otherwise picks an offered format or the preferred BGRA sRGB one |
| Swapchain.SurfaceFormatChoice | crates/libs/vulkan/src/swapchain.rs:39-53 | the preferred format is chosen exactly when the surface offers it or offers only one undefined format; otherwise the first offered format is chosen |
| Swapchain.ContainsMode | crates/libs/vulkan/src/swapchain.rs:67 | the mode test is membership in the offered list |
| Swapchain.ChoosePresentMode | crates/libs/vulkan/src/swapchain.rs:58-73 | the present mode is immediate exactly when the surface offers it, and FIFO otherwise |
| Swapchain.Clamp | crates/libs/vulkan/src/swapchain.rs:92-95 | a requested size is kept when it lies within the limits and is moved to the nearest limit otherwise; with crossed limits the minimum wins |
| Swapchain.ChooseExtent | crates/libs/vulkan/src/swapchain.rs:86-98 | the surface's current extent is used unless its width is the u32 maximum, in which case the window size is clamped to the surface's limits in each dimension |
| Swapchain.ExtentWithinLimits | crates/libs/vulkan/src/swapchain.rs:86-98 | when the surface leaves the extent open, the chosen extent lies within its limits and keeps each window dimension that already does |
| Swapchain.ChooseSharingMode | crates/libs/vulkan/src/swapchain.rs:119-128 | images are shared concurrently between the graphics and present families, listed in that order, exactly when the two differ, and exclusively otherwise |
| Swapchain.NewCreateInfo | crates/libs/vulkan/src/swapchain.rs:26-130 | creation fails exactly when the surface offers no format or the minimum image count is the u32 maximum, and otherwise asks for one image more than the minimum with the chosen format, extent, present mode and sharing |
| Swapchain.NewSwapchain | crates/libs/vulkan/src/swapchain.rs:26-170 | the new swapchain records the chosen format, colour space, present mode and extent, and has one view per image |
| Swapchain.ResizeCreateInfo | crates/libs/vulkan/src/swapchain.rs:173-232 | a resize keeps the format, colour space and present mode of the swapchain, chooses a new extent and sharing, and asks for just the minimum image count |
| Swapchain.Resize | crates/libs/vulkan/src/swapchain.rs:173-265 | a resize changes only the handle, extent, images and views, with one view per image |
| Swapchain.ResizeTwiceKeepsChoices | crates/libs/vulkan/src/swapchain.rs:173-265 | however often the window is resized, the format, colour space and present mode stay those chosen at creation and the extent is the last one chosen |
| Transforms.Mul | crates/libs/asset_loader/src/scene_graph.rs:183-184 | a composed transform applies the parent's factors before the child's, none lost or reordered |
| Transforms.MonoidLaws | crates/libs/asset_loader/src/scene_graph.rs:176-184 | the identity is neutral on both sides and composition is associative, so a node's world transform does not depend on how the path to it is grouped |
| Transforms.EvalMulOf | crates/libs/asset_loader/src/scene_graph.rs:183-184 | composing with a local matrix multiplies the evaluated world matrix on the right by it |
| Transforms.InstanceMatrix | crates/libs/asset_loader/src/acceleration_structures.rs:115-120 | an instance matrix has twelve entries |
| Transforms.InstanceMatrixIsRowMajor | crates/libs/asset_loader/src/acceleration_structures.rs:115-120 | entry 4r + c of the instance matrix is row r, column c of the world transform: its top three rows in row-major order |
| Transforms.RelayoutColumns | crates/examples/rt_reflections/src/main.rs:291-308 | entry i of the hand-written relayout is row i / 4 of column i % 4 |
| Transforms.ColumnArrays | crates/libs/asset_loader/src/scene_graph.rs:183 | a matrix as four column arrays of four numbers each |
| Transforms.RelayoutsAgree | crates/examples/rt_reflections/src/main.rs:291-308 | the examples' hand-written relayout and the loader's transpose-and-truncate produce the same twelve numbers |
| Transforms.FromInstanceMatrix | crates/libs/asset_loader/src/acceleration_structures.rs:115-120 | the matrix an instance matrix stands for is affine |
| Transforms.InstanceMatrixRoundTrip | crates/libs/asset_loader/src/acceleration_structures.rs:115-120 | the relayout loses exactly the bottom row: reading back recovers a transform exactly when it is affine, and every twelve numbers are read back unchanged |
| Transforms.IdentityInstanceMatrix | crates/examples/rt_reflections/src/main.rs:548-552 | the hard-coded top-level matrix is the identity's instance matrix |
| Vectors.Pad | crates/libs/gltf/src/material.rs:19 | extending a 3-vector by a fourth component keeps the three and adds the given one |
| Vectors.PadDrop | crates/libs/gltf/src/material.rs:19 | dropping the fourth component and padding it back gives the same vector |
| Version.NewVersion | crates/libs/vulkan/src/lib.rs:51-58 | a new version keeps the four numbers it is given |
| Version.FromMajor | crates/libs/vulkan/src/lib.rs:60-65 | a major-only version is all zeros but the major number |
| Version.FromMajorMinor | crates/libs/vulkan/src/lib.rs:67-73 | a major/minor version is all zeros but those two numbers |
| Version.ConstructorsAgree | crates/libs/vulkan/src/lib.rs:37-82 | the three constructors agree with each other, and the named constants are versions 1.0 to 1.3 with variant and patch 0 |
| ViewerPipeline.ViewerShaders | crates/examples/gltf_viewer/src/pipeline_res.rs:125-166 | the viewer passes ray generation, two miss shaders and closest hit, and an any-hit shader exactly when some material is not opaque |
| ViewerPipeline.ViewerPipelineGroups | crates/examples/gltf_viewer/src/pipeline_res.rs:125-172 | the viewer's pipeline is always created, with four groups: one ray generation, two miss and one hit group, whose closest-hit shader is paired with the any-hit shader exactly when one was passed |
| ViewerPipeline.CountsOfViewerShaders | crates/examples/gltf_viewer/src/pipeline_res.rs:125-166 | the viewer passes one ray generation shader, two plain miss shaders, one closest-hit shader, no shadow shaders, and one any-hit shader only for a scene that is not fully opaque |
| ViewerPipeline.IncreasingIdentity | crates/libs/vulkan/src/ray_tracing/pipeline.rs:99-129 | when none of the first four shaders is any-hit, the first four groups belong to the first four shaders |
| ViewerPipeline.StaticBindings | crates/examples/gltf_viewer/src/pipeline_res.rs:29-97 | the static layout declares ten bindings of one descriptor each, except the texture array, whose count is the texture count cast to `u32` and so equals the texture count whenever that fits |
| ViewerPipeline.DynamicBindings | crates/examples/gltf_viewer/src/pipeline_res.rs:100-113 | each per-frame set declares the output image and the accumulation image, one storage image each |
| ViewerPipeline.StaticDescriptorTotal | crates/examples/gltf_viewer/src/pipeline_res.rs:29-97 | the static layout needs nine descriptors plus the texture count cast to `u32`, which is exactly one per texture whenever that count fits |
| ViewerPipeline.SumOfOnesAndOne | crates/examples/gltf_viewer/src/pipeline_res.rs:29-97 | a layout whose bindings hold one descriptor each but one needs one per binding plus the extra ones of that binding |
| ViewerPipeline.AllOnes | crates/examples/gltf_viewer/src/pipeline_res.rs:100-113 | a layout whose bindings hold one descriptor each needs one per binding |
| GuiState.ScenePath | crates/examples/gltf_viewer/src/gui_state.rs:61-74 | a scene without its own file path is loaded from its name |
| GuiState.ExplicitPathIsNotName | crates/examples/gltf_viewer/src/gui_state.rs:61-74 | exactly the scenes listed with their own path are loaded from something other than their name |
| GuiState.MappingCode | crates/examples/gltf_viewer/src/gui_state.rs:100-109 | debug views are numbered 0 to 5 |
| GuiState.NewGui | crates/examples/gltf_viewer/src/gui_state.rs:141-166 | the viewer starts on the Lucy Cornell box scene with the Yokohama sky box and the normal image, three samples a frame up to 100, five bounces, accumulation, ray tracing, sky and antialiasing on and animation off |
| GuiState.GetNumberOfSamples | crates/examples/gltf_viewer/src/gui_state.rs:120-126 | the GUI's sample count is the capped request the renderer uses |
| GuiState.GetBounce | crates/examples/gltf_viewer/src/gui_state.rs:132-138 | ray-query debug views trace one bounce and every other view the configured number |
| GuiState.DerivedSwitches | crates/examples/gltf_viewer/src/gui_state.rs:112-138 | every ray-query view is a debug view, the heat map is the only other one, accumulation needs the normal image, and at start the viewer accumulates with five bounces |
| LicenseExtractor.Licenses | assets/models/license_extractor.py:4-9 | the licence files of a directory are those of its files named exactly license.txt, each paired with the directory's name |
| LicenseExtractor.LicensesComplete | assets/models/license_extractor.py:4-9 | no licence file of a directory is missed |
| LicenseExtractor.WalkAllSplit | assets/models/license_extractor.py:8 | the matches under one subdirectory form a single block, between those of the subdirectories listed before and after it |
| LicenseExtractor.ChildrenBeforeParent | assets/models/license_extractor.py:8 | the bottom-up walk reports everything below each subdirectory before the directory's own licence |
| LicenseExtractor.WalkFindsAll | assets/models/license_extractor.py:8-9 | the bottom-up walk finds the same licences as a top-down walk, each equally often, only in another order |
| LicenseExtractor.WalkAllFindsAll | assets/models/license_extractor.py:8-9 | the same holds for a list of sibling directories |
| LicenseExtractor.Records | assets/models/license_extractor.py:7-16 | the record list succeeds exactly when every licence has at least five lines, and then holds per licence a header naming its directory followed by its first five lines |
| LicenseExtractor.ConcatAppend | assets/models/license_extractor.py:17 | joining two lists of lines is joining each and putting the results together |
| LicenseExtractor.Collect | assets/models/license_extractor.py:7-17 | the script stops exactly when some licence found has fewer than five lines, and otherwise prints text ending in a line break |
| LicenseExtractor.RecordsJoin | assets/models/license_extractor.py:13-17 | the joined record list is each licence's header and first five lines, one licence after the other |
| LicenseExtractor.CollectPrints | assets/models/license_extractor.py:7-17 | the printed text is the records of the bottom-up walk, in walk order, followed by the line break print adds |
| LicenseExtractor.NoLicenseEmptyOutput | assets/models/license_extractor.py:7-17 | a tree without licence files prints an empty line |
| LicenseExtractor.ExactNameOnly | assets/models/license_extractor.py:4-5 | only the exact lower-case name counts as a licence |
| Sorting.WithKey | crates/libs/vulkan/src/instance.rs:93-97 | the elements with a given key, in their order, are at most the whole sequence and all have that key |
| Sorting.Insert | crates/libs/vulkan/src/instance.rs:93-97 | inserting adds exactly the one element |
| Sorting.SortByKey | crates/libs/vulkan/src/instance.rs:93-97 | the sort is a permutation of its input |
| Sorting.InsertSorted | crates/libs/vulkan/src/instance.rs:93-97 | inserting into a sorted sequence keeps it sorted |
| Sorting.InsertKeysAbove | crates/libs/vulkan/src/instance.rs:93-97 | inserting keeps every lower bound that the element and the sequence respect |
| Sorting.WithKeyAppend | crates/libs/vulkan/src/instance.rs:93-97 | the elements of one key in two sequences put together are those of each, in order |
| Sorting.InsertWithKey | crates/libs/vulkan/src/instance.rs:93-97 | an element inserted into a sorted sequence comes after every element with the same key |
| Sorting.SortSorted | crates/libs/vulkan/src/instance.rs:93-97 | the result is ordered by key |
| Sorting.SortStable | crates/libs/vulkan/src/instance.rs:93-97 | for every key, the elements with that key keep their input order: the sort is stable, as sort_by_key promises |
| Sorting.InsertLast | crates/libs/vulkan/src/instance.rs:93-97 | an element whose key is not below any other is appended |
| Sorting.SortOfSorted | crates/libs/asset_loader/src/acceleration_structures.rs:77 | sorting a sequence already ordered by key leaves it unchanged |
| Sorting.SortCorrect | crates/libs/vulkan/src/instance.rs:93-97 | the sort is ordered by key, a permutation of its input and stable |

## Left out

- Vulkan object creation, destruction, command recording and submission: command buffers, buffers, images, descriptors, synchronisation, samplers, surfaces, queries, graphics and compute pipelines, acceleration-structure builds and device creation. These are foreign calls into the driver. Only the values the source computes to pass in are modelled.
- The event loop, window, GUI drawing, the `build` methods of the GUI states and the triangle example: user-interface and window-system plumbing.
- Camera movement and matrices, animation interpolation, skinning matrices, light angles, bounding boxes under a matrix, `get_center`, face normals and tangents, and timestamp scaling: floating-point numerics. A `Mat4` is an abstract monoid and never multiplied numerically.
- The background model loader thread and the parallel image and sky-box loading: concurrency. Only the sequential result is modelled.
- File-system and process I/O: resource search paths, the shader build scripts, image file decoding, `gltf::import` and the directory listing of the licence script. The decoded document, the image bytes and the directory tree are inputs.
- Descriptor-set wiring with no behaviour of its own (both `desc_sets.rs` files, the Cornell box's `pipeline_res.rs`, the viewer's compute unit), apart from the counts and bindings named in the table above.
- Data-only declarations (uniform-buffer layouts, argument parsing, error types) and `Version::make_api_version`, which delegates to the driver library.
- The order of `HashMap` iteration: the order the TLAS nodes are visited is an input. `AccelerationStructures.InstancesOrderFree` shows that success does not depend on it.
- Conversions between `f32` and integers and between `f32` widths: values are reals and are copied unchanged.
- SceneGraph.LoadNode: recursion over the node tree is bounded by a `fuel` argument, and running out of fuel is the error `TooDeep`. The source has no depth bound: `load_node` inserts a node before it descends, and its assertion rejects a node that is reached again, so a cyclic or shared child list fails (`SceneGraph.LoadTwiceFails`). The fuel `LoadRoots` passes, one more than the number of nodes, exceeds the depth of any tree without repeated nodes, so `TooDeep` stands only for the stack depth the source does not bound.
- SceneGraph.Visit: the pre-order walk is bounded by `fuel` in the same way. Any fuel larger than the number of nodes gives the source's order on an acyclic tree.
- GuiState.ScenePath: the contract states only that scenes without an explicit path use their variant name. It does not state that the nine explicit paths are pairwise distinct.
- ExampleModels.CornellTextures: the first entry of each triple is the texture's position in the list, not the `texture_index` the Cornell box reads, because the `gltf` crate's `Texture` has no such field.
- ExampleModels.CornellGeometryOf: the texture-info fields and `ior` that the Cornell box reads from a material the loader does not define are left out.

## Findings

Each row names a member that models the code as written, with a lemma that exhibits the discrepancy, and the corrected member the rest of the model uses.

| source | as written | input that shows it | evidently intended | confidence | as-written member | corrected member |
|---|---|---|---|---|---|---|
| crates/libs/vulkan/src/context.rs:189-228 | `graphics` and `present` are declared once, before the device loop, and are never reset | device A has only a graphics family and no present family and is rejected; device B has only a present family. B is selected with A's graphics family index | each device is judged by its own queue families | not executed | Context.CarryOverSelectsForeignFamily | Context.FirstSuitableCorrect |
| crates/libs/asset_loader/src/geometry.rs:270-290 | the normal array has one entry per index but is written at vertex positions | four vertices and the triangle (0, 1, 2) give three normals; the triangle (1, 2, 3) writes normal 3 out of bounds and panics | one normal per vertex | not executed | Geometry.NormalsSizedByIndexCount | Geometry.CreateGeoNormalAt |
| crates/libs/asset_loader/src/scene_graph.rs:105-108 | `Doc::new` builds geometry with the default `GeoBuilder`, which has no material flags | a document whose only material uses alpha mode Blend reports itself fully opaque | the builder made from the document's materials | not executed | Document.AsWrittenReportsOpaque | Document.DocNew |
| crates/libs/asset_loader/src/cubumap.rs:111-113 | `get_extents` takes the height from `images[1]` | a sky box with a single image panics, and faces of different heights give a mixed extent | width and height of the same image | not executed | Cubemap.ExtentsDisagree | Cubemap.GetExtentsFixed |
| crates/libs/asset_loader/src/texture.rs:61 | a texture keeps the glTF image index, while images sit one slot later behind the default image | a texture on glTF image 0 binds slot 0, the default white image | a texture binds its image's slot, `source + 1` | not executed | VkGlobals.TextureBindsPreviousImage | VkGlobals.TextureBindsOwnImage |
| crates/examples/rt_reflections/src/main.rs:770-785 | every texture descriptor write uses array element 0 | two textures: the second write replaces the first, and element 1 is never written | texture `i` is written to array element `i` | not executed | ExampleModels.AsWrittenLosesFirstTexture | ExampleModels.TextureWritesBindEach |
