/** The loaded scene graph: nodes keyed by their glTF index, each caching
    the product of its ancestors' local transforms, and the pre-order walk
    the renderer uses to collect lights. Transforms are elements of the
    abstract matrix monoid. */
module SceneGraph {
  import opened Wrappers
  import opened Transforms
  import G = GltfDocument
  import Lights

  datatype SceneError = MissingNode | DuplicateNode | MissingScene | MissingLight | TooDeep

  /** A loaded node: its children's glTF indices, its mesh and light, its
      local transform and the cached transform of its parent chain. */
  datatype Node = Node(
    name: Option<string>, children: seq<nat>, light: Option<nat>, mesh: Option<nat>,
    local: Mat4, parentCache: Mat4)
  {
    /** `get_world_transform`: the parent chain followed by the node itself. */
    function World(): (r: Mat4)
      ensures r.factors == parentCache.factors + local.factors
    {
      Mul(parentCache, local)
    }
  }

  datatype Scene = Scene(name: Option<string>, rootNodes: seq<nat>)

  type Nodes = map<nat, Node>

  /** The loaded node for glTF node `n` under a parent chain `cache`. */
  function NodeOf(n: G.Node, cache: Mat4): (r: Node)
    ensures r.children == n.children && r.mesh == n.mesh && r.light == n.light
    ensures r.parentCache == cache && r.World() == Mul(cache, Of(n.matrix))
  {
    Node(n.name, n.children, n.light, n.mesh, Of(n.matrix), cache)
  }

  /** Every entry of `m` is still in `r`, unchanged. */
  ghost predicate Extends(r: Nodes, m: Nodes) {
    forall k :: k in m ==> k in r && r[k] == m[k]
  }

  /** `load_node`: inserts glTF node `id` under parent chain `cache`, then
      its children, in order, under the node's world transform. Loading a
      node twice fails the assertion; the recursion is bounded by `fuel`. */
  function LoadNode(m: Nodes, doc: seq<G.Node>, id: nat, cache: Mat4, fuel: nat): (r: Result<Nodes, SceneError>)
    ensures id in m ==> r.Failure?
    ensures r.Success? ==> Extends(r.value, m) && id < |doc| && id in r.value && r.value[id] == NodeOf(doc[id], cache)
    decreases fuel, 0
  {
    if fuel == 0 then Failure(TooDeep)
    else if id >= |doc| then Failure(MissingNode)
    else if id in m then Failure(DuplicateNode)
    else
      var node := NodeOf(doc[id], cache);
      LoadChildren(m[id := node], doc, node.children, node.World(), fuel - 1)
  }

  function LoadChildren(m: Nodes, doc: seq<G.Node>, children: seq<nat>, cache: Mat4, fuel: nat): (r: Result<Nodes, SceneError>)
    ensures r.Success? ==> Extends(r.value, m)
    decreases fuel, |children| + 1
  {
    if |children| == 0 then Success(m)
    else
      var m' :- LoadNode(m, doc, children[0], cache, fuel);
      LoadChildren(m', doc, children[1..], cache, fuel)
  }

  /** Every node `LoadNode` or `LoadChildren` added has all its children
      added too, each caching the node's world transform. */
  ghost predicate NewNodesComplete(r: Nodes, m: Nodes) {
    forall p, i :: p in r && p !in m && 0 <= i < |r[p].children| ==>
      var c := r[p].children[i];
      c in r && c !in m && r[c].parentCache == r[p].World()
  }

  lemma {:induction false} LoadNodeSound(m: Nodes, doc: seq<G.Node>, id: nat, cache: Mat4, fuel: nat)
    requires LoadNode(m, doc, id, cache, fuel).Success?
    ensures NewNodesComplete(LoadNode(m, doc, id, cache, fuel).value, m)
    decreases fuel, 0
  {
    var node := NodeOf(doc[id], cache);
    var m1 := m[id := node];
    var r := LoadNode(m, doc, id, cache, fuel).value;
    LoadChildrenSound(m1, doc, node.children, node.World(), fuel - 1);
  }

  lemma {:induction false} LoadChildrenSound(m: Nodes, doc: seq<G.Node>, children: seq<nat>, cache: Mat4, fuel: nat)
    requires LoadChildren(m, doc, children, cache, fuel).Success?
    ensures var r := LoadChildren(m, doc, children, cache, fuel).value;
      && NewNodesComplete(r, m)
      && forall i :: 0 <= i < |children| ==> children[i] in r && children[i] !in m && r[children[i]].parentCache == cache
    decreases fuel, |children| + 1
  {
    if |children| > 0 {
      var m1 := LoadNode(m, doc, children[0], cache, fuel).value;
      LoadNodeSound(m, doc, children[0], cache, fuel);
      LoadChildrenSound(m1, doc, children[1..], cache, fuel);
      var r := LoadChildren(m1, doc, children[1..], cache, fuel).value;
      forall i | 1 <= i < |children|
        ensures children[i] in r && children[i] !in m && r[children[i]].parentCache == cache
      {
        assert children[i] == children[1..][i - 1];
      }
    }
  }

  /** Loading from an empty map yields a graph in which every loaded node's
      children are loaded and cache exactly that node's world transform, and
      the root caches the given parent chain. */
  lemma LoadedTreeConsistent(doc: seq<G.Node>, id: nat, cache: Mat4, fuel: nat)
    requires LoadNode(map[], doc, id, cache, fuel).Success?
    ensures var r := LoadNode(map[], doc, id, cache, fuel).value;
      && r[id].parentCache == cache
      && forall p, i :: p in r && 0 <= i < |r[p].children| ==>
           r[p].children[i] in r && r[r[p].children[i]].parentCache == r[p].World()
  {
    LoadNodeSound(map[], doc, id, cache, fuel);
  }

  /** A child that is also an earlier-loaded node, or a node listed twice,
      fails: a node is loaded under exactly one parent. */
  lemma LoadTwiceFails(doc: seq<G.Node>, id: nat, fuel: nat)
    requires id < |doc| && 0 < fuel && doc[id].children == [id]
    ensures LoadNode(map[], doc, id, IDENTITY, fuel).Failure?
  {
    var node := NodeOf(doc[id], IDENTITY);
    var m1: Nodes := map[id := node];
    assert LoadNode(map[], doc, id, IDENTITY, fuel) == LoadChildren(m1, doc, [id], node.World(), fuel - 1);
    if fuel - 1 > 0 {
      assert LoadNode(m1, doc, id, node.World(), fuel - 1).Failure?;
    }
  }

  /** The part of the document the scene graph reads. */
  datatype Graph = Graph(currentScene: nat, scenes: map<nat, Scene>, nodes: Nodes)

  /** `load_scene`: a scene already present is left alone; otherwise the
      current scene's roots are recorded and each root is loaded under the
      identity. */
  function LoadScene(g: Graph, doc: seq<G.Node>, scenes: seq<G.Scene>): (r: Result<Graph, SceneError>)
    ensures g.currentScene in g.scenes ==> r == Success(g)
    ensures g.currentScene !in g.scenes ==>
      (r.Success? <==> g.currentScene < |scenes| && LoadRoots(g.nodes, doc, scenes[g.currentScene].nodes).Success?)
    ensures r.Success? ==> r.value.currentScene == g.currentScene && g.currentScene in r.value.scenes
  {
    if g.currentScene in g.scenes then Success(g)
    else if g.currentScene >= |scenes| then Failure(MissingScene)
    else
      var scene := scenes[g.currentScene];
      var nodes :- LoadRoots(g.nodes, doc, scene.nodes);
      Success(Graph(g.currentScene, g.scenes[g.currentScene := Scene(scene.name, scene.nodes)], nodes))
  }

  /** Each root under the identity; recursion depth is bounded by one more
      than the node count, which no duplicate-free tree exceeds. */
  function LoadRoots(m: Nodes, doc: seq<G.Node>, roots: seq<nat>): (r: Result<Nodes, SceneError>)
    ensures r.Success? ==> Extends(r.value, m)
  {
    LoadChildren(m, doc, roots, IDENTITY, |doc| + 1)
  }

  /** `load_scene` is idempotent. */
  lemma LoadSceneIdempotent(g: Graph, doc: seq<G.Node>, scenes: seq<G.Scene>)
    requires LoadScene(g, doc, scenes).Success?
    ensures LoadScene(LoadScene(g, doc, scenes).value, doc, scenes) == LoadScene(g, doc, scenes)
  {
  }

  /** After loading a scene, its roots are loaded under the identity. */
  lemma LoadSceneRoots(g: Graph, doc: seq<G.Node>, scenes: seq<G.Scene>)
    requires g.currentScene !in g.scenes && LoadScene(g, doc, scenes).Success?
    ensures var r := LoadScene(g, doc, scenes).value;
      var roots := scenes[g.currentScene].nodes;
      && r.scenes[g.currentScene].rootNodes == roots
      && forall i :: 0 <= i < |roots| ==> roots[i] in r.nodes && r.nodes[roots[i]].parentCache == IDENTITY
  {
    LoadChildrenSound(g.nodes, doc, scenes[g.currentScene].nodes, IDENTITY, |doc| + 1);
  }

  // Traversal

  /** `iter_gltf_node_tree`: the node, then the tree of each child that is
      loaded, in the listed order; children that are not loaded are skipped.
      A cycle would recurse forever; `fuel` bounds the depth. */
  function Visit(m: Nodes, id: nat, fuel: nat): (r: Result<seq<nat>, SceneError>)
    requires id in m
    ensures r.Success? ==> |r.value| >= 1 && r.value[0] == id
    ensures r.Success? ==> forall i :: 0 <= i < |r.value| ==> r.value[i] in m
    decreases fuel, 0
  {
    if fuel == 0 then Failure(TooDeep)
    else
      var rest :- VisitChildren(m, m[id].children, fuel - 1);
      Success([id] + rest)
  }

  function VisitChildren(m: Nodes, children: seq<nat>, fuel: nat): (r: Result<seq<nat>, SceneError>)
    ensures r.Success? ==> forall i :: 0 <= i < |r.value| ==> r.value[i] in m
    decreases fuel, |children| + 1
  {
    if |children| == 0 then Success([])
    else if children[0] !in m then VisitChildren(m, children[1..], fuel)
    else
      var first :- Visit(m, children[0], fuel);
      var rest :- VisitChildren(m, children[1..], fuel);
      Success(first + rest)
  }

  /** The listed children that are loaded, in order. */
  function Present(m: Nodes, children: seq<nat>): (r: seq<nat>)
    ensures forall i :: 0 <= i < |r| ==> r[i] in m && r[i] in children
  {
    if |children| == 0 then []
    else (if children[0] in m then [children[0]] else []) + Present(m, children[1..])
  }

  /** `sub` occurs in `s` in order, not necessarily contiguously. */
  ghost predicate Subsequence(sub: seq<nat>, s: seq<nat>)
    decreases |s|
  {
    if |sub| == 0 then true
    else if |s| == 0 then false
    else if sub[0] == s[0] then Subsequence(sub[1..], s[1..])
    else Subsequence(sub, s[1..])
  }

  lemma {:induction false} SubsequencePrefix(sub: seq<nat>, x: seq<nat>, s: seq<nat>)
    requires Subsequence(sub, s)
    ensures Subsequence(sub, x + s)
    decreases |x|
  {
    if |x| > 0 {
      SubsequencePrefix(sub, x[1..], s);
      assert (x + s)[1..] == x[1..] + s;
      SubsequenceTail(sub, x + s);
    } else {
      assert x + s == s;
    }
  }

  lemma {:induction false} SubsequenceTail(sub: seq<nat>, s: seq<nat>)
    requires |s| > 0 && Subsequence(sub, s[1..])
    ensures Subsequence(sub, s)
    decreases |s|, 0
  {
    if |sub| > 0 && sub[0] == s[0] {
      SubsequenceDrop(sub, s[1..]);
    }
  }

  lemma {:induction false} SubsequenceDrop(sub: seq<nat>, t: seq<nat>)
    requires |sub| > 0 && Subsequence(sub, t)
    ensures Subsequence(sub[1..], t)
    decreases |t|, 1
  {
    if sub[0] == t[0] {
      SubsequenceTail(sub[1..], t);
    } else {
      SubsequenceDrop(sub, t[1..]);
      SubsequenceTail(sub[1..], t);
    }
  }

  /** Pre-order: the walk from a node yields the node first and then its
      loaded children, in their listed order, each before the nodes of later
      siblings' trees. */
  lemma {:induction false} VisitPreOrder(m: Nodes, id: nat, fuel: nat)
    requires id in m && Visit(m, id, fuel).Success?
    ensures Visit(m, id, fuel).value[0] == id
    ensures Subsequence([id] + Present(m, m[id].children), Visit(m, id, fuel).value)
  {
    var rest := VisitChildren(m, m[id].children, fuel - 1).value;
    VisitChildrenOrder(m, m[id].children, fuel - 1);
    assert ([id] + Present(m, m[id].children))[1..] == Present(m, m[id].children);
    assert ([id] + rest)[1..] == rest;
  }

  lemma {:induction false} VisitChildrenOrder(m: Nodes, children: seq<nat>, fuel: nat)
    requires VisitChildren(m, children, fuel).Success?
    ensures Subsequence(Present(m, children), VisitChildren(m, children, fuel).value)
    decreases |children|
  {
    if |children| > 0 {
      var rest := VisitChildren(m, children[1..], fuel).value;
      VisitChildrenOrder(m, children[1..], fuel);
      if children[0] in m {
        var first := Visit(m, children[0], fuel).value;
        var r := first + rest;
        SubsequencePrefix(Present(m, children[1..]), first[1..], rest);
        assert r[1..] == first[1..] + rest;
        assert Present(m, children) == [children[0]] + Present(m, children[1..]);
        assert Present(m, children)[1..] == Present(m, children[1..]);
      } else {
        assert Present(m, children) == Present(m, children[1..]);
      }
    }
  }

  /** A node none of whose children is loaded is visited alone. */
  lemma VisitLeaf(m: Nodes, id: nat, fuel: nat)
    requires id in m && 0 < fuel
    requires forall i :: 0 <= i < |m[id].children| ==> m[id].children[i] !in m
    ensures Visit(m, id, fuel) == Success([id])
  {
    NoneLoaded(m, m[id].children, fuel - 1);
    assert [id] + [] == [id];
  }

  lemma {:induction false} NoneLoaded(m: Nodes, children: seq<nat>, fuel: nat)
    requires forall i :: 0 <= i < |children| ==> children[i] !in m
    ensures VisitChildren(m, children, fuel) == Success([])
    decreases |children|
  {
    if |children| > 0 {
      NoneLoaded(m, children[1..], fuel);
    }
  }

  /** `traverse_root_nodes`: the trees of the current scene's roots, in
      scene order; a missing scene or root node is an unwrap panic. */
  function TraverseRootNodes(g: Graph): (r: Result<seq<nat>, SceneError>)
    ensures g.currentScene !in g.scenes ==> r.Failure?
    ensures g.currentScene in g.scenes && !AllLoaded(g.nodes, g.scenes[g.currentScene].rootNodes) ==> r.Failure?
    ensures r.Success? ==> forall i :: 0 <= i < |r.value| ==> r.value[i] in g.nodes
  {
    if g.currentScene !in g.scenes then Failure(MissingScene)
    else VisitRoots(g.nodes, g.scenes[g.currentScene].rootNodes, |g.nodes| + 1)
  }

  predicate AllLoaded(m: Nodes, ids: seq<nat>) {
    forall i :: 0 <= i < |ids| ==> ids[i] in m
  }

  function VisitRoots(m: Nodes, roots: seq<nat>, fuel: nat): (r: Result<seq<nat>, SceneError>)
    ensures !AllLoaded(m, roots) ==> r.Failure?
    ensures r.Success? ==> forall i :: 0 <= i < |r.value| ==> r.value[i] in m
  {
    if |roots| == 0 then Success([])
    else if roots[0] !in m then Failure(MissingNode)
    else
      var first :- Visit(m, roots[0], fuel);
      var rest :- VisitRoots(m, roots[1..], fuel);
      assert forall i :: 1 <= i < |roots| ==> roots[i] == roots[1..][i - 1];
      Success(first + rest)
  }

  // Lights

  /** The raw light of every visited light-bearing node, in visit order; a
      light index past the document's lights is an index panic. */
  function RawLights(m: Nodes, visited: seq<nat>, lights: seq<Lights.Light>): (r: Result<seq<Lights.LightRaw>, SceneError>)
    requires forall i :: 0 <= i < |visited| ==> visited[i] in m
    ensures r.Success? <==> forall i :: 0 <= i < |visited| && m[visited[i]].light.Some? ==> m[visited[i]].light.value < |lights|
    ensures r.Success? ==> |r.value| == LightNodes(m, visited)
  {
    if |visited| == 0 then Success([])
    else
      var n := m[visited[0]];
      var rest := RawLights(m, visited[1..], lights);
      assert forall i :: 1 <= i < |visited| ==> visited[i] == visited[1..][i - 1];
      if n.light.None? then rest
      else if n.light.value >= |lights| then Failure(MissingLight)
      else
        var tail :- rest;
        Success([Lights.ToRaw(lights[n.light.value], Eval(n.World()))] + tail)
  }

  function LightNodes(m: Nodes, visited: seq<nat>): nat
    requires forall i :: 0 <= i < |visited| ==> visited[i] in m
  {
    if |visited| == 0 then 0 else (if m[visited[0]].light.Some? then 1 else 0) + LightNodes(m, visited[1..])
  }

  /** The raw lights satisfying `dir`, in order. */
  function Split(raws: seq<Lights.LightRaw>, dir: bool): (r: seq<Lights.LightRaw>)
    ensures forall i :: 0 <= i < |r| ==> r[i].IsDir() == dir && r[i] in raws
  {
    if |raws| == 0 then []
    else (if raws[0].IsDir() == dir then [raws[0]] else []) + Split(raws[1..], dir)
  }

  /** An empty list gets one default light, so the shaders always have an
      element to read. */
  function OrDefault(raws: seq<Lights.LightRaw>): (r: seq<Lights.LightRaw>)
    ensures |r| >= 1
    ensures |raws| > 0 ==> r == raws
    ensures |raws| == 0 ==> r == [Lights.DefaultLightRaw()]
  {
    if |raws| == 0 then [Lights.DefaultLightRaw()] else raws
  }

  /** `get_lights_raw`: the lights met in the pre-order walk, directional
      ones in the first list and the others in the second, each list padded
      with a default light when empty. */
  function GetLightsRaw(g: Graph, lights: seq<Lights.Light>): (r: Result<(seq<Lights.LightRaw>, seq<Lights.LightRaw>), SceneError>)
    ensures r.Success? ==> |r.value.0| >= 1 && |r.value.1| >= 1
    ensures r.Success? ==> forall i :: 0 <= i < |r.value.1| ==> !r.value.1[i].IsDir()
    ensures r.Success? ==> forall i :: 0 <= i < |r.value.0| ==>
      r.value.0[i].IsDir() || r.value.0 == [Lights.DefaultLightRaw()]
  {
    var visited :- TraverseRootNodes(g);
    var raws :- RawLights(g.nodes, visited, lights);
    Success((OrDefault(Split(raws, true)), OrDefault(Split(raws, false))))
  }

  /** Without padding, every light met goes to exactly one list, kind
      preserved: the two lists hold all of them. */
  lemma LightsPartitioned(g: Graph, lights: seq<Lights.Light>)
    requires GetLightsRaw(g, lights).Success?
    ensures var visited := TraverseRootNodes(g).value;
      var raws := RawLights(g.nodes, visited, lights).value;
      var (d, p) := GetLightsRaw(g, lights).value;
      && |raws| == LightNodes(g.nodes, visited)
      && (|Split(raws, true)| > 0 ==> d == Split(raws, true))
      && (|Split(raws, false)| > 0 ==> p == Split(raws, false))
      && |Split(raws, true)| + |Split(raws, false)| == |raws|
      && multiset(Split(raws, true)) + multiset(Split(raws, false)) == multiset(raws)
  {
    var raws := RawLights(g.nodes, TraverseRootNodes(g).value, lights).value;
    SplitMultiset(raws);
  }

  lemma {:induction false} SplitMultiset(raws: seq<Lights.LightRaw>)
    ensures multiset(Split(raws, true)) + multiset(Split(raws, false)) == multiset(raws)
    ensures |Split(raws, true)| + |Split(raws, false)| == |raws|
  {
    if |raws| > 0 {
      SplitMultiset(raws[1..]);
      assert raws == [raws[0]] + raws[1..];
    }
  }

  // Transform updates

  /** `m` and `r` hold the same nodes, differing at most in their cached
      parent chains. */
  ghost predicate SameShape(r: Nodes, m: Nodes) {
    r.Keys == m.Keys && forall k :: k in m ==> r[k] == m[k].(parentCache := r[k].parentCache)
  }

  /** `update_parent_transform`: the node caches `parent`, then each child,
      in order, is updated with the node's new world transform. A missing
      node is an unwrap panic; a cycle would recurse forever, so `fuel`
      bounds the depth. */
  function UpdateParent(m: Nodes, id: nat, parent: Mat4, fuel: nat): (r: Result<Nodes, SceneError>)
    ensures id !in m ==> r.Failure?
    ensures r.Success? ==> r.value.Keys == m.Keys
    decreases fuel, 0
  {
    if fuel == 0 then Failure(TooDeep)
    else if id !in m then Failure(MissingNode)
    else
      var node := m[id];
      UpdateChildren(m[id := node.(parentCache := parent)], node.children, Mul(parent, node.local), fuel - 1)
  }

  /** The children, in order, each updated with the same parent chain; an
      unloaded child is an unwrap panic. */
  function UpdateChildren(m: Nodes, children: seq<nat>, parent: Mat4, fuel: nat): (r: Result<Nodes, SceneError>)
    ensures r.Success? ==> r.value.Keys == m.Keys
    ensures r.Success? ==> forall k :: 0 <= k < |children| ==> children[k] in m
    decreases fuel, |children| + 1
  {
    if |children| == 0 then Success(m)
    else
      var m' :- UpdateParent(m, children[0], parent, fuel);
      var r := UpdateChildren(m', children[1..], parent, fuel);
      assert r.Success? ==> forall k :: 1 <= k < |children| ==> children[k] == children[1..][k - 1];
      r
  }

  /** `update_local_transform`: replaces the node's local transform and
      re-runs the parent update from the node's own cached chain. */
  function UpdateLocal(m: Nodes, id: nat, local: Mat4, fuel: nat): (r: Result<Nodes, SceneError>)
    ensures id !in m ==> r.Failure?
    ensures r.Success? ==> r.value.Keys == m.Keys && r.value[id].local == local
  {
    if id !in m then Failure(MissingNode)
    else
      var m1 := m[id := m[id].(local := local)];
      var r := UpdateParent(m1, id, m[id].parentCache, fuel);
      if r.Success? then UpdateParentShape(m1, id, m[id].parentCache, fuel); r else r
  }

  /** One cache assignment of an update. */
  type Write = (nat, Mat4)

  /** The cache assignments `UpdateParent` performs, in order: the node with
      `parent`, then its children's subtrees. */
  function Writes(m: Nodes, id: nat, parent: Mat4, fuel: nat): (r: Result<seq<Write>, SceneError>)
    ensures r.Success? ==> |r.value| >= 1 && r.value[0] == (id, parent)
    ensures r.Success? ==> forall j :: 0 <= j < |r.value| ==> r.value[j].0 in m
    decreases fuel, 0
  {
    if fuel == 0 then Failure(TooDeep)
    else if id !in m then Failure(MissingNode)
    else
      var rest :- ChildWrites(m, m[id].children, Mul(parent, m[id].local), fuel - 1);
      Success([(id, parent)] + rest)
  }

  function ChildWrites(m: Nodes, children: seq<nat>, parent: Mat4, fuel: nat): (r: Result<seq<Write>, SceneError>)
    ensures r.Success? ==> forall j :: 0 <= j < |r.value| ==> r.value[j].0 in m
    decreases fuel, |children| + 1
  {
    if |children| == 0 then Success([])
    else
      var first :- Writes(m, children[0], parent, fuel);
      var rest :- ChildWrites(m, children[1..], parent, fuel);
      Success(first + rest)
  }

  /** Performs cache assignments in order. */
  function Apply(m: Nodes, ws: seq<Write>): (r: Nodes)
    ensures r.Keys == m.Keys
  {
    if |ws| == 0 then m
    else
      var k := ws[0].0;
      Apply(if k in m then m[k := m[k].(parentCache := ws[0].1)] else m, ws[1..])
  }

  lemma {:induction false} ApplyAppend(m: Nodes, a: seq<Write>, b: seq<Write>)
    ensures Apply(m, a + b) == Apply(Apply(m, a), b)
    decreases |a|
  {
    if |a| > 0 {
      assert (a + b)[1..] == a[1..] + b;
      var k := a[0].0;
      ApplyAppend(if k in m then m[k := m[k].(parentCache := a[0].1)] else m, a[1..], b);
    } else {
      assert a + b == b;
    }
  }

  /** The recursive update performs exactly its list of assignments, from
      any map of the same shape. */
  lemma {:induction false} UpdateParentIsApply(m: Nodes, m': Nodes, id: nat, parent: Mat4, fuel: nat)
    requires SameShape(m', m)
    ensures UpdateParent(m', id, parent, fuel).Success? == Writes(m, id, parent, fuel).Success?
    ensures UpdateParent(m', id, parent, fuel).Success? ==>
      UpdateParent(m', id, parent, fuel).value == Apply(m', Writes(m, id, parent, fuel).value)
    decreases fuel, 0
  {
    if fuel > 0 && id in m {
      var node := m'[id];
      var m1 := m'[id := node.(parentCache := parent)];
      var p := Mul(parent, node.local);
      assert node.children == m[id].children && node.local == m[id].local;
      assert UpdateParent(m', id, parent, fuel) == UpdateChildren(m1, node.children, p, fuel - 1);
      SameShapeAssign(m, m', id, parent);
      UpdateChildrenIsApply(m, m1, node.children, p, fuel - 1);
      var cw := ChildWrites(m, node.children, p, fuel - 1);
      if cw.Success? {
        var ws := [(id, parent)] + cw.value;
        assert Writes(m, id, parent, fuel) == Success(ws);
        assert ws[1..] == cw.value;
        assert Apply(m', ws) == Apply(m1, cw.value);
        assert UpdateChildren(m1, node.children, p, fuel - 1).Success?;
        assert UpdateParent(m', id, parent, fuel).value == Apply(m', Writes(m, id, parent, fuel).value);
      } else {
        assert Writes(m, id, parent, fuel).Failure?;
      }
    } else {
      assert id !in m ==> id !in m';
      assert UpdateParent(m', id, parent, fuel).Failure?;
      assert Writes(m, id, parent, fuel).Failure?;
    }
  }

  lemma {:induction false} ApplyShape(m: Nodes, m': Nodes, ws: seq<Write>)
    requires SameShape(m', m)
    ensures SameShape(Apply(m', ws), m)
    decreases |ws|
  {
    if |ws| > 0 {
      var k := ws[0].0;
      if k in m' {
        SameShapeAssign(m, m', k, ws[0].1);
      }
      ApplyShape(m, if k in m' then m'[k := m'[k].(parentCache := ws[0].1)] else m', ws[1..]);
    }
  }

  /** The update changes nothing but cached parent chains. */
  lemma UpdateParentShape(m: Nodes, id: nat, parent: Mat4, fuel: nat)
    requires UpdateParent(m, id, parent, fuel).Success?
    ensures SameShape(UpdateParent(m, id, parent, fuel).value, m)
  {
    UpdateParentIsApply(m, m, id, parent, fuel);
    ApplyShape(m, m, Writes(m, id, parent, fuel).value);
  }

  lemma SameShapeAssign(m: Nodes, m': Nodes, id: nat, parent: Mat4)
    requires SameShape(m', m) && id in m'
    ensures SameShape(m'[id := m'[id].(parentCache := parent)], m)
  {
  }

  lemma {:induction false} UpdateChildrenIsApply(m: Nodes, m': Nodes, children: seq<nat>, parent: Mat4, fuel: nat)
    requires SameShape(m', m)
    ensures UpdateChildren(m', children, parent, fuel).Success? == ChildWrites(m, children, parent, fuel).Success?
    ensures UpdateChildren(m', children, parent, fuel).Success? ==>
      UpdateChildren(m', children, parent, fuel).value == Apply(m', ChildWrites(m, children, parent, fuel).value)
    decreases fuel, |children| + 1
  {
    if |children| > 0 {
      UpdateParentIsApply(m, m', children[0], parent, fuel);
      if Writes(m, children[0], parent, fuel).Success? {
        var a := Writes(m, children[0], parent, fuel).value;
        var m1 := UpdateParent(m', children[0], parent, fuel).value;
        ApplyShape(m, m', a);
        UpdateChildrenIsApply(m, m1, children[1..], parent, fuel);
        if ChildWrites(m, children[1..], parent, fuel).Success? {
          ApplyAppend(m', a, ChildWrites(m, children[1..], parent, fuel).value);
        }
      }
    }
  }

  function Ids(ws: seq<Write>): (r: seq<nat>)
    ensures |r| == |ws| && forall j :: 0 <= j < |ws| ==> r[j] == ws[j].0
  {
    seq(|ws|, j requires 0 <= j < |ws| => ws[j].0)
  }

  /** No node is assigned twice: the updated subtree is a tree. */
  ghost predicate Distinct(ws: seq<Write>) {
    forall j1, j2 :: 0 <= j1 < j2 < |ws| ==> ws[j1].0 != ws[j2].0
  }

  /** With distinct targets, each assigned node ends with its assigned
      chain and every other node is untouched. */
  lemma {:induction false} ApplyDistinct(m: Nodes, ws: seq<Write>)
    requires Distinct(ws) && forall j :: 0 <= j < |ws| ==> ws[j].0 in m
    ensures forall j :: 0 <= j < |ws| ==> Apply(m, ws)[ws[j].0].parentCache == ws[j].1
    ensures forall k :: k in m && k !in Ids(ws) ==> Apply(m, ws)[k] == m[k]
    decreases |ws|
  {
    if |ws| > 0 {
      var k := ws[0].0;
      var m1 := m[k := m[k].(parentCache := ws[0].1)];
      ApplyDistinct(m1, ws[1..]);
      assert k !in Ids(ws[1..]);
      forall j | 1 <= j < |ws|
        ensures Apply(m, ws)[ws[j].0].parentCache == ws[j].1
      {
        assert ws[j] == ws[1..][j - 1];
      }
      forall k' | k' in m && k' !in Ids(ws)
        ensures Apply(m, ws)[k'] == m[k']
      {
        assert k' != k;
        assert forall j :: 0 <= j < |ws[1..]| ==> Ids(ws[1..])[j] == Ids(ws)[j + 1];
      }
    }
  }

  /** Every assigned node's children are assigned too, with the node's
      assigned chain followed by its local transform. */
  ghost predicate Closed(m: Nodes, ws: seq<Write>)
    requires forall j :: 0 <= j < |ws| ==> ws[j].0 in m
  {
    forall j, i :: 0 <= j < |ws| && 0 <= i < |m[ws[j].0].children| ==>
      (m[ws[j].0].children[i], Mul(ws[j].1, m[ws[j].0].local)) in ws
  }

  /** Assignment `j` targets a child of a node assigned before it. */
  ghost predicate ChildOfEarlier(m: Nodes, ws: seq<Write>, j: nat)
    requires j < |ws| && forall j :: 0 <= j < |ws| ==> ws[j].0 in m
  {
    exists j' :: 0 <= j' < j && ws[j].0 in m[ws[j'].0].children
  }

  /** Every assignment after the first is to a child of an earlier-assigned
      node. */
  ghost predicate Parented(m: Nodes, ws: seq<Write>)
    requires forall j :: 0 <= j < |ws| ==> ws[j].0 in m
  {
    forall j :: 1 <= j < |ws| ==> ChildOfEarlier(m, ws, j)
  }

  lemma ClosedAppend(m: Nodes, a: seq<Write>, b: seq<Write>)
    requires forall j :: 0 <= j < |a| ==> a[j].0 in m
    requires forall j :: 0 <= j < |b| ==> b[j].0 in m
    requires Closed(m, a) && Closed(m, b)
    ensures Closed(m, a + b)
  {
    var ws := a + b;
    forall j, i | 0 <= j < |ws| && 0 <= i < |m[ws[j].0].children|
      ensures (m[ws[j].0].children[i], Mul(ws[j].1, m[ws[j].0].local)) in ws
    {
      if j < |a| {
        assert ws[j] == a[j];
      } else {
        assert ws[j] == b[j - |a|];
      }
    }
  }

  /** The assignments of a children's list start each child with `parent`. */
  lemma {:induction false} ChildWritesHeads(m: Nodes, children: seq<nat>, parent: Mat4, fuel: nat)
    requires ChildWrites(m, children, parent, fuel).Success?
    ensures forall i :: 0 <= i < |children| ==> (children[i], parent) in ChildWrites(m, children, parent, fuel).value
    decreases |children|
  {
    if |children| > 0 {
      var a := Writes(m, children[0], parent, fuel).value;
      var b := ChildWrites(m, children[1..], parent, fuel).value;
      ChildWritesHeads(m, children[1..], parent, fuel);
      assert a[0] in a + b;
      forall i | 1 <= i < |children|
        ensures (children[i], parent) in a + b
      {
        assert children[i] == children[1..][i - 1];
      }
    }
  }

  lemma {:induction false} WritesClosed(m: Nodes, id: nat, parent: Mat4, fuel: nat)
    requires Writes(m, id, parent, fuel).Success?
    ensures Closed(m, Writes(m, id, parent, fuel).value)
    decreases fuel, 0
  {
    var cs := m[id].children;
    var p := Mul(parent, m[id].local);
    var rest := ChildWrites(m, cs, p, fuel - 1).value;
    var ws := [(id, parent)] + rest;
    ChildWritesClosed(m, cs, p, fuel - 1);
    ChildWritesHeads(m, cs, p, fuel - 1);
    forall j, i | 0 <= j < |ws| && 0 <= i < |m[ws[j].0].children|
      ensures (m[ws[j].0].children[i], Mul(ws[j].1, m[ws[j].0].local)) in ws
    {
      if j > 0 {
        assert ws[j] == rest[j - 1];
      }
    }
  }

  lemma {:induction false} ChildWritesClosed(m: Nodes, children: seq<nat>, parent: Mat4, fuel: nat)
    requires ChildWrites(m, children, parent, fuel).Success?
    ensures Closed(m, ChildWrites(m, children, parent, fuel).value)
    decreases fuel, |children| + 1
  {
    if |children| > 0 {
      WritesClosed(m, children[0], parent, fuel);
      ChildWritesClosed(m, children[1..], parent, fuel);
      ClosedAppend(m, Writes(m, children[0], parent, fuel).value, ChildWrites(m, children[1..], parent, fuel).value);
    }
  }

  lemma {:induction false} WritesParented(m: Nodes, id: nat, parent: Mat4, fuel: nat)
    requires Writes(m, id, parent, fuel).Success?
    ensures Parented(m, Writes(m, id, parent, fuel).value)
    decreases fuel, 0
  {
    var cs := m[id].children;
    var p := Mul(parent, m[id].local);
    var rest := ChildWrites(m, cs, p, fuel - 1).value;
    var ws := [(id, parent)] + rest;
    ChildWritesParented(m, cs, p, fuel - 1);
    forall j | 1 <= j < |ws|
      ensures ChildOfEarlier(m, ws, j)
    {
      assert ws[j] == rest[j - 1];
      if rest[j - 1].0 in cs {
        assert ws[0].0 == id;
      } else {
        var j' :| 0 <= j' < j - 1 && rest[j - 1].0 in m[rest[j'].0].children;
        assert ws[j' + 1] == rest[j'];
      }
    }
  }

  /** Each assignment of a children's list targets one of the children or a
      child of an earlier-assigned node. */
  lemma {:induction false} ChildWritesParented(m: Nodes, children: seq<nat>, parent: Mat4, fuel: nat)
    requires ChildWrites(m, children, parent, fuel).Success?
    ensures var ws := ChildWrites(m, children, parent, fuel).value;
      forall j :: 0 <= j < |ws| && ws[j].0 !in children ==> ChildOfEarlier(m, ws, j)
    decreases fuel, |children| + 1
  {
    if |children| > 0 {
      var a := Writes(m, children[0], parent, fuel).value;
      var b := ChildWrites(m, children[1..], parent, fuel).value;
      var ws := a + b;
      WritesParented(m, children[0], parent, fuel);
      ChildWritesParented(m, children[1..], parent, fuel);
      forall j | 0 <= j < |ws| && ws[j].0 !in children
        ensures ChildOfEarlier(m, ws, j)
      {
        if j < |a| {
          assert ws[j] == a[j];
          assert j != 0 && ChildOfEarlier(m, a, j);
          var j' :| 0 <= j' < j && a[j].0 in m[a[j'].0].children;
          assert ws[j'] == a[j'];
        } else {
          assert ws[j] == b[j - |a|];
          assert b[j - |a|].0 !in children[1..];
          assert ChildOfEarlier(m, b, j - |a|);
          var j' :| 0 <= j' < j - |a| && b[j - |a|].0 in m[b[j'].0].children;
          assert ws[j' + |a|] == b[j'];
        }
      }
    }
  }

  /** `update_parent_transform` on a subtree that is a tree: the node caches
      the new chain, every node of the subtree ends up caching its parent's
      new world transform, and every node outside it is untouched. */
  lemma UpdateParentConsistent(m: Nodes, id: nat, parent: Mat4, fuel: nat)
    requires Writes(m, id, parent, fuel).Success? && Distinct(Writes(m, id, parent, fuel).value)
    ensures UpdateParent(m, id, parent, fuel).Success?
    ensures var r := UpdateParent(m, id, parent, fuel).value;
      var subtree := Ids(Writes(m, id, parent, fuel).value);
      && r.Keys == m.Keys
      && id in subtree && r[id].parentCache == parent
      && (forall k :: k in m && k !in subtree ==> r[k] == m[k])
      && forall k, i :: k in subtree && 0 <= i < |r[k].children| ==>
           r[k].children[i] in r && r[r[k].children[i]].parentCache == r[k].World()
  {
    var ws := Writes(m, id, parent, fuel).value;
    UpdateParentIsApply(m, m, id, parent, fuel);
    var r := Apply(m, ws);
    ApplyDistinct(m, ws);
    ApplyShape(m, m, ws);
    WritesClosed(m, id, parent, fuel);
    assert Ids(ws)[0] == id;
    forall k, i | k in Ids(ws) && 0 <= i < |r[k].children|
      ensures r[k].children[i] in r && r[r[k].children[i]].parentCache == r[k].World()
    {
      var j :| 0 <= j < |ws| && Ids(ws)[j] == k;
      var c := m[k].children[i];
      assert (c, Mul(ws[j].1, m[k].local)) in ws;
      var j' :| 0 <= j' < |ws| && ws[j'] == (c, Mul(ws[j].1, m[k].local));
    }
  }

  /** Every node's children are loaded and cache the node's world transform. */
  ghost predicate CachesConsistent(m: Nodes) {
    forall p, i :: p in m && 0 <= i < |m[p].children| ==>
      m[p].children[i] in m && m[m[p].children[i]].parentCache == m[p].World()
  }

  /** No node is listed as the child of two different nodes. */
  ghost predicate UniqueParents(m: Nodes) {
    forall p, q, c :: p in m && q in m && c in m[p].children && c in m[q].children ==> p == q
  }

  /** `update_local_transform` on a consistent forest: the node keeps its
      own cached chain, its world transform becomes that chain followed by
      the new local transform, and every cache in the graph is consistent
      again. */
  lemma UpdateLocalRestores(m: Nodes, id: nat, local: Mat4, fuel: nat)
    requires CachesConsistent(m) && UniqueParents(m) && id in m
    requires var ws := Writes(m[id := m[id].(local := local)], id, m[id].parentCache, fuel);
      ws.Success? && Distinct(ws.value)
    ensures UpdateLocal(m, id, local, fuel).Success?
    ensures var r := UpdateLocal(m, id, local, fuel).value;
      && r[id].parentCache == m[id].parentCache && r[id].local == local
      && r[id].World() == Mul(m[id].parentCache, local)
      && CachesConsistent(r)
  {
    var m1 := m[id := m[id].(local := local)];
    var p0 := m[id].parentCache;
    var ws := Writes(m1, id, p0, fuel).value;
    UpdateParentConsistent(m1, id, p0, fuel);
    UpdateParentIsApply(m1, m1, id, p0, fuel);
    var r := UpdateParent(m1, id, p0, fuel).value;
    ApplyShape(m1, m1, ws);
    WritesParented(m1, id, p0, fuel);
    ApplyDistinct(m1, ws);
    forall p, i | p in r && 0 <= i < |r[p].children|
      ensures r[p].children[i] in r && r[r[p].children[i]].parentCache == r[p].World()
    {
      if p !in Ids(ws) {
        assert p != id && r[p] == m[p];
        var c := m[p].children[i];
        if c in Ids(ws) {
          var j :| 0 <= j < |ws| && Ids(ws)[j] == c;
          if j > 0 {
            assert ChildOfEarlier(m1, ws, j);
            var j' :| 0 <= j' < j && c in m1[ws[j'].0].children;
            assert false;
          }
        }
      }
    }
  }
}
