/** Punctual lights of the asset loader: the glTF light kinds mapped to the
    shader's kind codes, and the raw record uploaded per light-bearing node. */
module Lights {
  import opened Wrappers
  import opened Vectors
  import opened Transforms
  import G = GltfDocument

  datatype LightType = Directional | Point | Spot

  /** The `u32` the shader sees for each kind. */
  function KindCode(t: LightType): (r: nat)
    ensures r < 3
  {
    match t
    case Directional => 0
    case Point => 1
    case Spot => 2
  }

  /** `From<Kind>`: spot lights are not implemented and become point lights. */
  function LightTypeFrom(kind: G.LightKind): (r: LightType)
    ensures r == Directional <==> kind.Directional?
    ensures r == Point <==> !kind.Directional?
  {
    match kind
    case Directional => Directional
    case Point => Point
    case Spot(_, _) => Point
  }

  datatype Light = Light(index: nat, color: Vec3, name: Option<string>, kind: LightType,
                         range: real, intensity: real)

  /** `From<gltf Light>`: a missing range means an unbounded light and is stored
      as the largest finite `f32`. */
  function LightFrom(l: G.Light): (r: Light)
    ensures r.index == l.index && r.color == l.color && r.name == l.name && r.intensity == l.intensity
    ensures r.kind == LightTypeFrom(l.kind)
    ensures l.range.Some? ==> r.range == l.range.value
    ensures l.range.None? ==> r.range == F32_MAX
  {
    Light(l.index, l.color, l.name, LightTypeFrom(l.kind), l.range.GetOr(F32_MAX), l.intensity)
  }

  datatype LightRaw = LightRaw(color: Vec4, transform: Vec4, kind: nat, range: real,
                               intensity: real, padding: nat)
  {
    /** `is_dir`: the directional code. */
    predicate IsDir() {
      kind == KindCode(Directional)
    }
  }

  /** `LightRaw::default`: a white point light of range and intensity zero. */
  function DefaultLightRaw(): (r: LightRaw)
    ensures r.color == ONE4 && r.transform == ONE4 && r.range == 0.0 && r.intensity == 0.0
    ensures r.kind == KindCode(Point) && !r.IsDir() && r.padding == 0
  {
    LightRaw(ONE4, ONE4, KindCode(Point), 0.0, 0.0, 0)
  }

  /** The vector `get_transform` multiplies by the node's world transform. */
  function Probe(t: LightType): Vec4 {
    match t
    case Directional => Vec4(0.0, 0.0, 0.1, 0.0)
    case _ => ZERO4
  }

  /** `get_transform`: a directional light carries a tenth of the world
      transform's third column (its local z axis); any other light carries the
      zero vector whatever its node transform. */
  function GetTransform(t: LightType, world: Matrix): (r: Vec4)
    ensures t == Directional ==> r == Vec4(0.1 * world.c2.x, 0.1 * world.c2.y, 0.1 * world.c2.z, 0.1 * world.c2.w)
    ensures t != Directional ==> r == ZERO4
  {
    MatVec(world, Probe(t))
  }

  /** `to_raw`: colour padded with zero, kind code, range and intensity copied,
      padding zero. */
  function ToRaw(l: Light, world: Matrix): (r: LightRaw)
    ensures Drop(r.color) == l.color && r.color.w == 0.0
    ensures r.kind == KindCode(l.kind) && r.range == l.range && r.intensity == l.intensity
    ensures r.padding == 0 && r.transform == GetTransform(l.kind, world)
    ensures r.IsDir() <==> l.kind == Directional
  {
    LightRaw(Pad(l.color, 0.0), GetTransform(l.kind, world), KindCode(l.kind), l.range, l.intensity, 0)
  }

  /** A glTF light ends up in the directional list exactly when it is a
      directional light: point and spot lights both go to the point list. */
  lemma RawDirectionality(l: G.Light, world: Matrix)
    ensures ToRaw(LightFrom(l), world).IsDir() <==> l.kind.Directional?
    ensures !l.kind.Directional? ==> ToRaw(LightFrom(l), world).kind == KindCode(Point)
  {
  }

  /** `update_color`: replaces the colour and nothing else. */
  function UpdateColor(raw: LightRaw, color: Vec4): (r: LightRaw)
    ensures r.color == color
    ensures r.(color := raw.color) == raw
  {
    raw.(color := color)
  }

  /** Number of lights of one kind. */
  function CountKind(lights: seq<Light>, t: LightType): (r: nat)
    ensures r <= |lights|
  {
    if |lights| == 0 then 0
    else (if lights[0].kind == t then 1 else 0) + CountKind(lights[1..], t)
  }

  /** `report_lights`: the number of directional and of point lights. */
  function ReportLights(lights: seq<Light>): (r: (nat, nat))
    ensures r.0 == CountKind(lights, Directional) && r.1 == CountKind(lights, Point)
  {
    (CountKind(lights, Directional), CountKind(lights, Point))
  }

  /** Loaded lights are never spot lights, so the two reported counts add up to
      the number of lights. */
  lemma {:induction false} ReportCoversAll(gs: seq<G.Light>)
    ensures var lights := seq(|gs|, i requires 0 <= i < |gs| => LightFrom(gs[i]));
      ReportLights(lights).0 + ReportLights(lights).1 == |lights|
    decreases |gs|
  {
    var lights := seq(|gs|, i requires 0 <= i < |gs| => LightFrom(gs[i]));
    if |gs| > 0 {
      ReportCoversAll(gs[1..]);
      assert lights[1..] == seq(|gs[1..]|, i requires 0 <= i < |gs[1..]| => LightFrom(gs[1..][i]));
    }
  }
}
