/** The glTF viewer's GUI state: scene, sky box and debug mapping choices, and the
    derived switches the renderer reads each frame. */
module GuiState {
  import SampleAccounting

  datatype Scene =
    | LucyInCornell | Cornell | ABeautifulGame | Sponza | Type59 | DamagedHelmet
    | EmissiveTest | Punctual | Triss | EVA | Anakin | Ford | Ironman | Knight | Loba
    | Hulkbuster | KikuHoshimi | SparkLence | Apollo | CyberSamurai | Apex | Ra
    | BlueEye | Puzzle | Titan | MilleniumEye | VC

  /** The variant name, as the derived `IntoStaticStr` spells it. */
  function SceneName(s: Scene): string {
    match s
    case LucyInCornell => "LucyInCornell"
    case Cornell => "Cornell"
    case ABeautifulGame => "ABeautifulGame"
    case Sponza => "Sponza"
    case Type59 => "Type59"
    case DamagedHelmet => "DamagedHelmet"
    case EmissiveTest => "EmissiveTest"
    case Punctual => "Punctual"
    case Triss => "Triss"
    case EVA => "EVA"
    case Anakin => "Anakin"
    case Ford => "Ford"
    case Ironman => "Ironman"
    case Knight => "Knight"
    case Loba => "Loba"
    case Hulkbuster => "Hulkbuster"
    case KikuHoshimi => "KikuHoshimi"
    case SparkLence => "SparkLence"
    case Apollo => "Apollo"
    case CyberSamurai => "CyberSamurai"
    case Apex => "Apex"
    case Ra => "Ra"
    case BlueEye => "BlueEye"
    case Puzzle => "Puzzle"
    case Titan => "Titan"
    case MilleniumEye => "MilleniumEye"
    case VC => "VC"
  }

  /** The scenes stored under a path of their own. */
  predicate HasExplicitPath(s: Scene) {
    s in {LucyInCornell, Cornell, Type59, DamagedHelmet, ABeautifulGame, Sponza,
          EmissiveTest, Punctual, VC}
  }

  /** `Scene::path`: where the scene's glTF file is found. */
  function ScenePath(s: Scene): (r: string)
    ensures !HasExplicitPath(s) ==> r == SceneName(s)
  {
    match s
    case LucyInCornell => "cornellBoxLucy.gltf"
    case Cornell => "cornellBox.gltf"
    case Type59 => "type59.gltf"
    case DamagedHelmet => "DamagedHelmet/glTF"
    case ABeautifulGame => "ABeautifulGame/glTF"
    case Sponza => "Sponza/glTF"
    case EmissiveTest => "EmissiveStrengthTest/glTF"
    case Punctual => "LightsPunctualLamp/glTF"
    case VC => "VC/glTF"
    case _ => SceneName(s)
  }

  /** A scene uses a path of its own exactly when that path differs from its
      variant name. */
  lemma ExplicitPathIsNotName(s: Scene)
    ensures HasExplicitPath(s) <==> ScenePath(s) != SceneName(s)
  {
  }

  datatype Skybox = LancellottiChapel | Yokohama | SaintPetersBasilica | LearnOpengl | UtahInteractiveGraphics

  /** `Skybox::path`: the variant name. */
  function SkyboxPath(s: Skybox): string {
    match s
    case LancellottiChapel => "LancellottiChapel"
    case Yokohama => "Yokohama"
    case SaintPetersBasilica => "SaintPetersBasilica"
    case LearnOpengl => "LearnOpengl"
    case UtahInteractiveGraphics => "UtahInteractiveGraphics"
  }

  /** Debug views; `RENDER` is the normal image. */
  datatype Mapping = RENDER | HEAT | INSTANCE | TRIANGLE | DISTANCE | ALBEDO

  function MappingCode(m: Mapping): (r: nat)
    ensures r <= 5
  {
    match m
    case RENDER => 0
    case HEAT => 1
    case INSTANCE => 2
    case TRIANGLE => 3
    case DISTANCE => 4
    case ALBEDO => 5
  }

  datatype Gui = Gui(
    aperture: real,
    focusDistance: real,
    numberOfSamples: nat,
    numberOfBounces: nat,
    rayTracing: bool,
    acc: bool,
    sky: bool,
    mapScale: real,
    maxNumberOfSamples: nat,
    scale: real,
    scene: Scene,
    mapping: Mapping,
    skybox: Skybox,
    animation: bool,
    animationSpeed: real,
    antialiasing: bool,
    debug: nat)

  /** `Gui::new`. */
  function NewGui(): (r: Gui)
    ensures r.numberOfSamples == 3 && r.numberOfBounces == 5 && r.maxNumberOfSamples == 100
    ensures r.scene == LucyInCornell && r.mapping == RENDER && r.skybox == Yokohama
    ensures r.acc && r.rayTracing && r.sky && r.antialiasing && !r.animation && r.debug == 0
  {
    Gui(0.01, 10.0, 3, 5, true, true, true, 1.0, 100, 1.0, LucyInCornell, RENDER, Yokohama,
        false, 1.0, true, 0)
  }

  /** A debug view other than the normal image is shown. */
  predicate IsMapping(g: Gui) { g.mapping != RENDER }

  /** The debug view needs ray queries: everything but the image and the heat map. */
  predicate RayQuery(g: Gui) { g.mapping != RENDER && g.mapping != HEAT }

  /** `get_number_of_samples`. */
  function GetNumberOfSamples(g: Gui, total: nat): (r: nat)
    ensures r == SampleAccounting.FrameSamples(g.numberOfSamples, g.maxNumberOfSamples, total)
  {
    if g.maxNumberOfSamples <= total then 0
    else SampleAccounting.Min(g.maxNumberOfSamples - total, g.numberOfSamples)
  }

  /** `acc`: accumulate only while showing the plain image and not animating. */
  predicate Acc(g: Gui) { g.acc && !IsMapping(g) && !g.animation }

  /** `get_bounce`: a single bounce for the ray-query views. */
  function GetBounce(g: Gui): (r: nat)
    ensures RayQuery(g) ==> r == 1
    ensures !RayQuery(g) ==> r == g.numberOfBounces
  {
    if RayQuery(g) then 1 else g.numberOfBounces
  }

  /** How the derived switches relate: ray-query views are debug views, the heat
      map is the one debug view without ray queries, and accumulation happens only
      for the plain image. The defaults show the plain image, accumulate, and use
      five bounces. */
  lemma DerivedSwitches(g: Gui)
    ensures RayQuery(g) ==> IsMapping(g)
    ensures IsMapping(g) && !RayQuery(g) <==> g.mapping == HEAT
    ensures Acc(g) ==> g.mapping == RENDER && g.acc
    ensures IsMapping(g) <==> MappingCode(g.mapping) != 0
    ensures !IsMapping(NewGui()) && Acc(NewGui()) && GetBounce(NewGui()) == 5
  {
  }
}
