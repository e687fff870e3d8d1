/** Textures and samplers of the asset loader. Slot 0 of the loader's sampler
    list is a default sampler, so every glTF sampler index is shifted by one. */
module Textures {
  import opened Wrappers
  import G = GltfDocument

  datatype MagFilter = Nearest | Linear

  datatype MinFilter =
    | Nearest | Linear
    | NearestMipmapNearest | LinearMipmapNearest | NearestMipmapLinear | LinearMipmapLinear

  datatype WrapMode = ClampToEdge | MirroredRepeat | Repeat

  /** A loader texture; `index` is its slot in the loader's texture list,
      where slot 0 holds the default texture and glTF texture `i` sits in
      slot `i + 1`. */
  datatype Texture = Texture(index: nat, imageIndex: nat, textureIndex: nat, samplerIndex: nat, name: Option<string>)

  datatype Sampler = Sampler(magFilter: MagFilter, minFilter: MinFilter, wrapS: WrapMode, wrapT: WrapMode, index: nat)

  /** Slot 0: linear magnification, trilinear minification, repeat in both
      directions. */
  function DefaultSampler(): (r: Sampler)
    ensures r.index == 0 && r.magFilter == MagFilter.Linear && r.minFilter == LinearMipmapLinear
    ensures r.wrapS == WrapMode.Repeat && r.wrapT == WrapMode.Repeat
  {
    Sampler(MagFilter.Linear, LinearMipmapLinear, WrapMode.Repeat, WrapMode.Repeat, 0)
  }

  /** Where a glTF sampler reference lands in the loader's sampler list:
      `map_or(0, |i| i + 1)`. */
  function SamplerSlot(sampler: Option<nat>): (r: nat)
    ensures r == 0 <==> sampler.None?
    ensures sampler.Some? ==> r == sampler.value + 1
  {
    match sampler
    case None => 0
    case Some(i) => i + 1
  }

  /** The glTF sampler reference a slot stands for. */
  function SlotSampler(slot: nat): (r: Option<nat>)
    ensures r.None? <==> slot == 0
  {
    if slot == 0 then None else Some(slot - 1)
  }

  /** Slots and sampler references are in one-to-one correspondence. */
  lemma SlotRoundTrip(sampler: Option<nat>, slot: nat)
    ensures SlotSampler(SamplerSlot(sampler)) == sampler
    ensures SamplerSlot(SlotSampler(slot)) == slot
  {
  }

  function MagFrom(f: G.MagFilter): MagFilter {
    match f
    case Nearest => MagFilter.Nearest
    case Linear => MagFilter.Linear
  }

  function MinFrom(f: G.MinFilter): MinFilter {
    match f
    case Nearest => MinFilter.Nearest
    case Linear => MinFilter.Linear
    case NearestMipmapNearest => NearestMipmapNearest
    case LinearMipmapNearest => LinearMipmapNearest
    case NearestMipmapLinear => NearestMipmapLinear
    case LinearMipmapLinear => LinearMipmapLinear
  }

  function WrapFrom(w: G.WrappingMode): WrapMode {
    match w
    case ClampToEdge => ClampToEdge
    case MirroredRepeat => MirroredRepeat
    case Repeat => WrapMode.Repeat
  }

  /** The glTF filter and wrapping names, as an independent reference for the
      conversions. */
  function MagName(f: G.MagFilter): string {
    match f
    case Nearest => "Nearest"
    case Linear => "Linear"
  }

  function MinName(f: G.MinFilter): string {
    match f
    case Nearest => "Nearest"
    case Linear => "Linear"
    case NearestMipmapNearest => "NearestMipmapNearest"
    case LinearMipmapNearest => "LinearMipmapNearest"
    case NearestMipmapLinear => "NearestMipmapLinear"
    case LinearMipmapLinear => "LinearMipmapLinear"
  }

  function WrapName(w: G.WrappingMode): string {
    match w
    case ClampToEdge => "ClampToEdge"
    case MirroredRepeat => "MirroredRepeat"
    case Repeat => "Repeat"
  }

  function LoaderMagName(f: MagFilter): string {
    match f
    case Nearest => "Nearest"
    case Linear => "Linear"
  }

  function LoaderMinName(f: MinFilter): string {
    match f
    case Nearest => "Nearest"
    case Linear => "Linear"
    case NearestMipmapNearest => "NearestMipmapNearest"
    case LinearMipmapNearest => "LinearMipmapNearest"
    case NearestMipmapLinear => "NearestMipmapLinear"
    case LinearMipmapLinear => "LinearMipmapLinear"
  }

  function LoaderWrapName(w: WrapMode): string {
    match w
    case ClampToEdge => "ClampToEdge"
    case MirroredRepeat => "MirroredRepeat"
    case Repeat => "Repeat"
  }

  /** Every conversion keeps the variant's name, and is therefore one-to-one. */
  lemma ConversionsKeepVariant(m1: G.MagFilter, m2: G.MagFilter, n1: G.MinFilter, n2: G.MinFilter,
                               w1: G.WrappingMode, w2: G.WrappingMode)
    ensures LoaderMagName(MagFrom(m1)) == MagName(m1)
    ensures LoaderMinName(MinFrom(n1)) == MinName(n1)
    ensures LoaderWrapName(WrapFrom(w1)) == WrapName(w1)
    ensures MagFrom(m1) == MagFrom(m2) ==> m1 == m2
    ensures MinFrom(n1) == MinFrom(n2) ==> n1 == n2
    ensures WrapFrom(w1) == WrapFrom(w2) ==> w1 == w2
  {
  }

  /** `Texture::default()`, slot 0 of the loader's texture list: every
      index zero, no name. */
  function DefaultTexture(): (r: Texture)
    ensures r.index == 0 && r.imageIndex == 0 && r.textureIndex == 0 && r.samplerIndex == 0 && r.name.None?
  {
    Texture(0, 0, 0, 0, None)
  }

  /** `Texture::from(gltf::Texture)`. */
  function TextureFrom(t: G.Texture): (r: Texture)
    ensures r.imageIndex == t.source && r.textureIndex == t.index && r.name == t.name
    ensures r.index == t.index + 1 && r.index != DefaultTexture().index
    ensures SlotSampler(r.samplerIndex) == t.sampler
  {
    Texture(t.index + 1, t.source, t.index, SamplerSlot(t.sampler), t.name)
  }

  /** `Texture::from` with the image reference shifted past the default
      image in slot 0 of the loader's image list, as the sampler reference
      is shifted past the default sampler. */
  function TextureFromShifted(t: G.Texture): (r: Texture)
    ensures r.imageIndex == t.source + 1 && r.textureIndex == t.index && r.name == t.name
    ensures r.index == t.index + 1
    ensures SlotSampler(r.samplerIndex) == t.sampler
    ensures r == TextureFrom(t).(imageIndex := TextureFrom(t).imageIndex + 1)
  {
    Texture(t.index + 1, t.source + 1, t.index, SamplerSlot(t.sampler), t.name)
  }

  /** `Sampler::from(gltf::texture::Sampler)`: missing filters become linear. */
  function SamplerFrom(s: G.Sampler): (r: Sampler)
    ensures s.magFilter.None? ==> r.magFilter == MagFilter.Linear
    ensures s.minFilter.None? ==> r.minFilter == MinFilter.Linear
    ensures s.magFilter.Some? ==> LoaderMagName(r.magFilter) == MagName(s.magFilter.value)
    ensures s.minFilter.Some? ==> LoaderMinName(r.minFilter) == MinName(s.minFilter.value)
    ensures LoaderWrapName(r.wrapS) == WrapName(s.wrapS) && LoaderWrapName(r.wrapT) == WrapName(s.wrapT)
    ensures SlotSampler(r.index) == s.index
  {
    Sampler(MagFrom(s.magFilter.GetOr(G.MagFilter.Linear)),
            MinFrom(s.minFilter.GetOr(G.MinFilter.Linear)),
            WrapFrom(s.wrapS), WrapFrom(s.wrapT), SamplerSlot(s.index))
  }
}

/** Textures and samplers of the simple glTF loader: the same conversions
    without the loader's own indices and names. */
module GltfTextures {
  import opened Wrappers
  import G = GltfDocument
  import T = Textures

  datatype Texture = Texture(imageIndex: nat, samplerIndex: nat)

  datatype Sampler = Sampler(magFilter: T.MagFilter, minFilter: T.MinFilter, wrapS: T.WrapMode, wrapT: T.WrapMode)

  function TextureFrom(t: G.Texture): (r: Texture)
    ensures r.imageIndex == t.source
    ensures t.sampler.None? ==> r.samplerIndex == 0
    ensures t.sampler.Some? ==> r.samplerIndex == t.sampler.value + 1
  {
    Texture(t.source, T.SamplerSlot(t.sampler))
  }

  function SamplerFrom(s: G.Sampler): (r: Sampler)
    ensures s.magFilter.None? ==> r.magFilter == T.MagFilter.Linear
    ensures s.minFilter.None? ==> r.minFilter == T.MinFilter.Linear
  {
    Sampler(T.MagFrom(s.magFilter.GetOr(G.MagFilter.Linear)),
            T.MinFrom(s.minFilter.GetOr(G.MinFilter.Linear)),
            T.WrapFrom(s.wrapS), T.WrapFrom(s.wrapT))
  }

  /** The default sampler the glTF loader puts in slot 0. */
  function DefaultSampler(): (r: Sampler)
    ensures r.magFilter == T.DefaultSampler().magFilter && r.minFilter == T.DefaultSampler().minFilter
    ensures r.wrapS == T.WrapMode.Repeat && r.wrapT == T.WrapMode.Repeat
  {
    Sampler(T.MagFilter.Linear, T.LinearMipmapLinear, T.WrapMode.Repeat, T.WrapMode.Repeat)
  }

  /** Both crates convert a texture and a sampler the same way, apart from the
      fields only the asset loader keeps. */
  lemma CratesAgree(t: G.Texture, s: G.Sampler)
    ensures TextureFrom(t).imageIndex == T.TextureFrom(t).imageIndex
    ensures TextureFrom(t).samplerIndex == T.TextureFrom(t).samplerIndex
    ensures var a := SamplerFrom(s); var b := T.SamplerFrom(s);
      a.magFilter == b.magFilter && a.minFilter == b.minFilter && a.wrapS == b.wrapS && a.wrapT == b.wrapT
  {
  }
}
