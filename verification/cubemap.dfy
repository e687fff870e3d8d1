/** The skybox loader: six face images found by file name, ordered by face and
    concatenated into one upload buffer. Reading the directory and decoding the
    image files are parameters. */
module Cubemap {
  import opened Wrappers
  import opened Pixels
  import Textures
  import Sorting
  import opened Bits

  /** The six cube faces in layer order. */
  datatype Face = PosX | NegX | PosY | NegY | PosZ | NegZ

  function FaceIndex(f: Face): (r: nat)
    ensures r < 6
  {
    match f
    case PosX => 0
    case NegX => 1
    case PosY => 2
    case NegY => 3
    case PosZ => 4
    case NegZ => 5
  }

  /** The variant name `Face::from_str` accepts. */
  function FaceName(f: Face): string {
    match f
    case PosX => "posx"
    case NegX => "negx"
    case PosY => "posy"
    case NegY => "negy"
    case PosZ => "posz"
    case NegZ => "negz"
  }

  /** The face a file stem names: one of the variant names, or one of the
      synonyms `right`, `left`, `top`, `bottom`, `front`, `back`. */
  function FaceOfStem(stem: string): (r: Option<Face>)
    ensures forall f: Face :: stem == FaceName(f) ==> r == Some(f)
  {
    if stem == "posx" || stem == "right" then Some(PosX)
    else if stem == "negx" || stem == "left" then Some(NegX)
    else if stem == "posy" || stem == "top" then Some(PosY)
    else if stem == "negy" || stem == "bottom" then Some(NegY)
    else if stem == "posz" || stem == "front" then Some(PosZ)
    else if stem == "negz" || stem == "back" then Some(NegZ)
    else None
  }

  /** The part of a file name before its first '.', or the whole name. */
  function Stem(name: string): (r: string)
    ensures r <= name
    ensures '.' !in r
    ensures |r| < |name| ==> name[|r|] == '.'
  {
    if |name| == 0 || name[0] == '.' then []
    else [name[0]] + Stem(name[1..])
  }

  datatype SkyBoxError = UnknownFace(name: string) | LoadFailed(message: string) | MissingImage

  /** `Face::get_index`: the layer of a file, or the `unimplemented!` panic for a
      name that is no face. */
  function GetIndex(name: string): (r: Result<nat, SkyBoxError>)
    ensures r.Success? <==> FaceOfStem(Stem(name)).Some?
    ensures r.Success? ==> r.value == FaceIndex(FaceOfStem(Stem(name)).value) && r.value < 6
  {
    match FaceOfStem(Stem(name))
    case Some(f) => Success(FaceIndex(f))
    case None => Failure(UnknownFace(name))
  }

  /** Sort key for names already known to be faces. */
  function FaceKey(name: string): nat {
    match GetIndex(name)
    case Success(i) => i
    case Failure(_) => 0
  }

  /** The first name that is no face, if any. */
  function FirstUnknown(names: seq<string>): (r: Option<string>)
    ensures r.None? <==> forall i :: 0 <= i < |names| ==> GetIndex(names[i]).Success?
    ensures r.Some? ==> r.value in names && GetIndex(r.value).Failure?
  {
    if |names| == 0 then None
    else if GetIndex(names[0]).Failure? then Some(names[0])
    else
      assert forall i :: 1 <= i < |names| ==> names[i] == names[1..][i - 1];
      FirstUnknown(names[1..])
  }

  /** `sort_by_key` with `Face::get_index` as the key: with two or more entries
      every key is computed, so one name that is no face aborts; a single entry
      is never compared. */
  function SortEntries(names: seq<string>): (r: Result<seq<string>, SkyBoxError>)
    ensures r.Success? <==> |names| <= 1 || forall i :: 0 <= i < |names| ==> GetIndex(names[i]).Success?
    ensures r.Success? ==> multiset(r.value) == multiset(names) && Sorting.SortedBy(r.value, FaceKey)
  {
    if |names| <= 1 then Success(names)
    else if FirstUnknown(names).Some? then
      Failure(UnknownFace(FirstUnknown(names).value))
    else
      Sorting.SortCorrect(names, FaceKey);
      Success(Sorting.SortByKey(names, FaceKey))
  }

  /** The images in order, or the first loading error. */
  function LoadAll(names: seq<string>, load: string -> Result<Image, string>): (r: Result<seq<Image>, SkyBoxError>)
    ensures r.Success? <==> forall i :: 0 <= i < |names| ==> load(names[i]).Success?
    ensures r.Success? ==> |r.value| == |names| && forall i :: 0 <= i < |names| ==> r.value[i] == load(names[i]).value
  {
    if |names| == 0 then Success([])
    else
      match load(names[0])
      case Failure(e) => Failure(LoadFailed(e))
      case Success(img) =>
        var rest :- LoadAll(names[1..], load);
        assert forall i :: 1 <= i < |names| ==> names[i] == names[1..][i - 1];
        Success([img] + rest)
  }

  /** All pixel bytes of the images, one after the other. */
  function Collect(images: seq<Image>): (r: seq<Byte>)
    ensures |images| > 0 ==> |images[0].pixels| <= |r| && r[..|images[0].pixels|] == images[0].pixels
  {
    if |images| == 0 then [] else images[0].pixels + Collect(images[1..])
  }

  /** `get_total_size`: the summed pixel byte counts. */
  function TotalSize(images: seq<Image>): (r: nat)
    ensures |images| > 0 ==> |images[0].pixels| <= r
  {
    if |images| == 0 then 0 else |images[0].pixels| + TotalSize(images[1..])
  }

  /** The total bounds every image's size, and is zero exactly when every
      image is empty. */
  lemma {:induction false} TotalSizeBounds(images: seq<Image>)
    ensures forall i :: 0 <= i < |images| ==> |images[i].pixels| <= TotalSize(images)
    ensures TotalSize(images) == 0 <==> forall i :: 0 <= i < |images| ==> |images[i].pixels| == 0
    decreases |images|
  {
    if |images| > 0 {
      TotalSizeBounds(images[1..]);
      assert forall i :: 1 <= i < |images| ==> images[i] == images[1..][i - 1];
    }
  }

  /** The upload buffer holds exactly the bytes `get_total_size` reports, and
      image `i` starts after the bytes of the images before it. */
  lemma CollectSize(images: seq<Image>)
    ensures |Collect(images)| == TotalSize(images)
    ensures forall i :: 0 <= i < |images| ==>
      TotalSize(images[..i]) + |images[i].pixels| <= |Collect(images)|
      && Collect(images)[TotalSize(images[..i])..TotalSize(images[..i]) + |images[i].pixels|] == images[i].pixels
  {
    CollectLength(images);
    forall i | 0 <= i < |images|
      ensures TotalSize(images[..i]) + |images[i].pixels| <= |Collect(images)|
      ensures Collect(images)[TotalSize(images[..i])..TotalSize(images[..i]) + |images[i].pixels|] == images[i].pixels
    {
      CollectAt(images, i);
    }
  }

  lemma {:induction false} CollectLength(images: seq<Image>)
    ensures |Collect(images)| == TotalSize(images)
    decreases |images|
  {
    if |images| > 0 {
      CollectLength(images[1..]);
    }
  }

  /** Image `i` sits in the buffer at the summed size of the images before it. */
  lemma {:induction false} CollectAt(images: seq<Image>, i: nat)
    requires i < |images|
    ensures TotalSize(images[..i]) + |images[i].pixels| <= |Collect(images)|
    ensures Collect(images)[TotalSize(images[..i])..TotalSize(images[..i]) + |images[i].pixels|] == images[i].pixels
    decreases i
  {
    if i == 0 {
      assert images[..0] == [];
    } else {
      var rest := images[1..];
      CollectAt(rest, i - 1);
      assert images[..i][1..] == rest[..i - 1];
      assert rest[i - 1] == images[i];
      assert TotalSize(images[..i]) == |images[0].pixels| + TotalSize(rest[..i - 1]);
      assert Collect(images) == images[0].pixels + Collect(rest);
      SliceOfConcat(images[0].pixels, Collect(rest), TotalSize(rest[..i - 1]), |images[i].pixels|);
    }
  }

  lemma SliceOfConcat(a: seq<Byte>, b: seq<Byte>, at: nat, n: nat)
    requires at + n <= |b|
    ensures (a + b)[|a| + at..|a| + at + n] == b[at..at + n]
  {
  }

  /** Image `i`'s pixels sit in `buf` right after the bytes of the images
      before it. */
  ghost predicate Placed(images: seq<Image>, buf: seq<Byte>) {
    forall i :: 0 <= i < |images| ==>
      var at := TotalSize(images[..i]);
      at + |images[i].pixels| <= |buf| && buf[at..at + |images[i].pixels|] == images[i].pixels
  }

  /** The concatenated buffer has the total size and places every image. */
  lemma CollectPlaced(images: seq<Image>)
    ensures |Collect(images)| == TotalSize(images) && Placed(images, Collect(images))
  {
    CollectSize(images);
  }

  datatype SkyBox = SkyBox(images: seq<Image>, sampler: Textures.Sampler, collector: seq<Byte>)

  /** `SkyBox::new`: sort the directory entries by face, load every image
      (the first failure aborts) and concatenate their pixels; the sampler is
      the default one. It succeeds exactly when every entry names a face (or
      there is at most one) and every sorted entry loads; the upload buffer
      then holds image `i`'s pixels after those of the images before it. */
  function SkyBoxNew(names: seq<string>, load: string -> Result<Image, string>): (r: Result<SkyBox, SkyBoxError>)
    ensures r.Success? <==> SortEntries(names).Success? && LoadAll(SortEntries(names).value, load).Success?
    ensures r.Success? ==> LoadAll(SortEntries(names).value, load) == Success(r.value.images)
    ensures r.Success? ==> |r.value.images| == |names| && |r.value.collector| == TotalSize(r.value.images)
    ensures r.Success? ==> r.value.collector == Collect(r.value.images)
    ensures r.Success? ==> Placed(r.value.images, r.value.collector)
    ensures r.Success? ==> r.value.sampler == Textures.DefaultSampler()
  {
    var sorted :- SortEntries(names);
    assert |sorted| == |multiset(sorted)| == |names|;
    var images :- LoadAll(sorted, load);
    CollectPlaced(images);
    Success(SkyBox(images, Textures.DefaultSampler(), Collect(images)))
  }

  /** `get_extents`: the width of the first image and the height of the second;
      fewer than two images is an index panic. */
  function GetExtents(s: SkyBox): (r: Result<(nat, nat), SkyBoxError>)
    ensures r.Success? <==> |s.images| >= 2
    ensures r.Success? ==> r.value.0 == s.images[0].width && r.value.1 == s.images[1].height
  {
    if |s.images| < 2 then Failure(MissingImage) else Success((s.images[0].width, s.images[1].height))
  }

  /** The extent the call evidently means: both sides of the first face. */
  function GetExtentsFixed(s: SkyBox): (r: Result<(nat, nat), SkyBoxError>)
    ensures r.Success? <==> |s.images| >= 1
    ensures r.Success? ==> r.value == (s.images[0].width, s.images[0].height)
  {
    if |s.images| < 1 then Failure(MissingImage) else Success((s.images[0].width, s.images[0].height))
  }

  /** A skybox of one face has an extent, but `get_extents` as written
      indexes the missing second image; wherever both succeed and the faces
      agree in height they return the same extent. */
  lemma ExtentsDisagree(img: Image)
    ensures GetExtents(SkyBox([img], Textures.DefaultSampler(), img.pixels)).Failure?
    ensures GetExtentsFixed(SkyBox([img], Textures.DefaultSampler(), img.pixels)) == Success((img.width, img.height))
  {
  }

  lemma ExtentsAgreeOnSquareSets(s: SkyBox)
    requires |s.images| >= 2 && s.images[1].height == s.images[0].height
    ensures GetExtents(s) == GetExtentsFixed(s)
  {
  }

  /** `get_gamma`: the gamma of the first face; no face is an index panic. */
  function GetGamma(s: SkyBox): (r: Result<TexGamma, SkyBoxError>)
    ensures r.Success? <==> |s.images| >= 1
    ensures r.Success? ==> r.value == s.images[0].gamma
  {
    if |s.images| == 0 then Failure(MissingImage) else Success(s.images[0].gamma)
  }

  /** Every face is found by its variant name and by its synonym, with or
      without an extension, and lands on its own layer. */
  lemma FaceNamesResolve(f: Face, ext: string)
    ensures GetIndex(FaceName(f) + "." + ext) == Success(FaceIndex(f))
    ensures GetIndex(FaceName(f)) == Success(FaceIndex(f))
  {
    StemOfDotted(FaceName(f), ext);
    StemOfDotted(FaceName(f), []);
    assert Stem(FaceName(f)) == FaceName(f) by {
      StemOfDotted(FaceName(f), []);
      assert Stem(FaceName(f) + "." + []) == FaceName(f);
    }
  }

  lemma {:induction false} StemOfDotted(base: string, ext: string)
    requires '.' !in base
    ensures Stem(base + "." + ext) == base
    ensures Stem(base) == base
    decreases |base|
  {
    if |base| > 0 {
      assert (base + "." + ext)[1..] == base[1..] + "." + ext;
      StemOfDotted(base[1..], ext);
      assert base == [base[0]] + base[1..];
    } else {
      assert (base + "." + ext)[0] == '.';
    }
  }

  /** Distinct faces get distinct layers, so a directory of the six faces
      sorts into layer order without ties. */
  lemma FaceIndexInjective(f: Face, g: Face)
    ensures FaceIndex(f) == FaceIndex(g) <==> f == g
  {
  }
}
