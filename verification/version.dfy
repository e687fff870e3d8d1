/** The Vulkan API version the instance is created for. */
module Version {
  import opened Bits

  datatype Version = Version(variant: nat, major: nat, minor: nat, patch: nat)
  {
    predicate Valid() { IsU32(variant) && IsU32(major) && IsU32(minor) && IsU32(patch) }
  }

  /** `Version::default`: everything zero. */
  const ZERO := Version(0, 0, 0, 0)

  /** `Version::new` keeps its four arguments. */
  function NewVersion(variant: nat, major: nat, minor: nat, patch: nat): (r: Version)
    ensures r.variant == variant && r.major == major && r.minor == minor && r.patch == patch
  {
    Version(variant, major, minor, patch)
  }

  /** `Version::from_major`: the default version with the given major number. */
  function FromMajor(major: nat): (r: Version)
    ensures r == ZERO.(major := major)
  {
    Version(0, major, 0, 0)
  }

  /** `Version::from_major_minor`: the default version with the given major and
      minor numbers. */
  function FromMajorMinor(major: nat, minor: nat): (r: Version)
    ensures r == ZERO.(major := major, minor := minor)
  {
    Version(0, major, minor, 0)
  }

  const VERSION_1_0 := FromMajorMinor(1, 0)
  const VERSION_1_1 := FromMajorMinor(1, 1)
  const VERSION_1_2 := FromMajorMinor(1, 2)
  const VERSION_1_3 := FromMajorMinor(1, 3)

  /** The three constructors agree: a major-only version is the major/minor version
      with minor 0, which is `new` with variant and patch 0; the named constants are
      1.0 to 1.3 with variant and patch 0. */
  lemma ConstructorsAgree(major: nat, minor: nat)
    ensures FromMajor(major) == FromMajorMinor(major, 0)
    ensures FromMajorMinor(major, minor) == NewVersion(0, major, minor, 0)
    ensures forall m :: 0 <= m <= 3 ==>
      [VERSION_1_0, VERSION_1_1, VERSION_1_2, VERSION_1_3][m] == NewVersion(0, 1, m, 0)
  {
  }
}
