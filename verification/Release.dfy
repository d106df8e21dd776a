/** Cube releases and inclusive ranges of them (crates/stm32wb-catalog/src/release.rs). */
module Release {
  import opened Layout

  datatype Version = Version(major: u16, minor: u16, patch: u16)

  /** The derived order: by major, then minor, then patch number. */
  predicate Before(a: Version, b: Version) {
    || a.major < b.major
    || (a.major == b.major && a.minor < b.minor)
    || (a.major == b.major && a.minor == b.minor && a.patch < b.patch)
  }

  predicate AtMost(a: Version, b: Version) {
    a == b || Before(a, b)
  }

  /** A release as one number, its parts as digits. */
  function Number(version: Version): nat {
    version.major * 0x1_0000_0000 + version.minor * 0x1_0000 + version.patch
  }

  /** A major number outweighs every minor one, and a minor number every patch. */
  lemma {:induction false} OrderedByNumber(a: Version, b: Version)
    ensures Before(a, b) <==>
            a.major * 0x1_0000_0000 + a.minor * 0x1_0000 + a.patch < b.major * 0x1_0000_0000 + b.minor * 0x1_0000 + b.patch
    ensures Before(a, b) <==> Number(a) < Number(b)
    ensures AtMost(a, b) <==> Number(a) <= Number(b)
  {
  }

  datatype Range = Range(first: Version, last: Version) {
    predicate Contains(version: Version) {
      AtMost(first, version) && AtMost(version, last)
    }

    predicate Overlaps(other: Range) {
      AtMost(first, other.last) && AtMost(other.first, last)
    }
  }

  /** A fact holding over a range of releases. */
  datatype Ranged<T> = Ranged(releases: Range, fact: T)

  /** A range holds the releases between its ends, and the ends. */
  lemma {:induction false} ContainedByNumber(range: Range, other: Range, version: Version)
    ensures range.Contains(version) <==> Number(range.first) <= Number(version) <= Number(range.last)
    ensures Number(range.first) <= Number(range.last) && Number(other.first) <= Number(other.last) ==>
              (range.Overlaps(other) <==> exists shared :: range.Contains(shared) && other.Contains(shared))
  {
    OrderedByNumber(range.first, version);
    OrderedByNumber(version, range.last);
    OrderedByNumber(range.first, other.last);
    OrderedByNumber(other.first, range.last);
    OrderedByNumber(other.first, range.first);
    if range.Overlaps(other) && Number(range.first) <= Number(range.last) && Number(other.first) <= Number(other.last) {
      var shared := if Number(range.first) <= Number(other.first) then other.first else range.first;
      assert range.Contains(shared) && other.Contains(shared);
    }
  }

  predicate Ascending(versions: seq<Version>) {
    forall i, j | 0 <= i < j < |versions| :: Before(versions[i], versions[j])
  }

  lemma {:induction false} OrderByIndex(versions: seq<Version>, i: nat, j: nat)
    requires Ascending(versions) && i < |versions| && j < |versions|
    ensures AtMost(versions[i], versions[j]) <==> i <= j
    ensures versions[i] == versions[j] <==> i == j
  {
    if i < j {
      assert Before(versions[i], versions[j]);
    } else if j < i {
      assert Before(versions[j], versions[i]);
    }
  }
}
