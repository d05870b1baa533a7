/** The release helper `scripts/version-bump.js`: the bump kind taken from the
    command line, the semantic version arithmetic, the version text, and the
    iOS and Android build numbers. Reading and writing the JSON files and the
    git commands are I/O and stay outside the model. */
module VersionBump {
  import opened Wrappers
  import opened Text

  datatype BumpKind = Major | Minor | Patch

  const BadBumpType: string := "Error: Bump type must be either \"major\", \"minor\", or \"patch\""

  /** `process.argv[2] || 'patch'`, then the check against the three kinds
      (anything else exits with status 1). */
  function ParseBumpKind(arg: Option<string>): (r: Result<BumpKind>)
    ensures arg.None? || arg.value == "" ==> r == Ok(Patch)
    ensures r.Err? ==> r.error == BadBumpType
    ensures r.Ok? && r.value == Major <==> arg == Some("major")
    ensures r.Ok? && r.value == Minor <==> arg == Some("minor")
    ensures r.Ok? <==> arg.None? || arg.value in {"", "major", "minor", "patch"}
  {
    var t := if arg.None? || arg.value == "" then "patch" else arg.value;
    if t == "major" then Ok(Major)
    else if t == "minor" then Ok(Minor)
    else if t == "patch" then Ok(Patch)
    else Err(BadBumpType)
  }

  /** A `major.minor.patch` version. */
  datatype Version = Version(major: nat, minor: nat, patch: nat)

  /** Semantic-version order: lexicographic on the three numbers. */
  predicate Before(a: Version, b: Version) {
    || a.major < b.major
    || (a.major == b.major && a.minor < b.minor)
    || (a.major == b.major && a.minor == b.minor && a.patch < b.patch)
  }

  /** The `switch (bumpType)`: the chosen number goes up by one and the
      numbers after it go to zero. */
  function Bump(v: Version, kind: BumpKind): (r: Version)
    ensures kind == Major ==> r == Version(v.major + 1, 0, 0)
    ensures kind == Minor ==> r == Version(v.major, v.minor + 1, 0)
    ensures kind == Patch ==> r == Version(v.major, v.minor, v.patch + 1)
  {
    match kind
    case Major => Version(v.major + 1, 0, 0)
    case Minor => Version(v.major, v.minor + 1, 0)
    case Patch => v.(patch := v.patch + 1)
  }

  /** Every bump gives a strictly later version, and no version lies between
      the old one and the bumped one at the bumped position. */
  lemma BumpIncreases(v: Version, kind: BumpKind)
    ensures Before(v, Bump(v, kind))
    ensures !Before(Bump(v, kind), v)
    ensures kind == Patch ==> forall w :: Before(v, w) && w.major == v.major && w.minor == v.minor ==>
      !Before(w, Bump(v, kind))
  {
  }

  /** A number as the script holds it: a value, `NaN` (what `parseInt` gives
      for text without leading digits, and what arithmetic on it gives), or
      `undefined` (a destructured part the version text does not have). */
  datatype Num = Int(value: nat) | NaN | Undefined

  /** `x += 1`: `NaN + 1` and `undefined + 1` are both `NaN`. */
  function Inc(x: Num): (r: Num)
    ensures r.Int? <==> x.Int?
    ensures x.Int? ==> r.value == x.value + 1
  {
    if x.Int? then Int(x.value + 1) else NaN
  }

  /** `${x}`. */
  function Show(x: Num): (r: string)
    ensures r != [] && '.' !in r
    ensures ParseInt(r) == if x.Int? then Some(x.value) else None
  {
    match x
    case Int(n) =>
      NoDotInNumber(n);
      ParseIntOfNat(n);
      NatToString(n)
    case NaN => "NaN"
    case Undefined => "undefined"
  }

  /** The three destructured numbers. */
  datatype Parts = Parts(major: Num, minor: Num, patch: Num)

  function PartsOf(v: Version): Parts {
    Parts(Int(v.major), Int(v.minor), Int(v.patch))
  }

  /** `parseInt(parts[i], 10)`, or `undefined` past the end of `parts`. */
  function PartAt(parts: seq<string>, i: nat): (r: Num)
    ensures r == Undefined <==> i >= |parts|
    ensures r.Int? <==> i < |parts| && ParseInt(parts[i]).Some?
    ensures r.Int? ==> r.value == ParseInt(parts[i]).value
  {
    if i >= |parts| then Undefined
    else match ParseInt(parts[i])
      case Some(n) => Int(n)
      case None => NaN
  }

  /** `currentVersion.split('.').map(num => parseInt(num, 10))` destructured
      into three numbers; parts after the third are ignored. */
  function ParseParts(text: string): (r: Parts)
    ensures r.major != Undefined
    ensures r.minor == Undefined <==> |Split(text, '.')| < 2
    ensures r.patch == Undefined <==> |Split(text, '.')| < 3
  {
    var parts := Split(text, '.');
    Parts(PartAt(parts, 0), PartAt(parts, 1), PartAt(parts, 2))
  }

  /** A version whose three parts are numbers. */
  function ParseVersion(text: string): (r: Option<Version>)
    ensures r.Some? <==> ParseParts(text).major.Int? && ParseParts(text).minor.Int? && ParseParts(text).patch.Int?
    ensures r.Some? ==> |Split(text, '.')| >= 3 && PartsOf(r.value) == ParseParts(text)
  {
    var p := ParseParts(text);
    if p.major.Int? && p.minor.Int? && p.patch.Int? then Some(Version(p.major.value, p.minor.value, p.patch.value))
    else None
  }

  /** The `switch (bumpType)` on the destructured numbers: the chosen one is
      incremented and the ones after it are set to 0. */
  function BumpParts(p: Parts, kind: BumpKind): Parts {
    match kind
    case Major => Parts(Inc(p.major), Int(0), Int(0))
    case Minor => p.(minor := Inc(p.minor), patch := Int(0))
    case Patch => p.(patch := Inc(p.patch))
  }

  /** On numbers the script's switch is the version bump. */
  lemma BumpPartsAgrees(v: Version, kind: BumpKind)
    ensures BumpParts(PartsOf(v), kind) == PartsOf(Bump(v, kind))
  {
  }

  /** `${newMajor}.${newMinor}.${newPatch}`. */
  function FormatParts(p: Parts): (r: string)
    ensures '.' in r
  {
    var r := Show(p.major) + "." + Show(p.minor) + "." + Show(p.patch);
    assert r[|Show(p.major)|] == '.';
    r
  }

  /** The version line of line 48 for a well-formed version. */
  function FormatVersion(v: Version): (r: string)
    ensures '.' in r
  {
    FormatParts(PartsOf(v))
  }

  /** The decimal form has no dot. */
  lemma NoDotInNumber(n: nat)
    ensures '.' !in NatToString(n)
  {
    var d := NatToString(n);
    assert forall i :: 0 <= i < |d| ==> d[i] != '.';
  }

  /** What reading a written number gives: `undefined` is written as text
      that reads back as `NaN`. */
  function Reread(x: Num): Num {
    if x == Undefined then NaN else x
  }

  /** Reading back the written version gives its numbers, with a written
      `undefined` read as `NaN`. */
  lemma ParseFormatParts(p: Parts)
    ensures |Split(FormatParts(p), '.')| == 3
    ensures ParseParts(FormatParts(p)) == Parts(Reread(p.major), Reread(p.minor), Reread(p.patch))
  {
    var parts := [Show(p.major), Show(p.minor), Show(p.patch)];
    assert Join(parts, '.') == FormatParts(p) by {
      assert Join(parts[1..], '.') == Show(p.minor) + "." + Show(p.patch) by {
        assert parts[1..][1..] == [Show(p.patch)];
      }
    }
    SplitJoin(parts, '.');
  }

  /** Reading back a written version gives the version. */
  lemma ParseFormatVersion(v: Version)
    ensures ParseVersion(FormatVersion(v)) == Some(v)
  {
    ParseFormatParts(PartsOf(v));
  }

  /** The whole version step on the text of `package.json`: the written text
      always has three parts, and on a well-formed version it is the bumped
      version. */
  function BumpVersionText(current: string, kind: BumpKind): (r: string)
    ensures |Split(r, '.')| == 3
    ensures ParseVersion(current).Some? ==>
      && r == FormatVersion(Bump(ParseVersion(current).value, kind))
      && ParseVersion(r) == Some(Bump(ParseVersion(current).value, kind))
  {
    var p := ParseParts(current);
    var q := BumpParts(p, kind);
    ParseFormatParts(q);
    WellFormedBump(current, kind);
    FormatParts(q)
  }

  /** A part of the written version is a number exactly when it was one
      before or the bump set it to 0; a missing or non-numeric part is never
      repaired by incrementing it. */
  lemma BumpKeepsNumbers(current: string, kind: BumpKind)
    ensures var r := ParseParts(BumpVersionText(current, kind));
      && (r.major.Int? <==> ParseParts(current).major.Int?)
      && (r.minor.Int? <==> kind == Major || ParseParts(current).minor.Int?)
      && (r.patch.Int? <==> kind != Patch || ParseParts(current).patch.Int?)
  {
    ParseFormatParts(BumpParts(ParseParts(current), kind));
  }

  /** On a well-formed version the script writes the bumped version. */
  lemma WellFormedBump(current: string, kind: BumpKind)
    ensures ParseVersion(current).Some? ==>
      var v := ParseVersion(current).value;
      && FormatParts(BumpParts(ParseParts(current), kind)) == FormatVersion(Bump(v, kind))
      && ParseVersion(FormatVersion(Bump(v, kind))) == Some(Bump(v, kind))
  {
    if ParseVersion(current).Some? {
      BumpPartsAgrees(ParseVersion(current).value, kind);
      ParseFormatVersion(Bump(ParseVersion(current).value, kind));
    }
  }

  /** A major or minor bump of `a.b` overwrites the undefined patch with 0. */
  lemma TwoPartReset(a: nat, b: nat, kind: BumpKind)
    requires kind != Patch
    ensures BumpVersionText(NatToString(a) + "." + NatToString(b), kind) == FormatVersion(Bump(Version(a, b, 0), kind))
  {
    TwoParts(a, b);
    BumpPartsAgrees(Version(a, b, 0), kind);
  }

  /** A patch bump of `a.b` increments `undefined`, which gives `NaN`. */
  lemma TwoPartPatch(a: nat, b: nat)
    ensures BumpVersionText(NatToString(a) + "." + NatToString(b), Patch) == NatToString(a) + "." + NatToString(b) + "." + "NaN"
  {
    TwoParts(a, b);
    assert Show(NaN) == "NaN";
  }

  /** `a.b` reads as `a`, `b` and an undefined patch. */
  lemma TwoParts(a: nat, b: nat)
    ensures ParseParts(NatToString(a) + "." + NatToString(b)) == Parts(Int(a), Int(b), Undefined)
  {
    var parts := [NatToString(a), NatToString(b)];
    NoDotInNumber(a);
    NoDotInNumber(b);
    assert Join(parts, '.') == NatToString(a) + "." + NatToString(b) by {
      assert parts[1..] == [NatToString(b)];
    }
    SplitJoin(parts, '.');
    ParseIntOfNat(a);
    ParseIntOfNat(b);
  }

  /** Bumping twice by patch from a written version reads back as two patches up. */
  lemma PatchTwice(v: Version)
    ensures var once := BumpVersionText(FormatVersion(v), Patch);
      BumpVersionText(once, Patch) == FormatVersion(Version(v.major, v.minor, v.patch + 2))
  {
    var w := Bump(v, Patch);
    assert BumpVersionText(FormatVersion(v), Patch) == FormatVersion(w) by {
      ParseFormatVersion(v);
    }
    assert BumpVersionText(FormatVersion(w), Patch) == FormatVersion(Bump(w, Patch)) by {
      ParseFormatVersion(w);
    }
  }

  // ---------------------------------------------------------------- build numbers

  /** The iOS build number: `(parseInt(buildNumber || '1', 10) + 1).toString()`.
      A stored text that does not start with a digit parses as `NaN`, and the
      script writes the text "NaN" back. */
  function NextIosBuild(buildNumber: Option<string>): (r: string)
    ensures buildNumber.None? || buildNumber.value == "" ==> r == "2"
    ensures ParseInt(r).Some? <==> buildNumber.None? || buildNumber.value == "" || ParseInt(buildNumber.value).Some?
    ensures buildNumber.Some? && buildNumber.value != "" && ParseInt(buildNumber.value).Some? ==>
      ParseInt(r) == Some(ParseInt(buildNumber.value).value + 1)
    ensures buildNumber.Some? && buildNumber.value != "" && ParseInt(buildNumber.value).None? ==> r == "NaN"
  {
    var text := if buildNumber.None? || buildNumber.value == "" then "1" else buildNumber.value;
    match ParseInt(text)
    case None =>
      assert ParseInt("NaN") == None;
      Show(Inc(NaN))
    case Some(n) =>
      ParseIntOfNat(n + 1);
      assert ParseInt("1") == Some(1) by { ParseIntOfNat(1); }
      Show(Inc(Int(n)))
  }

  /** The Android version code: `(versionCode || 1) + 1`, kept a number. */
  function NextVersionCode(versionCode: Option<nat>): (r: nat)
    ensures r >= 2
    ensures versionCode.Some? && versionCode.value != 0 ==> r == versionCode.value + 1
    ensures versionCode.None? || versionCode.value == 0 ==> r == 2
  {
    (if versionCode.None? || versionCode.value == 0 then 1 else versionCode.value) + 1
  }

  /** Once the iOS build number is not a number, every later run writes
      "NaN" again: the script never repairs it. */
  lemma NaNBuildSticks(buildNumber: string)
    requires buildNumber != "" && ParseInt(buildNumber).None?
    ensures NextIosBuild(Some(buildNumber)) == "NaN"
    ensures NextIosBuild(Some(NextIosBuild(Some(buildNumber)))) == "NaN"
  {
    assert ParseInt("NaN") == None;
  }

  /** Each run raises both build numbers: successive runs never repeat one. */
  lemma BuildNumbersIncrease(code: nat, build: nat)
    ensures NextVersionCode(Some(NextVersionCode(Some(code)))) > NextVersionCode(Some(code))
    ensures ParseInt(NextIosBuild(Some(NextIosBuild(Some(NatToString(build)))))) == Some(build + 2)
  {
    ParseIntOfNat(build);
    var once := NextIosBuild(Some(NatToString(build)));
    assert ParseInt(once) == Some(build + 1);
    assert once != "";
  }
}
