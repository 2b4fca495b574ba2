/**
 * src/ndlab/images.py: tags of the form `<platform>_<version>[_<build>]`,
 * the first-match rule that picks a platform for an image file, and the
 * discovery of every tag found in the images and builds directories.
 * Directory listings and the platforms' regular expressions are inputs.
 */
module Images {
  import opened Wrappers
  import opened Text
  import opened Dicts
  import opened Platforms
  import Paths

  /** SEPARATOR between the parts of a tag. */
  const SEPARATOR: char := '_'

  /** get_build_tag: the base tag, the separator, the build name. */
  function GetBuildTag(baseTag: string, buildTag: string): (tag: string)
    ensures |tag| == |baseTag| + 1 + |buildTag|
    ensures tag[..|baseTag|] == baseTag && tag[|baseTag|] == SEPARATOR && tag[|baseTag| + 1..] == buildTag
  {
    baseTag + [SEPARATOR] + buildTag
  }

  /** The three groups of the tag regular expression; `build` is None when the optional group is absent. */
  datatype TagInfo = TagInfo(name: string, version: string, build: Option<string>)

  /** What one `[^_]+` group can match. */
  predicate Part(s: string) {
    s != [] && NoChar(s, SEPARATOR)
  }

  /** The first `k >= i` where pieces `k` and `k + 1` of a split are both non-empty. */
  function FirstPairFrom(parts: seq<string>, i: nat): (k: Option<nat>)
    requires i <= |parts|
    ensures k.Some? ==> i <= k.value && k.value + 1 < |parts| && parts[k.value] != [] && parts[k.value + 1] != []
    ensures k.Some? ==> forall j :: i <= j < k.value ==> parts[j] == [] || parts[j + 1] == []
    ensures k.None? ==> forall j :: i <= j < |parts| - 1 ==> parts[j] == [] || parts[j + 1] == []
    decreases |parts| - i
  {
    if i + 1 >= |parts| then None
    else if parts[i] != [] && parts[i + 1] != [] then Some(i)
    else FirstPairFrom(parts, i + 1)
  }

  /**
   * get_name_version_build_tag: `re.search` of `([^_]+)_([^_]+)(?:_([^_]+))?`.
   * The leftmost match starts at the first run of non-separators that is
   * followed by a separator and another such run; each group is greedy, so
   * the groups are whole pieces of the tag split on the separator.
   */
  function GetNameVersionBuildTag(tag: string): (r: Result<TagInfo, string>)
    ensures r.Success? ==> Part(r.value.name) && Part(r.value.version)
    ensures r.Success? && r.value.build.Some? ==> Part(r.value.build.value)
  {
    var parts := Split(tag, SEPARATOR);
    match FirstPairFrom(parts, 0)
    case None => Failure("Unable to extract tag info from " + tag)
    case Some(k) =>
      Success(TagInfo(parts[k], parts[k + 1], if k + 2 < |parts| && parts[k + 2] != [] then Some(parts[k + 2]) else None))
  }

  /** A base tag `name_version` reads back as name, version and no build. */
  lemma BaseTagRoundTrip(name: string, version: string)
    requires Part(name) && Part(version)
    ensures GetNameVersionBuildTag(GetBuildTag(name, version)) == Success(TagInfo(name, version, None))
  {
    SplitCons(name, SEPARATOR, version);
  }

  /** A build tag `name_version_build` reads back as its three parts. */
  lemma BuildTagRoundTrip(name: string, version: string, build: string)
    requires Part(name) && Part(version) && Part(build)
    ensures GetNameVersionBuildTag(GetBuildTag(GetBuildTag(name, version), build))
         == Success(TagInfo(name, version, Some(build)))
  {
    var tag := GetBuildTag(GetBuildTag(name, version), build);
    SplitThree(name, version, build);
    assert FirstPairFrom(Split(tag, SEPARATOR), 0) == Some(0);
  }

  lemma SplitThree(name: string, version: string, build: string)
    requires Part(name) && Part(version) && Part(build)
    ensures Split(GetBuildTag(GetBuildTag(name, version), build), SEPARATOR) == [name, version, build]
  {
    assert GetBuildTag(GetBuildTag(name, version), build) == name + [SEPARATOR] + (version + [SEPARATOR] + build);
    SplitCons(version, SEPARATOR, build);
    SplitCons(name, SEPARATOR, version + [SEPARATOR] + build);
  }

  /** A separator at `i` with a non-separator on each side: an `x_y` pair. */
  predicate PairAt(s: string, i: int) {
    0 < i < |s| - 1 && s[i] == SEPARATOR && s[i - 1] != SEPARATOR && s[i + 1] != SEPARATOR
  }

  ghost predicate HasPair(s: string) {
    exists i :: PairAt(s, i)
  }

  ghost predicate AdjacentParts(parts: seq<string>) {
    exists j :: 0 <= j < |parts| - 1 && parts[j] != [] && parts[j + 1] != []
  }

  lemma HasPairCons(a: string, rest: string)
    requires NoChar(a, SEPARATOR)
    ensures HasPair(a + [SEPARATOR] + rest) <==> (a != [] && rest != [] && rest[0] != SEPARATOR) || HasPair(rest)
  {
    var s := a + [SEPARATOR] + rest;
    var n := |a|;
    if HasPair(s) {
      var i :| PairAt(s, i);
      if i > n {
        assert PairAt(rest, i - n - 1);
      }
    }
    if HasPair(rest) {
      var j :| PairAt(rest, j);
      assert PairAt(s, j + n + 1);
    }
    if a != [] && rest != [] && rest[0] != SEPARATOR {
      assert PairAt(s, n);
    }
  }

  lemma AdjacentCons(a: string, parts: seq<string>)
    requires |parts| > 0
    ensures AdjacentParts([a] + parts) <==> (a != [] && parts[0] != []) || AdjacentParts(parts)
  {
    var t := [a] + parts;
    if AdjacentParts(t) {
      var j :| 0 <= j < |t| - 1 && t[j] != [] && t[j + 1] != [];
      if j > 0 {
        assert parts[j - 1] != [] && parts[j] != [];
      }
    }
    if AdjacentParts(parts) {
      var j :| 0 <= j < |parts| - 1 && parts[j] != [] && parts[j + 1] != [];
      assert t[j + 1] != [] && t[j + 2] != [];
    }
    if a != [] && parts[0] != [] {
      assert t[0] != [] && t[1] != [];
    }
  }

  lemma FirstPartEmpty(s: string)
    ensures Split(s, SEPARATOR)[0] == [] <==> s == [] || s[0] == SEPARATOR
  {
    var i := IndexOf(s, SEPARATOR);
    if i < |s| {
      assert Split(s, SEPARATOR)[0] == s[..i];
    }
  }

  /** Adjacent non-empty pieces of the split are exactly `x_y` pairs of the string. */
  lemma {:induction false} SplitPairs(s: string)
    ensures AdjacentParts(Split(s, SEPARATOR)) <==> HasPair(s)
    decreases |s|
  {
    var i := IndexOf(s, SEPARATOR);
    if i == |s| {
      assert s[..i] == s;
      assert forall j :: !PairAt(s, j);
    } else {
      var a, rest := s[..i], s[i + 1..];
      assert s == a + [SEPARATOR] + rest;
      SplitCons(a, SEPARATOR, rest);
      SplitPairs(rest);
      HasPairCons(a, rest);
      AdjacentCons(a, Split(rest, SEPARATOR));
      FirstPartEmpty(rest);
    }
  }

  /** The tag expression fails to match exactly when the tag holds no `x_y` pair. */
  lemma NameVersionFailsIffNoPair(tag: string)
    ensures GetNameVersionBuildTag(tag).Failure? <==> !HasPair(tag)
  {
    SplitPairs(tag);
    var parts := Split(tag, SEPARATOR);
    var k := FirstPairFrom(parts, 0);
    if k.Some? {
      assert parts[k.value] != [] && parts[k.value + 1] != [];
    }
  }

  // ---------------------------------------------------------------------------
  // Platform by image name

  /** The first platform at or after position `i` of PLATFORMS whose IMAGE_PATTERN is found in the name. */
  function FirstMatchFrom(filename: string, matches: (Platform, string) -> bool, i: nat): (k: Option<nat>)
    requires i <= |PLATFORMS|
    ensures k.Some? ==> i <= k.value < |PLATFORMS| && matches(PLATFORMS[k.value], filename)
    ensures k.Some? ==> forall j :: i <= j < k.value ==> !matches(PLATFORMS[j], filename)
    ensures k.None? ==> forall j :: i <= j < |PLATFORMS| ==> !matches(PLATFORMS[j], filename)
    decreases |PLATFORMS| - i
  {
    if i == |PLATFORMS| then None
    else if matches(PLATFORMS[i], filename) then Some(i)
    else FirstMatchFrom(filename, matches, i + 1)
  }

  /** The platform the first-match rule picks. `matches(p, name)` stands for `p.IMAGE_PATTERN.search(name)`. */
  function FirstMatch(filename: string, matches: (Platform, string) -> bool): Option<Platform> {
    match FirstMatchFrom(filename, matches, 0)
    case None => None
    case Some(k) => Some(PLATFORMS[k])
  }

  /** The base platform, whose pattern accepts every qcow2 name, is chosen only when no other platform matches. */
  lemma DefaultIsLastResort(filename: string, matches: (Platform, string) -> bool)
    ensures FirstMatch(filename, matches) == Some(DefaultNetworkDevice) <==>
      matches(DefaultNetworkDevice, filename) && forall p: Platform :: p != DefaultNetworkDevice ==> !matches(p, filename)
  {
    var k := FirstMatchFrom(filename, matches, 0);
    if k.Some? && PLATFORMS[k.value] == DefaultNetworkDevice {
      forall p: Platform | p != DefaultNetworkDevice
        ensures !matches(p, filename)
      {
        PlatformsComplete(p);
        var j :| 0 <= j < |PLATFORMS| && PLATFORMS[j] == p;
        assert j < k.value;
      }
    }
    if matches(DefaultNetworkDevice, filename) && forall p: Platform :: p != DefaultNetworkDevice ==> !matches(p, filename) {
      assert PLATFORMS[k.value] == DefaultNetworkDevice;
    }
  }

  /** search_platform_patterns: the NAME of the first matching platform, or None. */
  method SearchPlatformPatterns(filename: string, matches: (Platform, string) -> bool) returns (name: Option<string>)
    ensures name.None? <==> FirstMatch(filename, matches).None?
    ensures name.Some? ==> name.value == FirstMatch(filename, matches).value.Name()
  {
    var i := 0;
    while i < |PLATFORMS|
      invariant 0 <= i <= |PLATFORMS|
      invariant FirstMatchFrom(filename, matches, i) == FirstMatchFrom(filename, matches, 0)
    {
      if matches(PLATFORMS[i], filename) {
        return Some(PLATFORMS[i].Name());
      }
      i := i + 1;
    }
    return None;
  }

  /** `pathlib.Path(path).name` for a POSIX path: its last component, or "" when it has none. */
  function BaseName(path: string): (name: string)
    ensures name == "" || Paths.Component(name)
  {
    Paths.Name(Paths.Parse(path))
  }

  /** The name of a directory entry is its last component. */
  lemma BaseNameOfJoin(dir: string, name: string)
    requires Paths.Component(name)
    ensures BaseName(dir + "/" + name) == name
  {
    Paths.NameOfJoin(dir, name);
  }

  /** get_device_by_imagename: the platform of the first pattern found in the file's name, or an error. */
  method GetDeviceByImagename(filename: string, matches: (Platform, string) -> bool) returns (r: Result<Platform, string>)
    ensures r.Failure? <==> FirstMatch(BaseName(filename), matches).None?
    ensures r.Success? ==> FirstMatch(BaseName(filename), matches) == Some(r.value)
  {
    var name := BaseName(filename);
    var platform := SearchPlatformPatterns(name, matches);
    if platform.None? {
      return Failure("No platforms identified: " + name);
    }
    PlatformByNameRoundTrip(FirstMatch(name, matches).value);
    var p := PlatformByName(platform.value);
    return Success(p.value);
  }

  // ---------------------------------------------------------------------------
  // auto_discover_tags

  /** An entry of the builds directory: its name, whether it is a directory, and the names inside it. */
  datatype BuildDir = BuildDir(name: string, isDir: bool, fileNames: seq<string>)

  /** An image file met by the discovery loops, with the build it was found under. */
  datatype Candidate = Candidate(fileName: string, build: Option<string>, path: string)

  function FileCandidates(dir: string, names: seq<string>, build: Option<string>): seq<Candidate> {
    seq(|names|, k requires 0 <= k < |names| => Candidate(names[k], build, dir + "/" + names[k]))
  }

  /** The files of the builds directory's sub-directories, in listing order; other entries are skipped. */
  function BuildCandidates(buildsDir: string, builds: seq<BuildDir>): seq<Candidate> {
    if |builds| == 0 then []
    else
      var b := builds[0];
      (if b.isDir then FileCandidates(buildsDir + "/" + b.name, b.fileNames, Some(b.name)) else [])
      + BuildCandidates(buildsDir, builds[1..])
  }

  lemma BuildCandidatesCons(buildsDir: string, builds: seq<BuildDir>, b: nat)
    requires b < |builds|
    ensures BuildCandidates(buildsDir, builds[b..]) ==
      (if builds[b].isDir then FileCandidates(buildsDir + "/" + builds[b].name, builds[b].fileNames, Some(builds[b].name)) else [])
      + BuildCandidates(buildsDir, builds[b + 1..])
  {
    assert builds[b..][0] == builds[b] && builds[b..][1..] == builds[b + 1..];
  }

  /** Every file the two loops examine, in order. */
  function Candidates(imagesDir: string, images: seq<string>, buildsDir: string, builds: seq<BuildDir>): seq<Candidate> {
    FileCandidates(imagesDir, images, None) + BuildCandidates(buildsDir, builds)
  }

  /**
   * The tag one file contributes: None when no pattern matches (the file is
   * skipped), the version error when the platform finds no version, and
   * otherwise `platform_version`, followed by `_build` for a build image.
   */
  function TagOf(c: Candidate, matches: (Platform, string) -> bool, versionGroup: (Platform, string) -> Option<string>): (t: Option<Result<string, string>>)
    ensures t.None? <==> FirstMatch(c.fileName, matches).None?
  {
    match FirstMatch(c.fileName, matches)
    case None => None
    case Some(p) =>
      match p.VersionFromImagename(c.fileName, versionGroup)
      case Failure(e) => Some(Failure(e))
      case Success(v) =>
        var base := GetBuildTag(p.Name(), v);
        Some(Success(if c.build.Some? then GetBuildTag(base, c.build.value) else base))
  }

  /** The images dict after the loops have also seen `cs`, starting from `d`; the first version error stops them. */
  function CollectFrom(d: Dict<string, string>, cs: seq<Candidate>, matches: (Platform, string) -> bool, versionGroup: (Platform, string) -> Option<string>): (r: Result<Dict<string, string>, string>)
    requires d.Valid()
    ensures r.Success? ==> r.value.Valid()
    decreases |cs|
  {
    if |cs| == 0 then Success(d)
    else
      match TagOf(cs[0], matches, versionGroup)
      case None => CollectFrom(d, cs[1..], matches, versionGroup)
      case Some(Failure(e)) => Failure(e)
      case Some(Success(tag)) => CollectFrom(d.Put(tag, cs[0].path), cs[1..], matches, versionGroup)
  }

  /** `dict(sorted(images.items()))`: the same mapping with its keys in ascending order. */
  function SortedByTag(d: Dict<string, string>): (r: Dict<string, string>)
    requires d.Valid()
    ensures r.Valid() && r.values == d.values
    ensures multiset(r.keys) == multiset(d.keys)
    ensures forall i, j :: 0 <= i < j < |r.keys| ==> StrLe(r.keys[i], r.keys[j]) && r.keys[i] != r.keys[j]
  {
    var keys := SortStrings(d.keys);
    DistinctPermutation(d.keys, keys);
    forall k ensures k in keys <==> k in d.values {
      assert k in keys <==> k in multiset(keys);
      assert k in d.keys <==> k in multiset(d.keys);
    }
    Dict(keys, d.values)
  }

  /** What auto_discover_tags returns for the given listings. */
  function DiscoveredTags(imagesDir: string, images: seq<string>, buildsDir: string, builds: seq<BuildDir>,
                          matches: (Platform, string) -> bool, versionGroup: (Platform, string) -> Option<string>): Result<Dict<string, string>, string>
  {
    match CollectFrom(Empty(), Candidates(imagesDir, images, buildsDir, builds), matches, versionGroup)
    case Failure(e) => Failure(e)
    case Success(d) => Success(SortedByTag(d))
  }

  /** Seeing `a` and then `b` is seeing `a + b`. */
  lemma {:induction false} CollectAppend(d: Dict<string, string>, a: seq<Candidate>, b: seq<Candidate>,
                                         matches: (Platform, string) -> bool, versionGroup: (Platform, string) -> Option<string>)
    requires d.Valid()
    ensures CollectFrom(d, a, matches, versionGroup).Failure? ==>
      CollectFrom(d, a + b, matches, versionGroup) == CollectFrom(d, a, matches, versionGroup)
    ensures CollectFrom(d, a, matches, versionGroup).Success? ==>
      CollectFrom(d, a + b, matches, versionGroup) == CollectFrom(CollectFrom(d, a, matches, versionGroup).value, b, matches, versionGroup)
    decreases |a|
  {
    if |a| > 0 {
      assert (a + b)[0] == a[0] && (a + b)[1..] == a[1..] + b;
      match TagOf(a[0], matches, versionGroup)
      case None => CollectAppend(d, a[1..], b, matches, versionGroup);
      case Some(Failure(e)) =>
      case Some(Success(tag)) => CollectAppend(d.Put(tag, a[0].path), a[1..], b, matches, versionGroup);
    } else {
      assert a + b == b;
    }
  }

  /**
   * auto_discover_tags over directory listings: `images` lists the images
   * directory and `builds` the builds directory. Paths are the directory,
   * a slash and the entry name.
   */
  method AutoDiscoverTags(imagesDir: string, images: seq<string>, buildsDir: string, builds: seq<BuildDir>,
                          matches: (Platform, string) -> bool, versionGroup: (Platform, string) -> Option<string>)
    returns (r: Result<Dict<string, string>, string>)
    ensures r == DiscoveredTags(imagesDir, images, buildsDir, builds, matches, versionGroup)
  {
    var found := ScanDirectory(Empty(), imagesDir, images, None, matches, versionGroup);
    CollectAppend(Empty(), FileCandidates(imagesDir, images, None), BuildCandidates(buildsDir, builds), matches, versionGroup);
    if found.Failure? {
      return Failure(found.error);
    }
    found := ScanBuilds(found.value, buildsDir, builds, matches, versionGroup);
    if found.Failure? {
      return Failure(found.error);
    }
    r := Success(SortedByTag(found.value));
  }

  /** The second discovery loop: the files of every sub-directory of the builds directory. */
  method ScanBuilds(d0: Dict<string, string>, buildsDir: string, builds: seq<BuildDir>,
                    matches: (Platform, string) -> bool, versionGroup: (Platform, string) -> Option<string>)
    returns (r: Result<Dict<string, string>, string>)
    requires d0.Valid()
    ensures r == CollectFrom(d0, BuildCandidates(buildsDir, builds), matches, versionGroup)
  {
    var d := d0;
    var b := 0;
    assert builds[b..] == builds;
    while b < |builds|
      invariant 0 <= b <= |builds| && d.Valid()
      invariant CollectFrom(d, BuildCandidates(buildsDir, builds[b..]), matches, versionGroup)
             == CollectFrom(d0, BuildCandidates(buildsDir, builds), matches, versionGroup)
    {
      var entry := builds[b];
      BuildCandidatesCons(buildsDir, builds, b);
      if entry.isDir {
        var dir := buildsDir + "/" + entry.name;
        var found := ScanDirectory(d, dir, entry.fileNames, Some(entry.name), matches, versionGroup);
        CollectAppend(d, FileCandidates(dir, entry.fileNames, Some(entry.name)), BuildCandidates(buildsDir, builds[b + 1..]), matches, versionGroup);
        if found.Failure? {
          return Failure(found.error);
        }
        d := found.value;
      } else {
        assert BuildCandidates(buildsDir, builds[b..]) == BuildCandidates(buildsDir, builds[b + 1..]);
      }
      b := b + 1;
    }
    assert builds[b..] == [];
    return Success(d);
  }

  /** The first file of the rest of a listing is handled, then the files after it. */
  lemma ScanStep(d: Dict<string, string>, dir: string, names: seq<string>, i: nat, build: Option<string>,
                 matches: (Platform, string) -> bool, versionGroup: (Platform, string) -> Option<string>)
    requires d.Valid() && i < |names|
    ensures var c := Candidate(names[i], build, dir + "/" + names[i]);
      var tag := TagOf(c, matches, versionGroup);
      var now := CollectFrom(d, FileCandidates(dir, names[i..], build), matches, versionGroup);
      && (tag.None? ==> now == CollectFrom(d, FileCandidates(dir, names[i + 1..], build), matches, versionGroup))
      && (tag.Some? && tag.value.Failure? ==> now == Failure(tag.value.error))
      && (tag.Some? && tag.value.Success? ==>
            now == CollectFrom(d.Put(tag.value.value, c.path), FileCandidates(dir, names[i + 1..], build), matches, versionGroup))
  {
    var cs := FileCandidates(dir, names[i..], build);
    assert cs[0] == Candidate(names[i], build, dir + "/" + names[i]);
    assert cs[1..] == FileCandidates(dir, names[i + 1..], build);
  }

  /** One discovery loop: every file of one directory listing, in order, stopping at a version error. */
  method ScanDirectory(d0: Dict<string, string>, dir: string, names: seq<string>, build: Option<string>,
                       matches: (Platform, string) -> bool, versionGroup: (Platform, string) -> Option<string>)
    returns (r: Result<Dict<string, string>, string>)
    requires d0.Valid()
    ensures r == CollectFrom(d0, FileCandidates(dir, names, build), matches, versionGroup)
  {
    var d := d0;
    var i := 0;
    while i < |names|
      invariant 0 <= i <= |names| && d.Valid()
      invariant CollectFrom(d, FileCandidates(dir, names[i..], build), matches, versionGroup)
             == CollectFrom(d0, FileCandidates(dir, names, build), matches, versionGroup)
    {
      var c := Candidate(names[i], build, dir + "/" + names[i]);
      ScanStep(d, dir, names, i, build, matches, versionGroup);
      var tag := DiscoverOne(c, matches, versionGroup);
      if tag.Some? {
        if tag.value.Failure? {
          return Failure(tag.value.error);
        }
        d := d.Put(tag.value.value, c.path);
      }
      i := i + 1;
    }
    assert names[i..] == [];
    return Success(d);
  }

  /** The body of either discovery loop for one file: search the platform, then its version. */
  method DiscoverOne(c: Candidate, matches: (Platform, string) -> bool, versionGroup: (Platform, string) -> Option<string>)
    returns (tag: Option<Result<string, string>>)
    ensures tag == TagOf(c, matches, versionGroup)
  {
    var platform := SearchPlatformPatterns(c.fileName, matches);
    if platform.None? {
      return None;
    }
    PlatformByNameRoundTrip(FirstMatch(c.fileName, matches).value);
    var p := PlatformByName(platform.value).value;
    var version := p.VersionFromImagename(c.fileName, versionGroup);
    if version.Failure? {
      return Some(Failure(version.error));
    }
    var base := GetBuildTag(p.Name(), version.value);
    if c.build.Some? {
      return Some(Success(GetBuildTag(base, c.build.value)));
    }
    return Some(Success(base));
  }

  // ---------------------------------------------------------------------------
  // What discovery finds

  /** A discovered tag names its platform, its version and, for a build image, its build. */
  lemma TagOfRoundTrip(c: Candidate, matches: (Platform, string) -> bool, versionGroup: (Platform, string) -> Option<string>)
    requires TagOf(c, matches, versionGroup).Some? && TagOf(c, matches, versionGroup).value.Success?
    requires var v := FirstMatch(c.fileName, matches).value.VersionFromImagename(c.fileName, versionGroup);
      v.Success? && Part(v.value)
    requires c.build.Some? ==> Part(c.build.value)
    ensures var p := FirstMatch(c.fileName, matches).value;
      GetNameVersionBuildTag(TagOf(c, matches, versionGroup).value.value)
        == Success(TagInfo(p.Name(), p.VersionFromImagename(c.fileName, versionGroup).value, c.build))
  {
    var p := FirstMatch(c.fileName, matches).value;
    var v := p.VersionFromImagename(c.fileName, versionGroup).value;
    var tag := TagOf(c, matches, versionGroup).value.value;
    var name := p.Name();
    NameIsPart(p);
    if c.build.Some? {
      assert tag == GetBuildTag(GetBuildTag(name, v), c.build.value);
      BuildTagRoundTrip(name, v, c.build.value);
    } else {
      assert tag == GetBuildTag(name, v);
      BaseTagRoundTrip(name, v);
    }
  }

  /** Every platform's NAME can stand as the first part of a tag. */
  lemma NameIsPart(p: Platform)
    ensures Part(p.Name())
  {
  }

  /** The tags collected are those already present and those of the files seen, no others. */
  lemma {:induction false} CollectFromKeys(d: Dict<string, string>, cs: seq<Candidate>,
                                           matches: (Platform, string) -> bool, versionGroup: (Platform, string) -> Option<string>)
    requires d.Valid() && CollectFrom(d, cs, matches, versionGroup).Success?
    ensures forall t :: t in CollectFrom(d, cs, matches, versionGroup).value.values <==>
      t in d.values || exists k :: 0 <= k < |cs| && TagOf(cs[k], matches, versionGroup) == Some(Success(t))
    decreases |cs|
  {
    if |cs| > 0 {
      var r := CollectFrom(d, cs, matches, versionGroup).value;
      var d' := match TagOf(cs[0], matches, versionGroup) case Some(Success(tag)) => d.Put(tag, cs[0].path) case _ => d;
      CollectFromKeys(d', cs[1..], matches, versionGroup);
      forall t ensures t in r.values <==> t in d.values || exists k :: 0 <= k < |cs| && TagOf(cs[k], matches, versionGroup) == Some(Success(t))
      {
        TagFoundShift(cs, t, matches, versionGroup);
      }
    }
  }

  /** A tag is found among the files when it is the first file's or is found among the rest. */
  lemma TagFoundShift(cs: seq<Candidate>, t: string,
                      matches: (Platform, string) -> bool, versionGroup: (Platform, string) -> Option<string>)
    requires |cs| > 0
    ensures (exists k :: 0 <= k < |cs| && TagOf(cs[k], matches, versionGroup) == Some(Success(t)))
      <==> (|| TagOf(cs[0], matches, versionGroup) == Some(Success(t))
            || exists k :: 0 <= k < |cs[1..]| && TagOf(cs[1..][k], matches, versionGroup) == Some(Success(t)))
  {
    if exists k :: 0 <= k < |cs[1..]| && TagOf(cs[1..][k], matches, versionGroup) == Some(Success(t)) {
      var k :| 0 <= k < |cs[1..]| && TagOf(cs[1..][k], matches, versionGroup) == Some(Success(t));
      assert TagOf(cs[k + 1], matches, versionGroup) == Some(Success(t));
    }
    if exists k :: 0 <= k < |cs| && TagOf(cs[k], matches, versionGroup) == Some(Success(t)) {
      var k :| 0 <= k < |cs| && TagOf(cs[k], matches, versionGroup) == Some(Success(t));
      if k > 0 {
        assert TagOf(cs[1..][k - 1], matches, versionGroup) == Some(Success(t));
      }
    }
  }

  predicate FailsAt(cs: seq<Candidate>, k: int, matches: (Platform, string) -> bool, versionGroup: (Platform, string) -> Option<string>)
    requires 0 <= k < |cs|
  {
    TagOf(cs[k], matches, versionGroup).Some? && TagOf(cs[k], matches, versionGroup).value.Failure?
  }

  /** The first file whose pattern matches but whose version is not found. */
  function FirstFailure(cs: seq<Candidate>, matches: (Platform, string) -> bool, versionGroup: (Platform, string) -> Option<string>): (k: Option<nat>)
    ensures k.Some? ==> k.value < |cs| && FailsAt(cs, k.value, matches, versionGroup)
    ensures k.Some? ==> forall j :: 0 <= j < k.value ==> !FailsAt(cs, j, matches, versionGroup)
    ensures k.None? ==> forall j :: 0 <= j < |cs| ==> !FailsAt(cs, j, matches, versionGroup)
  {
    if |cs| == 0 then None
    else if FailsAt(cs, 0, matches, versionGroup) then Some(0)
    else
      var k := FirstFailure(cs[1..], matches, versionGroup);
      assert forall j :: 0 < j < |cs| ==> FailsAt(cs, j, matches, versionGroup) == FailsAt(cs[1..], j - 1, matches, versionGroup);
      if k.None? then None else Some(k.value + 1)
  }

  /** Discovery fails exactly when some file's version is not found, and reports the first such error. */
  lemma {:induction false} CollectFromFails(d: Dict<string, string>, cs: seq<Candidate>,
                                            matches: (Platform, string) -> bool, versionGroup: (Platform, string) -> Option<string>)
    requires d.Valid()
    ensures CollectFrom(d, cs, matches, versionGroup).Failure? <==> FirstFailure(cs, matches, versionGroup).Some?
    ensures CollectFrom(d, cs, matches, versionGroup).Failure? ==>
      TagOf(cs[FirstFailure(cs, matches, versionGroup).value], matches, versionGroup)
        == Some(Failure(CollectFrom(d, cs, matches, versionGroup).error))
    decreases |cs|
  {
    if |cs| > 0 && !FailsAt(cs, 0, matches, versionGroup) {
      var d' := match TagOf(cs[0], matches, versionGroup) case Some(Success(tag)) => d.Put(tag, cs[0].path) case _ => d;
      CollectFromFails(d', cs[1..], matches, versionGroup);
      var k := FirstFailure(cs[1..], matches, versionGroup);
      if k.Some? {
        assert cs[k.value + 1] == cs[1..][k.value];
      }
    }
  }

  /** The entries of the builds directory that are directories, in order. */
  function OnlyDirectories(builds: seq<BuildDir>): (r: seq<BuildDir>)
    ensures forall i :: 0 <= i < |r| ==> r[i].isDir && r[i] in builds
    ensures forall i :: 0 <= i < |builds| && builds[i].isDir ==> builds[i] in r
  {
    if |builds| == 0 then []
    else (if builds[0].isDir then [builds[0]] else []) + OnlyDirectories(builds[1..])
  }

  /** Entries of the builds directory that are not directories change nothing. */
  lemma {:induction false} DiscoveryIgnoresPlainFiles(imagesDir: string, images: seq<string>, buildsDir: string, builds: seq<BuildDir>,
                                                     matches: (Platform, string) -> bool, versionGroup: (Platform, string) -> Option<string>)
    ensures DiscoveredTags(imagesDir, images, buildsDir, builds, matches, versionGroup)
         == DiscoveredTags(imagesDir, images, buildsDir, OnlyDirectories(builds), matches, versionGroup)
  {
    BuildCandidatesOfDirectories(buildsDir, builds);
  }

  lemma {:induction false} BuildCandidatesOfDirectories(buildsDir: string, builds: seq<BuildDir>)
    ensures BuildCandidates(buildsDir, builds) == BuildCandidates(buildsDir, OnlyDirectories(builds))
  {
    if |builds| > 0 {
      BuildCandidatesOfDirectories(buildsDir, builds[1..]);
      var rest := OnlyDirectories(builds[1..]);
      if builds[0].isDir {
        var b := builds[0];
        assert OnlyDirectories(builds) == [b] + rest;
        assert ([b] + rest)[0] == b && ([b] + rest)[1..] == rest;
        assert BuildCandidates(buildsDir, [b] + rest)
            == FileCandidates(buildsDir + "/" + b.name, b.fileNames, Some(b.name)) + BuildCandidates(buildsDir, rest);
      } else {
        assert OnlyDirectories(builds) == rest;
      }
    }
  }
}
