/** `getAppVersions`: the catalog of one app (and platform) read from the
    file names in its directory. */
module Versions {
  import opened Wrappers
  import opened Semver
  import opened Names
  import opened Listing
  import opened OrderedMaps
  import opened Apps

  /** One value of the `versions` object. The file fields and their URLs are
      absent until a file of that kind is scanned; `html_url` is set by every
      file, so every entry has one. */
  datatype Entry = Entry(
    exe: Option<string>, exeUrl: Option<string>,
    txt: Option<string>, txtUrl: Option<string>,
    htmlUrl: string)

  /** The `versions` object: version → entry, in first-insertion order. */
  type Versions = OrderedMap<Entry>

  /** A file the scan keeps: its name, its normalised version, and whether
      its extension is exactly `txt` (release notes) rather than a binary. */
  datatype Artifact = Artifact(file: string, version: string, isTxt: bool)

  function NoSuchApp(name: string): string {
    "No such app: " + name
  }

  function NoSuchPlatform(name: string, platform: string): string {
    name + " app has not platform: " + platform
  }

  /** The message of the error `readdirSync` throws for a missing directory. */
  function NoSuchDirectory(dir: string): string {
    "ENOENT: no such file or directory, scandir 'files/" + dir + "'"
  }

  /** The directory of an app: `<name>` or `<name>-<platform>`. */
  function AppDir(name: string, platform: Option<string>): string {
    name + if Truthy(platform) then "-" + platform.value else ""
  }

  /** The tail of an entry's URLs: `<name>[/<platform>]/<version>`. */
  function UrlPath(name: string, platform: Option<string>, version: string): string {
    name + (if Truthy(platform) then "/" + platform.value else "") + "/" + version
  }

  /** `semver.gt(curVer, after)` is only defined when both are versions; this
      is what a scan with an `after` filter needs of the listing. */
  predicate Comparable(files: seq<string>, after: Option<string>) {
    Truthy(after) ==>
      && IsVersion(after.value)
      && forall i :: 0 <= i < |files| && ParseFileName(files[i]).Some? ==> IsVersion(ParseFileName(files[i]).value.version)
  }

  /** The `after` filter: no filter when `after` is falsy, otherwise only
      versions strictly greater than `after`. */
  predicate Keeps(version: string, after: Option<string>)
    requires Truthy(after) ==> IsVersion(version) && IsVersion(after.value)
  {
    !Truthy(after) || Gt(version, after.value)
  }

  lemma ComparablePrefix(files: seq<string>, after: Option<string>, k: nat)
    requires k <= |files| && Comparable(files, after)
    ensures Comparable(files[..k], after)
  {
    assert forall i :: 0 <= i < k ==> files[..k][i] == files[i];
  }

  /** Whether `after` can be compared with the version of `file`. */
  predicate FileComparable(file: string, after: Option<string>) {
    Truthy(after) ==> IsVersion(after.value) && (ParseFileName(file).Some? ==> IsVersion(ParseFileName(file).value.version))
  }

  /** The artifact `file` gives if the scan keeps it: skipped without a `-`,
      or when the `after` filter rejects its version. */
  function Kept(file: string, after: Option<string>): Option<Artifact>
    requires FileComparable(file, after)
  {
    match ParseFileName(file)
    case None => None
    case Some(p) => if Keeps(p.version, after) then Some(Artifact(file, p.version, p.ext == "txt")) else None
  }

  /** The files the scan keeps, in listing order. */
  function Accepted(files: seq<string>, after: Option<string>): (arts: seq<Artifact>)
    requires Comparable(files, after)
  {
    if files == [] then []
    else
      var f := files[|files| - 1];
      ComparablePrefix(files, after, |files| - 1);
      Accepted(files[..|files| - 1], after) + match Kept(f, after) case None => [] case Some(a) => [a]
  }

  /** The entry with no fields, `{}`. */
  const NoEntry: Entry := Entry(None, None, None, None, "")

  /** One turn of the scan's loop for a kept file: set the file and URL of its
      kind and the `html_url` of its version's entry, creating it if new. */
  function Insert(vs: Versions, a: Artifact, name: string, platform: Option<string>): (r: Versions)
    requires Valid(vs)
    ensures Valid(r)
  {
    var e := if a.version in vs.values then vs.values[a.version] else NoEntry;
    Put(vs, a.version, Merge(e, a.file, a.isTxt, UrlPath(name, platform, a.version)))
  }

  /** The fields a kept file sets in its version's entry `e`. */
  function Merge(e: Entry, file: string, isTxt: bool, url: string): Entry {
    var e' := if isTxt then e.(txt := Some(file), txtUrl := Some("/api/txt/" + url))
              else e.(exe := Some(file), exeUrl := Some("/api/exe/" + url));
    e'.(htmlUrl := "/api/html/" + url)
  }

  /** `entry.txt` or `entry.exe`: the file of a kind in a version's entry. */
  function Field(e: Entry, isTxt: bool): Option<string> {
    if isTxt then e.txt else e.exe
  }

  /** The `versions` object after the kept files `arts`. */
  function Build(arts: seq<Artifact>, name: string, platform: Option<string>): (r: Versions)
    ensures Valid(r)
    ensures forall i :: 0 <= i < |arts| ==> arts[i].version in r.values
  {
    if arts == [] then Empty()
    else
      var prefix := Build(arts[..|arts| - 1], name, platform);
      assert forall i :: 0 <= i < |arts| - 1 ==> arts[..|arts| - 1][i] == arts[i];
      Insert(prefix, arts[|arts| - 1], name, platform)
  }

  /** `{ [v]: versions[v] }` for the version `v` of the last kept file, or `{}`. */
  function LatestOf(arts: seq<Artifact>, vs: Versions): Versions
    requires forall i :: 0 <= i < |arts| ==> arts[i].version in vs.values
  {
    if arts == [] then Empty()
    else
      var v := arts[|arts| - 1].version;
      OrderedMap([v], map[v := vs.values[v]])
  }

  /** The scan needs `semver.gt` only for the directory it reads. */
  predicate AfterComparable(fs: FileTree, name: string, platform: Option<string>, after: Option<string>) {
    AppDir(name, platform) in fs.dirs ==> Comparable(FileNames(fs.dirs[AppDir(name, platform)]), after)
  }

  /** Whether `platform` is one of the app's platforms. */
  predicate HasPlatform(info: AppInfo, platform: string) {
    info.platforms.Some? && platform in info.platforms.value
  }

  /** `getAppVersions(name, platform, after, latest)` on the release tree
      `fs`: the catalog, or the message of the error it throws. */
  function AppVersions(fs: FileTree, name: string, platform: Option<string>, after: Option<string>, latest: bool): Result<Versions>
    requires AfterComparable(fs, name, platform, after)
  {
    match AppsOf(DirNames(fs.root))
    case Err(m) => Err(m)
    case Ok(apps) =>
      if name !in apps.values then Err(NoSuchApp(name))
      else if Truthy(platform) && !HasPlatform(apps.values[name], platform.value) then Err(NoSuchPlatform(name, platform.value))
      else if AppDir(name, platform) !in fs.dirs then Err(NoSuchDirectory(AppDir(name, platform)))
      else
        var arts := Accepted(FileNames(fs.dirs[AppDir(name, platform)]), after);
        var vs := Build(arts, name, platform);
        if latest then Ok(LatestOf(arts, vs)) else Ok(vs)
  }

  lemma AcceptedSnoc(files: seq<string>, after: Option<string>)
    requires files != [] && Comparable(files, after)
    ensures Comparable(files[..|files| - 1], after)
    ensures FileComparable(files[|files| - 1], after)
    ensures Accepted(files, after) == Accepted(files[..|files| - 1], after) +
      match Kept(files[|files| - 1], after) case None => [] case Some(a) => [a]
  {
    ComparablePrefix(files, after, |files| - 1);
  }

  /** How one more file of the listing extends the kept files. */
  lemma ScanStep(files: seq<string>, i: nat, after: Option<string>)
    requires i < |files| && Comparable(files, after)
    ensures Comparable(files[..i], after) && Comparable(files[..i + 1], after)
    ensures FileComparable(files[i], after)
    ensures Accepted(files[..i + 1], after) == Accepted(files[..i], after) +
      match Kept(files[i], after) case None => [] case Some(a) => [a]
  {
    assert files[..i + 1][..i] == files[..i];
    ComparablePrefix(files, after, i);
    ComparablePrefix(files, after, i + 1);
    AcceptedSnoc(files[..i + 1], after);
  }

  lemma BuildSnoc(arts: seq<Artifact>, a: Artifact, name: string, platform: Option<string>)
    ensures Build(arts + [a], name, platform) == Insert(Build(arts, name, platform), a, name, platform)
  {
    assert (arts + [a])[..|arts|] == arts;
  }

  /** One turn of the loop of `getAppVersions` over the file `file`. */
  method ScanFile(versions: Versions, latestVersion: Versions, file: string, name: string, platform: Option<string>, after: Option<string>)
    returns (versions': Versions, latestVersion': Versions)
    requires Valid(versions) && FileComparable(file, after)
    ensures Kept(file, after).None? ==> versions' == versions && latestVersion' == latestVersion
    ensures Kept(file, after).Some? ==>
      var a := Kept(file, after).value;
      && versions' == Insert(versions, a, name, platform)
      && latestVersion' == OrderedMap([a.version], map[a.version := versions'.values[a.version]])
  {
    versions', latestVersion' := versions, latestVersion;
    var parsed := ParseFileName(file);
    if parsed.None? {
      return;
    }
    var curVer := parsed.value.version;
    if Truthy(after) && !Gt(curVer, after.value) {
      return;
    }
    var entry := if curVer in versions.values then versions.values[curVer] else NoEntry;
    var url := UrlPath(name, platform, curVer);
    if parsed.value.ext == "txt" {
      entry := entry.(txt := Some(file), txtUrl := Some("/api/txt/" + url));
    } else {
      entry := entry.(exe := Some(file), exeUrl := Some("/api/exe/" + url));
    }
    entry := entry.(htmlUrl := "/api/html/" + url);
    versions' := Put(versions, curVer, entry);
    latestVersion' := OrderedMap([curVer], map[curVer := entry]);
  }

  /** The loop of `getAppVersions` over the file names of the app's
      directory, with the `versions` object and the `latestVersion` it leaves. */
  method ScanFiles(files: seq<string>, name: string, platform: Option<string>, after: Option<string>)
    returns (versions: Versions, latestVersion: Versions)
    requires Comparable(files, after)
    ensures versions == Build(Accepted(files, after), name, platform)
    ensures latestVersion == LatestOf(Accepted(files, after), versions)
  {
    versions := Empty();
    latestVersion := Empty();
    var i := 0;
    while i < |files|
      invariant 0 <= i <= |files|
      invariant Comparable(files[..i], after)
      invariant versions == Build(Accepted(files[..i], after), name, platform)
      invariant latestVersion == LatestOf(Accepted(files[..i], after), versions)
    {
      ghost var arts := Accepted(files[..i], after);
      ghost var kept := Kept(files[i], after);
      ScanStep(files, i, after);
      versions, latestVersion := ScanFile(versions, latestVersion, files[i], name, platform, after);
      if kept.Some? {
        assert Accepted(files[..i + 1], after) == arts + [kept.value];
        BuildSnoc(arts, kept.value, name, platform);
      } else {
        assert Accepted(files[..i + 1], after) == arts;
      }
      i := i + 1;
    }
    assert files[..i] == files;
  }

  /** `getAppVersions` itself: check the app and platform, then scan the
      files of the app's directory in listing order. */
  method GetAppVersions(fs: FileTree, name: string, platform: Option<string>, after: Option<string>, latest: bool)
    returns (r: Result<Versions>)
    requires AfterComparable(fs, name, platform, after)
    ensures r == AppVersions(fs, name, platform, after, latest)
  {
    var apps := ListApps(fs.root);
    if apps.Err? {
      return Err(apps.message);
    }
    if name !in apps.value.values {
      return Err(NoSuchApp(name));
    }
    var app := apps.value.values[name];
    if Truthy(platform) && (app.platforms.None? || platform.value !in app.platforms.value) {
      return Err(NoSuchPlatform(name, platform.value));
    }
    var path := AppDir(name, platform);
    if path !in fs.dirs {
      return Err(NoSuchDirectory(path));
    }
    var versions, latestVersion := ScanFiles(FileNames(fs.dirs[path]), name, platform, after);
    if latest {
      return Ok(latestVersion);
    }
    return Ok(versions);
  }
}
