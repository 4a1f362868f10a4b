/** What the catalog built by `getAppVersions` holds. */
module VersionsFacts {
  import opened Wrappers
  import opened Strings
  import opened Semver
  import opened Names
  import opened Listing
  import opened OrderedMaps
  import opened Apps
  import opened Versions

  /** The version of each kept file, in listing order. */
  function VersionsOf(arts: seq<Artifact>): (vs: seq<string>)
    ensures |vs| == |arts|
  {
    if arts == [] then [] else VersionsOf(arts[..|arts| - 1]) + [arts[|arts| - 1].version]
  }

  lemma {:induction false} VersionsOfMembership(arts: seq<Artifact>, v: string)
    ensures v in VersionsOf(arts) <==> exists i :: 0 <= i < |arts| && arts[i].version == v
  {
    if arts != [] {
      var prefix := arts[..|arts| - 1];
      VersionsOfMembership(prefix, v);
      assert forall i :: 0 <= i < |prefix| ==> prefix[i] == arts[i];
    }
  }

  /** The catalog's versions are those of the kept files, in the order each
      first appeared: merging into a version keeps its first place. */
  lemma {:induction false} BuildKeys(arts: seq<Artifact>, name: string, platform: Option<string>)
    ensures Build(arts, name, platform).keys == FirstOccurrences(VersionsOf(arts))
    ensures forall v :: v in Build(arts, name, platform).values <==> v in VersionsOf(arts)
  {
    if arts != [] {
      var prefix := arts[..|arts| - 1];
      BuildKeys(prefix, name, platform);
      var a := arts[|arts| - 1];
      var before := Build(prefix, name, platform);
      var r := Build(arts, name, platform);
      assert r == Insert(before, a, name, platform);
      assert VersionsOf(arts)[..|arts| - 1] == VersionsOf(prefix);
      assert r.keys == if a.version in before.values then before.keys else before.keys + [a.version];
      assert r.values.Keys == before.values.Keys + {a.version};
    }
  }

  /** An entry's URLs: `html_url` always, and the `exe`/`txt` URLs exactly
      when that kind's file is present; each `/api/<kind>/<url>`. */
  predicate EntryUrls(e: Entry, url: string) {
    && e.htmlUrl == "/api/html/" + url
    && e.exeUrl == (if e.exe.Some? then Some("/api/exe/" + url) else None)
    && e.txtUrl == (if e.txt.Some? then Some("/api/txt/" + url) else None)
  }

  ghost predicate UrlsMatch(vs: Versions, name: string, platform: Option<string>) {
    forall v :: v in vs.values ==> EntryUrls(vs.values[v], UrlPath(name, platform, v))
  }

  /** Every entry of the catalog carries the URLs of its own version. */
  lemma {:induction false} BuildUrls(arts: seq<Artifact>, name: string, platform: Option<string>)
    ensures UrlsMatch(Build(arts, name, platform), name, platform)
  {
    if arts != [] {
      var prefix := arts[..|arts| - 1];
      BuildUrls(prefix, name, platform);
      var a := arts[|arts| - 1];
      var before := Build(prefix, name, platform);
      var r := Build(arts, name, platform);
      assert r == Insert(before, a, name, platform);
      forall v | v in r.values
        ensures EntryUrls(r.values[v], UrlPath(name, platform, v))
      {
        if v != a.version {
          assert r.values[v] == before.values[v];
        }
      }
    }
  }

  /** The file of a kind in a version's entry is that of the last kept file
      of that version and kind. */
  lemma {:induction false} BuildLastFile(arts: seq<Artifact>, name: string, platform: Option<string>, i: nat)
    requires i < |arts|
    requires forall j :: i < j < |arts| ==> arts[j].version != arts[i].version || arts[j].isTxt != arts[i].isTxt
    ensures arts[i].version in Build(arts, name, platform).values
    ensures Field(Build(arts, name, platform).values[arts[i].version], arts[i].isTxt) == Some(arts[i].file)
  {
    var n := |arts| - 1;
    var prefix := arts[..n];
    var a := arts[n];
    var before := Build(prefix, name, platform);
    assert Build(arts, name, platform) == Insert(before, a, name, platform);
    if i < n {
      assert prefix[i] == arts[i];
      forall j | i < j < |prefix|
        ensures prefix[j].version != prefix[i].version || prefix[j].isTxt != prefix[i].isTxt
      {
        assert prefix[j] == arts[j];
      }
      BuildLastFile(prefix, name, platform, i);
    }
  }

  /** A kind no kept file of a version has is absent from its entry. */
  lemma {:induction false} BuildFieldAbsent(arts: seq<Artifact>, name: string, platform: Option<string>, v: string, isTxt: bool)
    requires forall j :: 0 <= j < |arts| ==> arts[j].version != v || arts[j].isTxt != isTxt
    ensures v in Build(arts, name, platform).values ==> Field(Build(arts, name, platform).values[v], isTxt) == None
  {
    if arts != [] {
      var n := |arts| - 1;
      var prefix := arts[..n];
      forall j | 0 <= j < |prefix|
        ensures prefix[j].version != v || prefix[j].isTxt != isTxt
      {
        assert prefix[j] == arts[j];
      }
      BuildFieldAbsent(prefix, name, platform, v, isTxt);
      assert Build(arts, name, platform) == Insert(Build(prefix, name, platform), arts[n], name, platform);
    }
  }

  /** Every kept file passed the `after` filter: its version is strictly
      greater than `after`. */
  lemma {:induction false} AcceptedPass(files: seq<string>, after: Option<string>, v: string)
    requires Comparable(files, after) && Truthy(after)
    requires v in VersionsOf(Accepted(files, after))
    ensures IsVersion(v) && Gt(v, after.value)
  {
    var n := |files| - 1;
    AcceptedSnoc(files, after);
    var prefix := Accepted(files[..n], after);
    var k := Kept(files[n], after);
    if k.Some? {
      assert Accepted(files, after) == prefix + [k.value];
      assert VersionsOf(Accepted(files, after)) == VersionsOf(prefix) + [k.value.version];
    } else {
      assert Accepted(files, after) == prefix;
    }
    if v in VersionsOf(prefix) {
      AcceptedPass(files[..n], after, v);
    }
  }

  /** A file at index `i` of the listing is kept with version `v`. */
  predicate KeptAt(files: seq<string>, after: Option<string>, v: string, i: int)
    requires Comparable(files, after)
  {
    0 <= i < |files| && Kept(files[i], after).Some? && Kept(files[i], after).value.version == v
  }

  /** Some file of the listing is kept with version `v`. */
  ghost predicate KeptVersion(files: seq<string>, after: Option<string>, v: string)
    requires Comparable(files, after)
  {
    exists i :: KeptAt(files, after, v, i)
  }

  /** One more file: a version is kept somewhere in the longer listing exactly
      when it is kept in the shorter one or by the new file. */
  lemma KeptAtSnoc(files: seq<string>, prefix: seq<string>, after: Option<string>, v: string)
    requires files != [] && prefix == files[..|files| - 1] && Comparable(files, after)
    ensures Comparable(prefix, after)
    ensures (exists i :: KeptAt(files, after, v, i)) <==>
      (exists i :: KeptAt(prefix, after, v, i)) || KeptAt(files, after, v, |prefix|)
  {
    var n := |files| - 1;
    ComparablePrefix(files, after, n);
    if exists i :: KeptAt(files, after, v, i) {
      var i :| KeptAt(files, after, v, i);
      if i < n {
        assert KeptAt(prefix, after, v, i);
      }
    }
    if exists i :: KeptAt(prefix, after, v, i) {
      var i :| KeptAt(prefix, after, v, i);
      assert KeptAt(files, after, v, i);
    }
  }

  /** The versions kept are exactly those of the files with a `-` in their
      name whose version passes the `after` filter. */
  lemma {:induction false} AcceptedVersions(files: seq<string>, after: Option<string>, v: string)
    requires Comparable(files, after)
    ensures v in VersionsOf(Accepted(files, after)) <==> KeptVersion(files, after, v)
  {
    if files != [] {
      var n := |files| - 1;
      AcceptedSnoc(files, after);
      var prefix := Accepted(files[..n], after);
      AcceptedVersions(files[..n], after, v);
      KeptAtSnoc(files, files[..n], after, v);
      var k := Kept(files[n], after);
      if k.Some? {
        assert Accepted(files, after) == prefix + [k.value];
        assert VersionsOf(Accepted(files, after)) == VersionsOf(prefix) + [k.value.version];
      } else {
        assert Accepted(files, after) == prefix;
      }
    }
  }

  /** The checks before the scan, in terms of the directory names under
      `files/`: an app no directory names is unknown; a truthy platform
      needs a directory `<name>-<platform>`; without one the app's own
      directory `<name>` is read, which may be missing. */
  lemma AppVersionsChecks(fs: FileTree, name: string, platform: Option<string>, after: Option<string>, latest: bool)
    requires AfterComparable(fs, name, platform, after)
    ensures var dirs := DirNames(fs.root);
      var r := AppVersions(fs, name, platform, after, latest);
      && (AppsOf(dirs).Err? ==> r == Err(PushOnUndefined))
      && (AppsOf(dirs).Ok? && name !in NamesOf(dirs) ==> r == Err(NoSuchApp(name)))
      && (AppsOf(dirs).Ok? && name in NamesOf(dirs) && Truthy(platform)
          && !(exists i :: 0 <= i < |dirs| && ParseDirName(dirs[i]) == DirName(name, platform))
          ==> r == Err(NoSuchPlatform(name, platform.value)))
      && (AppsOf(dirs).Ok? && name in NamesOf(dirs)
          && (!Truthy(platform) || exists i :: 0 <= i < |dirs| && ParseDirName(dirs[i]) == DirName(name, platform))
          ==> if AppDir(name, platform) in fs.dirs then r.Ok? else r == Err(NoSuchDirectory(AppDir(name, platform))))
  {
    var dirs := DirNames(fs.root);
    AppsOfThrows(dirs);
    if AppsOf(dirs).Ok? {
      AppsOfAt(dirs, name);
      if Truthy(platform) {
        PlatformsOfMembership(dirs, name, platform.value);
      }
    }
  }

  /** A directory named `<name>[-<platform>]` is the app's directory. */
  lemma ListedAppDir(dir: string, name: string, platform: Option<string>)
    requires ParseDirName(dir) == DirName(name, if Truthy(platform) then platform else None)
    ensures dir == AppDir(name, platform)
  {
    ParseDirNameInverse(dir);
  }

  /** On a well-formed tree the read of the app's directory cannot fail:
      once a directory is named exactly `<name>[-<platform>]`, the checks pass
      and the catalog is read. */
  lemma AppVersionsListed(fs: FileTree, name: string, platform: Option<string>, after: Option<string>, latest: bool)
    requires AfterComparable(fs, name, platform, after)
    requires WellFormed(fs) && AppsOf(DirNames(fs.root)).Ok?
    requires exists i ::
      0 <= i < |DirNames(fs.root)| && ParseDirName(DirNames(fs.root)[i]) == DirName(name, if Truthy(platform) then platform else None)
    ensures AppVersions(fs, name, platform, after, latest).Ok?
  {
    var dirs := DirNames(fs.root);
    var i :| 0 <= i < |dirs| && ParseDirName(dirs[i]) == DirName(name, if Truthy(platform) then platform else None);
    assert AppDir(name, platform) in fs.dirs by {
      ListedAppDir(dirs[i], name, platform);
      assert dirs[i] in dirs;
    }
    assert name in NamesOf(dirs) by {
      NamesOfMembership(dirs, name);
    }
    assert Truthy(platform) ==> exists j :: 0 <= j < |dirs| && ParseDirName(dirs[j]) == DirName(name, platform);
    AppVersionsChecks(fs, name, platform, after, latest);
  }

  /** With a truthy `after`, every version of the catalog is strictly
      greater than `after`, so neither equal to it nor smaller. */
  lemma CatalogAfter(files: seq<string>, name: string, platform: Option<string>, after: Option<string>)
    requires Comparable(files, after) && Truthy(after)
    ensures forall v :: v in Build(Accepted(files, after), name, platform).values ==>
      IsVersion(v) && Gt(v, after.value) && v != after.value && !Gt(after.value, v)
  {
    var arts := Accepted(files, after);
    var vs := Build(arts, name, platform);
    BuildKeys(arts, name, platform);
    forall v | v in vs.values
      ensures IsVersion(v) && Gt(v, after.value) && v != after.value && !Gt(after.value, v)
    {
      AcceptedPass(files, after, v);
      GtStrictOrder(v, after.value, v);
    }
  }

  /** The versions of the catalog are those of the kept files. */
  lemma CatalogVersions(files: seq<string>, name: string, platform: Option<string>, after: Option<string>)
    requires Comparable(files, after)
    ensures forall v :: v in Build(Accepted(files, after), name, platform).values <==> KeptVersion(files, after, v)
  {
    var arts := Accepted(files, after);
    BuildKeys(arts, name, platform);
    forall v
      ensures v in Build(arts, name, platform).values <==> KeptVersion(files, after, v)
    {
      AcceptedVersions(files, after, v);
    }
  }

  /** The full catalog (no `?latest`): its versions are exactly those of the
      kept files, in order of first appearance, each entry with the URLs of
      its version; with a truthy `after`, every version is strictly greater
      than `after`, so neither equal to it nor smaller. */
  lemma AppVersionsCatalog(fs: FileTree, name: string, platform: Option<string>, after: Option<string>)
    requires AfterComparable(fs, name, platform, after)
    requires AppVersions(fs, name, platform, after, false).Ok?
    ensures AppDir(name, platform) in fs.dirs
    ensures var vs := AppVersions(fs, name, platform, after, false).value;
      var files := FileNames(fs.dirs[AppDir(name, platform)]);
      && (forall v :: v in vs.values <==> KeptVersion(files, after, v))
      && vs.keys == FirstOccurrences(VersionsOf(Accepted(files, after)))
      && UrlsMatch(vs, name, platform)
      && (Truthy(after) ==> forall v :: v in vs.values ==>
            IsVersion(v) && Gt(v, after.value) && v != after.value && !Gt(after.value, v))
  {
    var files := FileNames(fs.dirs[AppDir(name, platform)]);
    var arts := Accepted(files, after);
    assert AppVersions(fs, name, platform, after, false) == Ok(Build(arts, name, platform));
    BuildKeys(arts, name, platform);
    BuildUrls(arts, name, platform);
    CatalogVersions(files, name, platform, after);
    if Truthy(after) {
      CatalogAfter(files, name, platform, after);
    }
  }

  /** With `?latest`: `{}` when no file was kept, otherwise the one version
      of the LAST kept file in listing order (not the greatest version),
      with the same entry as in the full catalog. */
  lemma AppVersionsLatest(fs: FileTree, name: string, platform: Option<string>, after: Option<string>)
    requires AfterComparable(fs, name, platform, after)
    requires AppVersions(fs, name, platform, after, true).Ok?
    ensures AppDir(name, platform) in fs.dirs
    ensures var files := FileNames(fs.dirs[AppDir(name, platform)]);
      var arts := Accepted(files, after);
      var l := AppVersions(fs, name, platform, after, true).value;
      var full := AppVersions(fs, name, platform, after, false);
      && full.Ok?
      && (arts == [] ==> l.keys == [] && l.values == map[])
      && (arts != [] ==>
            var v := arts[|arts| - 1].version;
            && l.keys == [v]
            && l.values.Keys == {v}
            && v in full.value.values
            && l.values[v] == full.value.values[v])
  {
    var files := FileNames(fs.dirs[AppDir(name, platform)]);
    var arts := Accepted(files, after);
    var vs := Build(arts, name, platform);
    assert AppVersions(fs, name, platform, after, true) == Ok(LatestOf(arts, vs));
    assert AppVersions(fs, name, platform, after, false) == Ok(vs);
  }
}

