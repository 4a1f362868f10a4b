/** A small release tree, `files/demo-win/` with the 1.0 binary and notes and
    the 2.0 binary, and what each route answers on it. */
module Scenario {
  import opened Wrappers
  import opened Semver
  import opened Names
  import opened Listing
  import opened OrderedMaps
  import opened Apps
  import opened Versions
  import opened Specifics
  import opened SpecificsFacts

  const Exe1: string := "demo-1.0.exe"
  const Txt1: string := "demo-1.0.txt"
  const Exe2: string := "demo-2.0.exe"
  const V1: string := "1.0.0"
  const V2: string := "2.0.0"
  const Win: Option<string> := Some("win")

  /** The tree, its files in alphabetical listing order. */
  function Tree(): FileTree {
    FileTree([Dirent("demo-win", Directory)],
             map["demo-win" := [Dirent(Exe1, File), Dirent(Txt1, File), Dirent(Exe2, File)]])
  }

  lemma ParseExe1()
    ensures ParseFileName(Exe1) == Some(FileName(V1, "exe"))
  {
    var ver := "1.0";
    assert ver == "1" + "." + "0";
    assert Exe1 == "demo" + "-" + ver + "." + "exe";
    ParseFileNameOf("demo", ver, "exe");
    NormalizeTwo("1", "0");
    assert Normalize(ver) == V1;
  }

  lemma ParseTxt1()
    ensures ParseFileName(Txt1) == Some(FileName(V1, "txt"))
  {
    var ver := "1.0";
    assert ver == "1" + "." + "0";
    assert Txt1 == "demo" + "-" + ver + "." + "txt";
    ParseFileNameOf("demo", ver, "txt");
    NormalizeTwo("1", "0");
    assert Normalize(ver) == V1;
  }

  lemma ParseExe2()
    ensures ParseFileName(Exe2) == Some(FileName(V2, "exe"))
  {
    var ver := "2.0";
    assert ver == "2" + "." + "0";
    assert Exe2 == "demo" + "-" + ver + "." + "exe";
    ParseFileNameOf("demo", ver, "exe");
    NormalizeTwo("2", "0");
    assert Normalize(ver) == V2;
  }

  lemma TreeListing()
    ensures DirNames(Tree().root) == ["demo-win"]
    ensures "demo-win" == AppDir("demo", Win) && AppDir("demo", Win) in Tree().dirs
    ensures FileNames(Tree().dirs["demo-win"]) == [Exe1, Txt1, Exe2]
  {
    var l3 := [Dirent(Exe2, File)];
    assert l3[1..] == [];
    assert FileNames(l3) == [Exe2];
    var l2 := [Dirent(Txt1, File)] + l3;
    assert l2[1..] == l3;
    assert FileNames(l2) == [Txt1, Exe2];
    var l1 := [Dirent(Exe1, File)] + l2;
    assert l1[1..] == l2;
    assert FileNames(l1) == [Exe1, Txt1, Exe2];
    assert Tree().dirs["demo-win"] == l1;
  }

  /** One directory `<app>-<platform>` gives one app with that platform. */
  lemma OneDir(dir: string, app: string, p: string)
    requires ParseDirName(dir) == DirName(app, Some(p))
    ensures AppsOf([dir]) == Ok(OrderedMap([app], map[app := AppInfo(Some([p]))]))
  {
    assert [dir][..0] == [];
    assert AppsOf([dir]) == AddDir(Empty(), dir);
    var r := Put(Empty(), app, AppInfo(Some([p])));
    assert AddDir(Empty(), dir) == Ok(r);
    assert r.keys == [] + [app] == [app];
  }

  /** `listApps` finds one app with one platform. */
  lemma TreeApps()
    ensures AppsOf(["demo-win"]) == Ok(OrderedMap(["demo"], map["demo" := AppInfo(Some(["win"]))]))
  {
    assert ParseDirName("demo-win") == DirName("demo", Some("win")) by {
      ParseDirNameOf("demo", "win");
      assert "demo-win" == "demo" + "-" + "win";
    }
    OneDir("demo-win", "demo", "win");
  }

  const A1: Artifact := Artifact(Exe1, V1, false)
  const T1: Artifact := Artifact(Txt1, V1, true)
  const A2: Artifact := Artifact(Exe2, V2, false)

  /** Three kept files, kept in listing order. */
  lemma AcceptedThree(f1: string, f2: string, f3: string, a1: Artifact, a2: Artifact, a3: Artifact)
    requires Kept(f1, None) == Some(a1) && Kept(f2, None) == Some(a2) && Kept(f3, None) == Some(a3)
    ensures Accepted([f1, f2, f3], None) == [a1, a2, a3]
  {
    var files := [f1, f2, f3];
    AcceptedSnoc(files, None);
    assert files[..2] == [f1, f2];
    AcceptedSnoc([f1, f2], None);
    assert [f1, f2][..1] == [f1];
    AcceptedSnoc([f1], None);
    assert [f1][..0] == [];
  }

  lemma KeptExe1()
    ensures Kept(Exe1, None) == Some(A1)
  {
    ParseExe1();
  }

  lemma KeptTxt1()
    ensures Kept(Txt1, None) == Some(T1)
  {
    ParseTxt1();
  }

  lemma KeptExe2()
    ensures Kept(Exe2, None) == Some(A2)
  {
    ParseExe2();
  }

  /** `GET /api` lists the app once, with its platform and its URL. */
  lemma TreeApi()
    ensures ApiAppsOf(Tree().root) == Ok([AppRef("demo", Some("win"), "/api/" + "demo" + "/" + "win")])
  {
    TreeListing();
    TreeApps();
    var apps := OrderedMap(["demo"], map["demo" := AppInfo(Some(["win"]))]);
    assert apps.keys[..0] == [];
    assert Flatten(apps) == FlattenKeys([], apps.values) + RefsOf("demo", AppInfo(Some(["win"])));
    var refs := RefsOf("demo", AppInfo(Some(["win"])));
    assert |refs| == 1 && refs[0] == AppRef("demo", Some("win"), "/api/" + "demo" + "/" + "win");
    assert Flatten(apps) == [AppRef("demo", Some("win"), "/api/" + "demo" + "/" + "win")];
    assert ApiAppsOf(Tree().root) == Ok(Flatten(apps));
  }

  /** All three files are kept, in listing order. */
  lemma TreeArts()
    ensures Accepted([Exe1, Txt1, Exe2], None) == [A1, T1, A2]
  {
    KeptExe1();
    KeptTxt1();
    KeptExe2();
    AcceptedThree(Exe1, Txt1, Exe2, A1, T1, A2);
  }

  function Url(v: string): string {
    UrlPath("demo", Win, v)
  }

  /** Version 1.0.0 has both the binary and the notes. */
  const E1: Entry := Entry(Some(Exe1), Some("/api/exe/" + Url(V1)), Some(Txt1), Some("/api/txt/" + Url(V1)), "/api/html/" + Url(V1))
  /** Version 2.0.0 has only the binary. */
  const E2: Entry := Entry(Some(Exe2), Some("/api/exe/" + Url(V2)), None, None, "/api/html/" + Url(V2))

  function Catalog(): Versions {
    OrderedMap([V1, V2], map[V1 := E1, V2 := E2])
  }

  /** A binary and notes of one version, then a binary of another. */
  lemma BuildThree(x: Artifact, y: Artifact, z: Artifact, name: string, platform: Option<string>)
    requires x.version == y.version != z.version && !x.isTxt && y.isTxt && !z.isTxt
    ensures var u := UrlPath(name, platform, x.version);
      var w := UrlPath(name, platform, z.version);
      Build([x, y, z], name, platform) ==
        OrderedMap([x.version, z.version], map[
          x.version := Entry(Some(x.file), Some("/api/exe/" + u), Some(y.file), Some("/api/txt/" + u), "/api/html/" + u),
          z.version := Entry(Some(z.file), Some("/api/exe/" + w), None, None, "/api/html/" + w)])
  {
    BuildSnoc([], x, name, platform);
    assert [] + [x] == [x];
    BuildSnoc([x], y, name, platform);
    assert [x] + [y] == [x, y];
    BuildSnoc([x, y], z, name, platform);
    assert [x, y] + [z] == [x, y, z];
  }

  /** A single binary. */
  lemma BuildOne(x: Artifact, name: string, platform: Option<string>)
    requires !x.isTxt
    ensures var u := UrlPath(name, platform, x.version);
      Build([x], name, platform) ==
        OrderedMap([x.version], map[x.version := Entry(Some(x.file), Some("/api/exe/" + u), None, None, "/api/html/" + u)])
  {
    BuildSnoc([], x, name, platform);
    assert [] + [x] == [x];
  }

  lemma TreeBuild()
    ensures Build([A1, T1, A2], "demo", Win) == Catalog()
  {
    assert V1 != V2 by {
      assert V1[0] != V2[0];
    }
    BuildThree(A1, T1, A2, "demo", Win);
  }

  /** `getAppVersions("demo", "win")` lists 1.0.0 then 2.0.0. */
  lemma TreeCatalog()
    ensures AppVersions(Tree(), "demo", Win, None, false) == Ok(Catalog())
  {
    TreeListing();
    TreeApps();
    TreeArts();
    TreeBuild();
  }

  /** `getSpecific` for the latest binary: the 2.0 binary. */
  lemma LatestExe()
    ensures Specific(Tree(), "demo", Win, "latest", ExeFile) == Redirect("/" + "demo-win" + "/" + Exe2)
  {
    TreeCatalog();
    TreeListing();
  }

  /** `getSpecific` for the notes of 1.0.0: the 1.0 notes. */
  lemma NotesOfFirst()
    ensures Specific(Tree(), "demo", Win, V1, TxtFile) == Redirect("/" + "demo-win" + "/" + Txt1)
  {
    TreeCatalog();
    TreeListing();
  }

  /** `getSpecific` for the notes of 2.0.0, which has none: an error. */
  lemma NoNotesOfSecond()
    ensures Specific(Tree(), "demo", Win, V2, TxtFile) == Failure("No such " + "txt" + " " + V2 + " of " + "demo-win")
  {
    TreeCatalog();
    assert V1 != V2 by {
      assert V1[0] != V2[0];
    }
    assert Subject("demo", Win) == "demo-win";
  }

  /** `getSpecific` for the latest notes: the latest version, 2.0.0, has
      none, so the redirect names `undefined`. */
  lemma LatestNotes()
    ensures Specific(Tree(), "demo", Win, "latest", TxtFile) == Redirect("/" + "demo-win" + "/" + "undefined")
  {
    TreeCatalog();
    TreeListing();
  }

  /** `getSpecific` for the page of 1.0.0: the page is rendered. */
  lemma PageOfFirst()
    ensures Specific(Tree(), "demo", Win, V1, HtmlPage) == RenderPage
  {
    TreeCatalog();
  }

  /** The route for the page of 1.0.0 sends any template rendered with the
      entry of 1.0.0. */
  lemma PageOfFirstRendered(template: string)
    ensures Respond(Tree(), template, "demo", Win, V1, HtmlPage) == Html(RenderHtml(template, E1, "demo", V1))
  {
    PageOfFirst();
    TreeCatalog();
  }

  /** `getSpecific` for the latest page: a redirect to the page URL of 2.0.0. */
  lemma LatestPage()
    ensures Specific(Tree(), "demo", Win, "latest", HtmlPage) == Redirect("/api/html/" + Url(V2))
  {
    TreeCatalog();
  }

  /** An app no directory names is unknown. */
  lemma UnknownApp()
    ensures Specific(Tree(), "ghost", None, "latest", ExeFile) == Failure(NoSuchApp("ghost"))
  {
    TreeListing();
    TreeApps();
    assert "ghost" != "demo" by {
      assert "ghost"[0] != "demo"[0];
    }
  }

  /** `?latest`: the version of the last file, here 2.0.0 too. */
  lemma LatestQuery()
    ensures AppVersions(Tree(), "demo", Win, None, true) == Ok(OrderedMap([V2], map[V2 := E2]))
  {
    TreeListing();
    TreeApps();
    TreeArts();
    TreeBuild();
  }

  /** `1.0.0` and `2.0.0` are versions, the second greater. */
  lemma TreeVersions()
    ensures IsVersion(V1) && IsVersion(V2)
    ensures Gt(V2, V1) && !Gt(V1, V1)
  {
    assert "1"[..0] == "" && "2"[..0] == "";
    assert DigitsValue("0") == 0 && DigitsValue("1") == 1 && DigitsValue("2") == 2;
    VersionOf("1", "0", "0");
    assert "1" + "." + "0" + "." + "0" == V1;
    VersionOf("2", "0", "0");
    assert "2" + "." + "0" + "." + "0" == V2;
  }

  /** Two skipped files, then a kept one. */
  lemma AcceptedLastOfThree(f1: string, f2: string, f3: string, after: Option<string>, a3: Artifact)
    requires FileComparable(f1, after) && FileComparable(f2, after) && FileComparable(f3, after)
    requires Kept(f1, after).None? && Kept(f2, after).None? && Kept(f3, after) == Some(a3)
    ensures Comparable([f1, f2, f3], after)
    ensures Accepted([f1, f2, f3], after) == [a3]
  {
    var files := [f1, f2, f3];
    assert Comparable(files, after);
    AcceptedSnoc(files, after);
    assert files[..2] == [f1, f2];
    AcceptedSnoc([f1, f2], after);
    assert [f1, f2][..1] == [f1];
    AcceptedSnoc([f1], after);
    assert [f1][..0] == [];
  }

  lemma AfterFirstKept()
    ensures FileComparable(Exe1, Some(V1)) && FileComparable(Txt1, Some(V1)) && FileComparable(Exe2, Some(V1))
    ensures Kept(Exe1, Some(V1)).None? && Kept(Txt1, Some(V1)).None?
    ensures Kept(Exe2, Some(V1)) == Some(A2)
  {
    TreeVersions();
    ParseExe1();
    ParseTxt1();
    ParseExe2();
  }

  /** With `after=1.0.0` only the 2.0 binary is kept. */
  lemma AfterFirstArts()
    ensures Comparable([Exe1, Txt1, Exe2], Some(V1))
    ensures Accepted([Exe1, Txt1, Exe2], Some(V1)) == [A2]
  {
    AfterFirstKept();
    AcceptedLastOfThree(Exe1, Txt1, Exe2, Some(V1), A2);
  }

  /** `getAppVersions("demo", "win", after)` reads the three files of
      `demo-win`. */
  lemma TreeRead(after: Option<string>)
    requires Comparable([Exe1, Txt1, Exe2], after)
    ensures AfterComparable(Tree(), "demo", Win, after)
    ensures AppVersions(Tree(), "demo", Win, after, false) == Ok(Build(Accepted([Exe1, Txt1, Exe2], after), "demo", Win))
  {
    TreeListing();
    TreeApps();
    assert FileNames(Tree().dirs[AppDir("demo", Win)]) == [Exe1, Txt1, Exe2];
  }

  /** `getAppVersions("demo", "win", "1.0.0")` leaves 1.0.0 out. */
  lemma AfterFirst()
    ensures AfterComparable(Tree(), "demo", Win, Some(V1))
    ensures AppVersions(Tree(), "demo", Win, Some(V1), false) == Ok(OrderedMap([V2], map[V2 := E2]))
  {
    AfterFirstArts();
    TreeRead(Some(V1));
    BuildOne(A2, "demo", Win);
  }

  /** With the listing binary 1, binary 2, notes 1, `?latest` answers the
      version of the last file, 1.0.0, while `getSpecific`'s `latest` takes
      the last key of the catalog, 2.0.0. */
  lemma LatestDisagree(x: Artifact, y: Artifact, z: Artifact, name: string, platform: Option<string>)
    requires x.version == z.version != y.version && !x.isTxt && !y.isTxt && z.isTxt
    ensures var vs := Build([x, y, z], name, platform);
      && LatestOf([x, y, z], vs).keys == [x.version]
      && LatestKey(vs) == y.version
  {
    BuildSnoc([], x, name, platform);
    assert [] + [x] == [x];
    BuildSnoc([x], y, name, platform);
    assert [x] + [y] == [x, y];
    BuildSnoc([x, y], z, name, platform);
    assert [x, y] + [z] == [x, y, z];
  }
}
