/** What `getSpecific` answers, stated in terms of the files of the app's
    directory, and what `renderHtml` does with its three placeholders. */
module SpecificsFacts {
  import opened Wrappers
  import opened Strings
  import opened Names
  import opened Listing
  import opened OrderedMaps
  import opened Versions
  import opened VersionsFacts
  import opened Specifics

  /** The catalog `getSpecific` reads from the file names `files` of the
      app's directory: every file with a `-`, no `after` filter. */
  function CatalogOf(files: seq<string>, app: string, platform: Option<string>): Versions {
    Build(Accepted(files, None), app, platform)
  }

  /** `getSpecific` on the release tree decides on the catalog of the app's
      directory once the checks of `getAppVersions` pass. */
  lemma SpecificCatalog(fs: FileTree, app: string, platform: Option<string>, version: string, what: What)
    requires AppVersions(fs, app, platform, None, false).Ok?
    ensures AppDir(app, platform) in fs.dirs
    ensures var data := CatalogOf(FileNames(fs.dirs[AppDir(app, platform)]), app, platform);
      Specific(fs, app, platform, version, what) == Resolve(data, app, platform, version, what)
  {
  }

  /** `a` is a file of `version` of the route's kind (`exe` or `txt`). */
  predicate OfKind(a: Artifact, version: string, what: What) {
    a.version == version && a.isTxt == (what == TxtFile)
  }

  /** Every kept file name has a `-`, so none is empty. */
  lemma {:induction false} AcceptedNamed(files: seq<string>, after: Option<string>)
    requires Comparable(files, after)
    ensures forall j :: 0 <= j < |Accepted(files, after)| ==> '-' in Accepted(files, after)[j].file
  {
    if files != [] {
      var n := |files| - 1;
      AcceptedSnoc(files, after);
      AcceptedNamed(files[..n], after);
      ParseFileNameSkips(files[n]);
    }
  }

  /** Among files of one version and kind there is a last one. */
  lemma {:induction false} LastOfKind(arts: seq<Artifact>, version: string, what: What, i: nat)
    requires i < |arts| && OfKind(arts[i], version, what)
    ensures exists j :: i <= j < |arts| && OfKind(arts[j], version, what) &&
                        (forall k :: j < k < |arts| ==> !OfKind(arts[k], version, what))
    decreases |arts| - i
  {
    if exists k :: i < k < |arts| && OfKind(arts[k], version, what) {
      var k :| i < k < |arts| && OfKind(arts[k], version, what);
      LastOfKind(arts, version, what, k);
    } else {
      assert forall k :: i < k < |arts| ==> !OfKind(arts[k], version, what);
    }
  }

  /** On any catalog, a concrete version is reported as missing exactly
      when it is not a key. */
  lemma UnknownVersionMessage(data: Versions, app: string, platform: Option<string>, version: string, what: What)
    requires Valid(data) && version != "latest"
    ensures version !in data.values <==>
      Resolve(data, app, platform, version, what) == Failure("No such version " + version + " of " + Subject(app, platform))
  {
    var o := Resolve(data, app, platform, version, what);
    if o.Failure? && version in data.values {
      assert o.message[8] == what.Name()[0];
      assert ("No such version " + version + " of " + Subject(app, platform))[8] == 'v';
    }
  }

  /** A concrete version no file carries is reported as missing, and only then. */
  lemma ResolveUnknownVersion(files: seq<string>, app: string, platform: Option<string>, version: string, what: What)
    requires version != "latest"
    ensures version !in VersionsOf(Accepted(files, None)) <==>
      Resolve(CatalogOf(files, app, platform), app, platform, version, what) ==
        Failure("No such version " + version + " of " + Subject(app, platform))
  {
    var arts := Accepted(files, None);
    var data := CatalogOf(files, app, platform);
    BuildKeys(arts, app, platform);
    VersionsOfMembership(arts, version);
    UnknownVersionMessage(data, app, platform, version, what);
  }

  /** A concrete `exe` or `txt` redirects to the LAST file of that version
      and kind in listing order, under the app's directory. */
  lemma ResolveFile(files: seq<string>, app: string, platform: Option<string>, version: string, what: What, j: nat)
    requires version != "latest" && what != HtmlPage
    requires var arts := Accepted(files, None);
      && j < |arts| && OfKind(arts[j], version, what)
      && forall k :: j < k < |arts| ==> !OfKind(arts[k], version, what)
    ensures Resolve(CatalogOf(files, app, platform), app, platform, version, what) ==
      Redirect("/" + AppDir(app, platform) + "/" + Accepted(files, None)[j].file)
  {
    var arts := Accepted(files, None);
    AcceptedNamed(files, None);
    BuildLastFile(arts, app, platform, j);
    assert arts[j].file != "";
  }

  /** A concrete version with files, but none of the route's kind, is
      reported as lacking that kind. */
  lemma ResolveNoFile(files: seq<string>, app: string, platform: Option<string>, version: string, what: What, j: nat)
    requires version != "latest" && what != HtmlPage
    requires var arts := Accepted(files, None);
      && j < |arts| && arts[j].version == version
      && forall k :: 0 <= k < |arts| ==> !OfKind(arts[k], version, what)
    ensures Resolve(CatalogOf(files, app, platform), app, platform, version, what) ==
      Failure("No such " + what.Name() + " " + version + " of " + Subject(app, platform))
  {
    var arts := Accepted(files, None);
    BuildKeys(arts, app, platform);
    assert version in VersionsOf(arts);
    BuildFieldAbsent(arts, app, platform, version, what == TxtFile);
  }

  /** A concrete `html` of a version that has files renders the download
      page from that version's entry, whose URLs are its own. */
  lemma ResolvePage(files: seq<string>, app: string, platform: Option<string>, version: string, j: nat)
    requires version != "latest"
    requires j < |Accepted(files, None)| && Accepted(files, None)[j].version == version
    ensures var data := CatalogOf(files, app, platform);
      && Resolve(data, app, platform, version, HtmlPage) == RenderPage
      && version in data.values
      && EntryUrls(data.values[version], UrlPath(app, platform, version))
  {
    var arts := Accepted(files, None);
    BuildKeys(arts, app, platform);
    BuildUrls(arts, app, platform);
    assert version in VersionsOf(arts);
  }

  /** `latest` fails exactly when no file of the directory was kept. */
  lemma ResolveLatestEmpty(files: seq<string>, app: string, platform: Option<string>, what: What)
    ensures Accepted(files, None) == [] <==>
      Resolve(CatalogOf(files, app, platform), app, platform, "latest", what) ==
        Failure("No latest " + what.Name() + " of " + Subject(app, platform))
  {
    var arts := Accepted(files, None);
    BuildKeys(arts, app, platform);
    if arts != [] {
      assert VersionsOf(arts)[0] in VersionsOf(arts);
    }
  }

  /** On a catalog whose entries carry their own URLs, `latest` `html`
      redirects to the page of the last key, and that page renders. */
  lemma LatestPageMessage(data: Versions, app: string, platform: Option<string>)
    requires Valid(data) && UrlsMatch(data, app, platform) && data.keys != []
    ensures var k := data.keys[|data.keys| - 1];
      && Resolve(data, app, platform, "latest", HtmlPage) == Redirect("/api/html/" + UrlPath(app, platform, k))
      && (k != "latest" ==> Resolve(data, app, platform, k, HtmlPage) == RenderPage)
  {
    var k := data.keys[|data.keys| - 1];
    assert k in data.values;
  }

  /** The version `latest` resolves to: the last key of the catalog, which
      is the version whose FIRST file comes last in listing order (see
      `VersionsFacts.BuildKeys`), not the version of the last file. */
  function LatestKey(data: Versions): string
    requires data.keys != []
  {
    data.keys[|data.keys| - 1]
  }

  /** `latest` `html` redirects to the page URL of the latest key, and that
      URL's version renders a page. */
  lemma ResolveLatestPage(files: seq<string>, app: string, platform: Option<string>)
    requires CatalogOf(files, app, platform).keys != []
    ensures var data := CatalogOf(files, app, platform);
      var k := LatestKey(data);
      && Resolve(data, app, platform, "latest", HtmlPage) == Redirect("/api/html/" + UrlPath(app, platform, k))
      && (k != "latest" ==> Resolve(data, app, platform, k, HtmlPage) == RenderPage)
  {
    BuildUrls(Accepted(files, None), app, platform);
    LatestPageMessage(CatalogOf(files, app, platform), app, platform);
  }

  /** `latest` `exe` or `txt` answers as the concrete latest key would when
      that version has a file of the kind. */
  lemma ResolveLatestFile(files: seq<string>, app: string, platform: Option<string>, what: What, i: nat)
    requires what != HtmlPage
    requires var data := CatalogOf(files, app, platform);
      var arts := Accepted(files, None);
      && data.keys != []
      && i < |arts| && OfKind(arts[i], LatestKey(data), what) && LatestKey(data) != "latest"
    ensures var data := CatalogOf(files, app, platform);
      Resolve(data, app, platform, "latest", what) == Resolve(data, app, platform, LatestKey(data), what)
  {
    var arts := Accepted(files, None);
    var data := CatalogOf(files, app, platform);
    var k := LatestKey(data);
    LastOfKind(arts, k, what, i);
    var j :| i <= j < |arts| && OfKind(arts[j], k, what) &&
      forall m :: j < m < |arts| ==> !OfKind(arts[m], k, what);
    ResolveFile(files, app, platform, k, what, j);
    BuildLastFile(arts, app, platform, j);
  }

  /** `latest` `exe` or `txt` redirects to `<dir>/undefined` when no kept
      file of the latest key has the route's kind. */
  lemma ResolveLatestUndefined(arts: seq<Artifact>, app: string, platform: Option<string>, what: What)
    requires what != HtmlPage
    requires Build(arts, app, platform).keys != []
    requires forall j :: 0 <= j < |arts| ==> !OfKind(arts[j], LatestKey(Build(arts, app, platform)), what)
    ensures Resolve(Build(arts, app, platform), app, platform, "latest", what) ==
      Redirect("/" + AppDir(app, platform) + "/" + "undefined")
  {
    var data := Build(arts, app, platform);
    var k := LatestKey(data);
    assert k in data.values;
    assert FieldOf(data.values[k], what) == None by {
      BuildFieldAbsent(arts, app, platform, k, what == TxtFile);
    }
  }

  /** The error middleware: a failed check or lookup answers 400 with the
      error's message, and nothing else does. */
  lemma RespondFailure(fs: FileTree, template: string, app: string, platform: Option<string>, version: string, what: What)
    ensures AppVersions(fs, app, platform, None, false).Err? ==>
      Respond(fs, template, app, platform, version, what) == Error400(AppVersions(fs, app, platform, None, false).message)
    ensures Respond(fs, template, app, platform, version, what).Error400? <==>
      Specific(fs, app, platform, version, what).Failure?
  {
  }

  /** The route for a concrete `exe` or `txt` answers 307 to the last file of
      that version and kind, under the app's directory. */
  lemma RespondFile(fs: FileTree, template: string, app: string, platform: Option<string>, version: string, what: What, j: nat)
    requires AppVersions(fs, app, platform, None, false).Ok?
    requires version != "latest" && what != HtmlPage
    requires AppDir(app, platform) in fs.dirs
    requires var arts := Accepted(FileNames(fs.dirs[AppDir(app, platform)]), None);
      && j < |arts| && OfKind(arts[j], version, what)
      && forall k :: j < k < |arts| ==> !OfKind(arts[k], version, what)
    ensures Respond(fs, template, app, platform, version, what) ==
      Redirect307("/" + AppDir(app, platform) + "/" + Accepted(FileNames(fs.dirs[AppDir(app, platform)]), None)[j].file)
  {
    var files := FileNames(fs.dirs[AppDir(app, platform)]);
    SpecificCatalog(fs, app, platform, version, what);
    ResolveFile(files, app, platform, version, what, j);
  }

  /** The route for a concrete `html` of a version that has files answers
      with the template rendered for that version's entry, whose URLs are
      its own. */
  lemma RespondPage(fs: FileTree, template: string, app: string, platform: Option<string>, version: string, j: nat)
    requires AppVersions(fs, app, platform, None, false).Ok?
    requires version != "latest"
    requires AppDir(app, platform) in fs.dirs
    requires var arts := Accepted(FileNames(fs.dirs[AppDir(app, platform)]), None);
      j < |arts| && arts[j].version == version
    ensures var data := CatalogOf(FileNames(fs.dirs[AppDir(app, platform)]), app, platform);
      && version in data.values
      && Respond(fs, template, app, platform, version, HtmlPage) ==
           Html(RenderHtml(template, data.values[version], app, version))
      && EntryUrls(data.values[version], UrlPath(app, platform, version))
  {
    var files := FileNames(fs.dirs[AppDir(app, platform)]);
    SpecificCatalog(fs, app, platform, version, HtmlPage);
    ResolvePage(files, app, platform, version, j);
  }

  /** The URL tail of an entry splits back, on `/`, into its route
      parameters. */
  lemma UrlPathSplits(app: string, platform: Option<string>, version: string)
    requires '/' !in app && '/' !in version
    requires platform.Some? ==> '/' !in platform.value
    ensures Split(UrlPath(app, platform, version), "/") ==
      [app] + (if Truthy(platform) then [platform.value] else []) + [version]
  {
    SplitCharWhole(app, '/');
    SplitCharWhole(version, '/');
    if Truthy(platform) {
      var p := platform.value;
      SplitCharWhole(p, '/');
      SplitCharConcat(app, '/', p + "/" + version);
      SplitCharConcat(p, '/', version);
      assert UrlPath(app, platform, version) == app + ['/'] + (p + ['/'] + version);
    } else {
      SplitCharConcat(app, '/', version);
      assert UrlPath(app, platform, version) == app + ['/'] + version;
    }
  }

  /** `s` holds no occurrence of the placeholder `mark`. */
  ghost predicate Lacks(s: string, mark: string) {
    forall i: nat :: !MatchAt(s, mark, i)
  }

  /** Text without `{` holds no placeholder. */
  lemma NoBrace(s: string, mark: string)
    requires mark != [] && mark[0] == '{' && '{' !in s
    ensures Lacks(s, mark)
  {
    forall i: nat | MatchAt(s, mark, i) ensures false {
    }
  }

  /** A template without placeholders is sent unchanged. */
  lemma RenderHtmlPlain(template: string, e: Entry, app: string, version: string)
    requires Lacks(template, TitleMark) && Lacks(template, ExeMark) && Lacks(template, TxtMark)
    ensures RenderHtml(template, e, app, version) == template
  {
    ReplaceAllAbsent(template, TitleMark, "GOLOS " + app + " - " + version);
    if Truthy(e.exeUrl) {
      ReplaceAllAbsent(template, ExeMark, e.exeUrl.value);
    }
    ReplaceAllAbsent(template, TxtMark, if Truthy(e.txtUrl) then e.txtUrl.value else "");
  }

  /** `mark` does not occur at `i` in `s` when they differ at offset `k`. */
  lemma NotAt(s: string, mark: string, i: nat, k: nat)
    requires k < |mark| && (i + |mark| <= |s| ==> s[i + k] != mark[k])
    ensures !MatchAt(s, mark, i)
  {
    if i + |mark| <= |s| {
      assert s[i..i + |mark|][k] == s[i + k];
    }
  }

  /** No placeholder occurs inside another. */
  lemma MarksDistinct()
    ensures Lacks(ExeMark, TitleMark) && Lacks(TxtMark, TitleMark)
    ensures Lacks(TitleMark, ExeMark) && Lacks(TxtMark, ExeMark)
    ensures Lacks(TitleMark, TxtMark) && Lacks(ExeMark, TxtMark)
  {
    forall i: nat ensures !MatchAt(ExeMark, TitleMark, i) && !MatchAt(TxtMark, TitleMark, i) {
      if i == 0 {
        NotAt(ExeMark, TitleMark, 0, 2);
        NotAt(TxtMark, TitleMark, 0, 3);
      } else if i == 1 {
        NotAt(ExeMark, TitleMark, 1, 0);
        NotAt(TxtMark, TitleMark, 1, 0);
      } else if i == 2 {
        NotAt(ExeMark, TitleMark, 2, 0);
        NotAt(TxtMark, TitleMark, 2, 0);
      }
    }
    forall i: nat ensures !MatchAt(TxtMark, ExeMark, i) && !MatchAt(ExeMark, TxtMark, i) {
      NotAt(TxtMark, ExeMark, i, 2);
      NotAt(ExeMark, TxtMark, i, 2);
    }
  }

  /** No placeholder starts inside text without `{`. */
  lemma BraceFreePrefix(x: string, s: string, mark: string)
    requires mark != [] && mark[0] == '{' && '{' !in x
    ensures forall i: nat :: i < |x| ==> !MatchAt(x + s, mark, i)
  {
    forall i: nat | i < |x| ensures !MatchAt(x + s, mark, i) {
      assert (x + s)[i] == x[i];
      NotAt(x + s, mark, i, 0);
    }
  }

  /** No placeholder `mark` starts inside `pre + m` when `pre` has no `{`,
      `m` has `{` only first, and `m` differs from `mark` at offset `k`. */
  lemma MarkPrefix(pre: string, m: string, s: string, mark: string, k: nat)
    requires mark != [] && mark[0] == '{' && '{' !in pre
    requires forall j :: 0 < j < |m| ==> m[j] != '{'
    requires k < |m| && k < |mark| && m[k] != mark[k]
    ensures forall i: nat :: i < |pre + m| ==> !MatchAt(pre + m + s, mark, i)
  {
    var t := pre + m + s;
    forall i: nat | i < |pre + m| ensures !MatchAt(t, mark, i) {
      if i < |pre| {
        assert t[i] == pre[i];
        NotAt(t, mark, i, 0);
      } else if i == |pre| {
        assert t[i + k] == m[k];
        NotAt(t, mark, i, k);
      } else {
        assert t[i] == m[i - |pre|];
        NotAt(t, mark, i, 0);
      }
    }
  }

  lemma TitleMarkShape()
    ensures forall j :: 0 < j < |TitleMark| ==> TitleMark[j] != '{'
  {
  }

  lemma ExeMarkShape()
    ensures forall j :: 0 < j < |ExeMark| ==> ExeMark[j] != '{'
  {
  }

  lemma TxtMarkShape()
    ensures forall j :: 0 < j < |TxtMark| ==> TxtMark[j] != '{'
  {
  }

  /** The `{$EXE_URL}` and `{$TXT_URL}` steps of `renderHtml` keep a prefix
      without `{` and go on after it. */
  lemma RenderTail(x: string, w: string, e: Entry)
    requires '{' !in x
    ensures var withExe := if Truthy(e.exeUrl) then ReplaceAll(x + w, ExeMark, e.exeUrl.value) else x + w;
      var rest := if Truthy(e.exeUrl) then ReplaceAll(w, ExeMark, e.exeUrl.value) else w;
      ReplaceAll(withExe, TxtMark, if Truthy(e.txtUrl) then e.txtUrl.value else "") ==
        x + ReplaceAll(rest, TxtMark, if Truthy(e.txtUrl) then e.txtUrl.value else "")
  {
    var rest := if Truthy(e.exeUrl) then ReplaceAll(w, ExeMark, e.exeUrl.value) else w;
    if Truthy(e.exeUrl) {
      BraceFreePrefix(x, w, ExeMark);
      ReplaceAllKeep(x, w, ExeMark, e.exeUrl.value);
    }
    BraceFreePrefix(x, rest, TxtMark);
    ReplaceAllKeep(x, rest, TxtMark, if Truthy(e.txtUrl) then e.txtUrl.value else "");
  }

  /** Every `{$TITLE}` becomes `GOLOS <app> - <version>`: text before the
      first one is kept, and the rest of the page is rendered on. */
  lemma RenderHtmlTitle(pre: string, post: string, e: Entry, app: string, version: string)
    requires '{' !in pre && '{' !in app && '{' !in version
    ensures RenderHtml(pre + TitleMark + post, e, app, version) ==
      pre + ("GOLOS " + app + " - " + version) + RenderHtml(post, e, app, version)
  {
    var title := "GOLOS " + app + " - " + version;
    assert '{' !in title by {
      assert title == "GOLOS " + (app + (" - " + version));
    }
    BraceFreePrefix(pre, TitleMark + post, TitleMark);
    ReplaceAllMiddle(pre, TitleMark, post, title);
    var w := ReplaceAll(post, TitleMark, title);
    assert pre + title + w == (pre + title) + w;
    RenderTail(pre + title, w, e);
  }

  /** Every `{$EXE_URL}` becomes the `exe` URL when the entry has one, and
      is LEFT IN the page when it has none. */
  lemma RenderHtmlExe(pre: string, post: string, e: Entry, app: string, version: string)
    requires '{' !in pre
    requires e.exeUrl.Some? ==> '{' !in e.exeUrl.value
    ensures RenderHtml(pre + ExeMark + post, e, app, version) ==
      pre + (if Truthy(e.exeUrl) then e.exeUrl.value else ExeMark) + RenderHtml(post, e, app, version)
  {
    var title := "GOLOS " + app + " - " + version;
    var txt := if Truthy(e.txtUrl) then e.txtUrl.value else "";
    ExeMarkShape();
    MarkPrefix(pre, ExeMark, post, TitleMark, 2);
    ReplaceAllKeep(pre + ExeMark, post, TitleMark, title);
    var w := ReplaceAll(post, TitleMark, title);
    if Truthy(e.exeUrl) {
      var url := e.exeUrl.value;
      BraceFreePrefix(pre, ExeMark + w, ExeMark);
      assert pre + ExeMark + w == pre + (ExeMark + w);
      ReplaceAllKeep(pre, ExeMark + w, ExeMark, url);
      ReplaceAllFront(w, ExeMark, url);
      var w2 := ReplaceAll(w, ExeMark, url);
      assert pre + (url + w2) == (pre + url) + w2;
      BraceFreePrefix(pre + url, w2, TxtMark);
      ReplaceAllKeep(pre + url, w2, TxtMark, txt);
    } else {
      MarkPrefix(pre, ExeMark, w, TxtMark, 2);
      ReplaceAllKeep(pre + ExeMark, w, TxtMark, txt);
    }
  }

  /** Every `{$TXT_URL}` becomes the `txt` URL when the entry has one, and
      is removed when it has none. */
  lemma RenderHtmlTxt(pre: string, post: string, e: Entry, app: string, version: string)
    requires '{' !in pre
    ensures RenderHtml(pre + TxtMark + post, e, app, version) ==
      pre + (if Truthy(e.txtUrl) then e.txtUrl.value else "") + RenderHtml(post, e, app, version)
  {
    var title := "GOLOS " + app + " - " + version;
    var txt := if Truthy(e.txtUrl) then e.txtUrl.value else "";
    TxtMarkShape();
    MarkPrefix(pre, TxtMark, post, TitleMark, 3);
    ReplaceAllKeep(pre + TxtMark, post, TitleMark, title);
    var w := ReplaceAll(post, TitleMark, title);
    var w2 := if Truthy(e.exeUrl) then ReplaceAll(w, ExeMark, e.exeUrl.value) else w;
    if Truthy(e.exeUrl) {
      MarkPrefix(pre, TxtMark, w, ExeMark, 2);
      ReplaceAllKeep(pre + TxtMark, w, ExeMark, e.exeUrl.value);
    }
    BraceFreePrefix(pre, TxtMark + w2, TxtMark);
    assert pre + TxtMark + w2 == pre + (TxtMark + w2);
    ReplaceAllMiddle(pre, TxtMark, w2, txt);
  }
}
