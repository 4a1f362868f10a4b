/** The naming convention of the release tree: directories `<app>[-<platform>]`
    and files `<product>-<version>.<ext>`. */
module Names {
  import opened Wrappers
  import opened Strings

  datatype DirName = DirName(app: string, platform: Option<string>)

  /** `listApps`' reading of one directory name: split on `-`; with more than
      one piece the last is the platform and the others, joined again with
      `-`, are the app name. */
  function ParseDirName(dir: string): DirName {
    var parts := Split(dir, "-");
    if |parts| > 1 then DirName(Join(parts[..|parts| - 1], "-"), Some(parts[|parts| - 1]))
    else DirName(parts[0], None)
  }

  /** A name with a `-` has a platform: the text after its last `-`; the text
      before it is the app name. A name without `-` is an app name. */
  lemma ParseDirNameInverse(dir: string)
    ensures ParseDirName(dir).platform.None? <==> '-' !in dir
    ensures ParseDirName(dir).platform.None? ==> ParseDirName(dir).app == dir
    ensures ParseDirName(dir).platform.Some? ==>
      && '-' !in ParseDirName(dir).platform.value
      && dir == ParseDirName(dir).app + "-" + ParseDirName(dir).platform.value
  {
    var parts := Split(dir, "-");
    SplitCharWhole(dir, '-');
    JoinSplit(dir, "-");
    SplitCharPieces(dir, '-');
    if |parts| > 1 {
      JoinSnoc(parts, "-");
      assert parts != [dir];
    }
  }

  /** `a` is the platform-less app `a`; `a-b` is app `a` on platform `b`, and
      `a-b-c` is app `a-b` on platform `c`. */
  lemma ParseDirNameOf(app: string, platform: string)
    requires '-' !in platform
    ensures ParseDirName(app + "-" + platform) == DirName(app, Some(platform))
    ensures '-' !in app ==> ParseDirName(app) == DirName(app, None)
  {
    SplitCharConcat(app, '-', platform);
    SplitCharWhole(platform, '-');
    SplitCharWhole(app, '-');
    var parts := Split(app + "-" + platform, "-");
    assert parts[..|parts| - 1] == Split(app, "-");
    JoinSplit(app, "-");
  }

  datatype FileName = FileName(version: string, ext: string)

  /** `getAppVersions`' reading of one file name: `None` for a name without
      `-` (skipped); otherwise the last `-` piece, split on `.`, gives the
      extension (last `.` piece) and the version (the others joined with `.`,
      with `.0` appended when there were exactly two). */
  function ParseFileName(file: string): Option<FileName> {
    var parts := Split(file, "-");
    if |parts| < 2 then None
    else
      var verParts := Split(parts[|parts| - 1], ".");
      var raw := verParts[..|verParts| - 1];
      var version := if |raw| == 2 then Join(raw, ".") + ".0" else Join(raw, ".");
      Some(FileName(version, verParts[|verParts| - 1]))
  }

  /** A `major.minor` version gets a `.0` patch component; other versions are
      kept as they are. */
  function Normalize(ver: string): string {
    if |Split(ver, ".")| == 2 then ver + ".0" else ver
  }

  /** A file is skipped exactly when its name has no `-`. */
  lemma ParseFileNameSkips(file: string)
    ensures ParseFileName(file).None? <==> '-' !in file
  {
    SplitCharWhole(file, '-');
    JoinSplit(file, "-");
  }

  /** `<product>-<ver>.<ext>` reads as version `Normalize(ver)` with extension
      `ext`, whatever `-` the product name holds. */
  lemma ParseFileNameOf(product: string, ver: string, ext: string)
    requires '-' !in ver && '-' !in ext && '.' !in ext
    ensures ParseFileName(product + "-" + ver + "." + ext) == Some(FileName(Normalize(ver), ext))
  {
    var verExt := ver + "." + ext;
    assert '-' !in verExt;
    assert product + "-" + ver + "." + ext == product + "-" + verExt;
    SplitCharConcat(product, '-', verExt);
    SplitCharWhole(verExt, '-');
    SplitCharConcat(ver, '.', ext);
    SplitCharWhole(ext, '.');
    var verParts := Split(verExt, ".");
    assert verParts[..|verParts| - 1] == Split(ver, ".");
    JoinSplit(ver, ".");
  }

  /** Two dot-separated components get `.0` appended. */
  lemma NormalizeTwo(x: string, y: string)
    requires '.' !in x && '.' !in y
    ensures Normalize(x + "." + y) == x + "." + y + ".0"
  {
    SplitCharConcat(x, '.', y);
    SplitCharWhole(x, '.');
    SplitCharWhole(y, '.');
  }

  /** Three dot-separated components are kept as they are. */
  lemma NormalizeThree(x: string, y: string, z: string)
    requires '.' !in x && '.' !in y && '.' !in z
    ensures Normalize(x + "." + y + "." + z) == x + "." + y + "." + z
  {
    SplitCharConcat(x, '.', y + "." + z);
    SplitCharConcat(y, '.', z);
    SplitCharWhole(x, '.');
    SplitCharWhole(y, '.');
    SplitCharWhole(z, '.');
    assert x + "." + y + "." + z == x + "." + (y + "." + z);
  }

  /** `demo-1.2.txt` is version `1.2.0` with extension `txt`. */
  lemma ParseTwoComponentExample()
    ensures ParseFileName("demo-1.2.txt") == Some(FileName("1.2.0", "txt"))
  {
    var file, ver := "demo-1.2.txt", "1.2";
    assert file == "demo" + "-" + ver + "." + "txt";
    assert ver == "1" + "." + "2";
    ParseFileNameOf("demo", ver, "txt");
    NormalizeTwo("1", "2");
    assert Normalize(ver) == "1.2.0";
  }

  /** `demo-1.2.3.exe` is version `1.2.3` with extension `exe`. */
  lemma ParseThreeComponentExample()
    ensures ParseFileName("demo-1.2.3.exe") == Some(FileName("1.2.3", "exe"))
  {
    var file, ver := "demo-1.2.3.exe", "1.2.3";
    assert file == "demo" + "-" + ver + "." + "exe";
    assert ver == "1" + "." + "2" + "." + "3";
    ParseFileNameOf("demo", ver, "exe");
    NormalizeThree("1", "2", "3");
  }
}
