/** `listApps`, which reads the application list from the directory names
    under `files/`, and the `GET /api` handler's flattening of that list. */
module Apps {
  import opened Wrappers
  import opened Names
  import opened Listing
  import opened OrderedMaps

  /** `{}` for a platform-less app, `{ platforms: [...] }` otherwise. */
  datatype AppInfo = AppInfo(platforms: Option<seq<string>>)

  type Apps = OrderedMap<AppInfo>

  /** The message of the `TypeError` raised by `apps[name].platforms.push`
      when `apps[name]` has no `platforms`. */
  const PushOnUndefined: string := "Cannot read properties of undefined (reading 'push')"

  /** One turn of `listApps`' loop over the directory `dir`. */
  function AddDir(apps: Apps, dir: string): (r: Result<Apps>)
    requires Valid(apps)
    ensures r.Ok? ==> Valid(r.value)
  {
    var d := ParseDirName(dir);
    match d.platform
    case Some(p) =>
      if d.app in apps.values then
        match apps.values[d.app].platforms
        case None => Err(PushOnUndefined)
        case Some(ps) => Ok(Put(apps, d.app, AppInfo(Some(ps + [p]))))
      else Ok(Put(apps, d.app, AppInfo(Some([p]))))
    case None =>
      if d.app in apps.values then Ok(apps) else Ok(Put(apps, d.app, AppInfo(None)))
  }

  /** What `listApps` returns, or the error it throws, for the directory
      names `dirs` in listing order. */
  function AppsOf(dirs: seq<string>): (r: Result<Apps>)
    ensures r.Ok? ==> Valid(r.value)
  {
    if dirs == [] then Ok(Empty())
    else
      match AppsOf(dirs[..|dirs| - 1])
      case Err(m) => Err(m)
      case Ok(apps) => AddDir(apps, dirs[|dirs| - 1])
  }

  /** An error stops the scan: the result is the error of the first
      directory that raised one. */
  lemma {:induction false} AppsOfErrSticks(dirs: seq<string>, k: nat)
    requires k <= |dirs|
    requires AppsOf(dirs[..k]).Err?
    ensures AppsOf(dirs) == AppsOf(dirs[..k])
    decreases |dirs| - k
  {
    if k < |dirs| {
      assert dirs[..k + 1][..k] == dirs[..k];
      AppsOfErrSticks(dirs, k + 1);
    } else {
      assert dirs[..k] == dirs;
    }
  }

  /** `listApps()` over the listing of `files/`. */
  method ListApps(root: seq<Dirent>) returns (r: Result<Apps>)
    ensures r == AppsOf(DirNames(root))
  {
    var dirs := DirNames(root);
    var apps: Apps := Empty();
    var i := 0;
    while i < |dirs|
      invariant 0 <= i <= |dirs|
      invariant AppsOf(dirs[..i]) == Ok(apps)
    {
      assert dirs[..i + 1][..i] == dirs[..i];
      ghost var before := apps;
      assert AppsOf(dirs[..i + 1]) == AddDir(before, dirs[i]);
      var parts := ParseDirName(dirs[i]);
      if parts.platform.Some? {
        if parts.app in apps.values {
          var info := apps.values[parts.app];
          if info.platforms.None? {
            AppsOfErrSticks(dirs, i + 1);
            return Err(PushOnUndefined);
          }
          apps := Put(apps, parts.app, AppInfo(Some(info.platforms.value + [parts.platform.value])));
        } else {
          apps := Put(apps, parts.app, AppInfo(Some([parts.platform.value])));
        }
      } else if parts.app !in apps.values {
        apps := Put(apps, parts.app, AppInfo(None));
      }
      i := i + 1;
    }
    assert dirs[..i] == dirs;
    return Ok(apps);
  }

  /** The app name of each directory, in listing order. */
  function NamesOf(dirs: seq<string>): (names: seq<string>)
    ensures |names| == |dirs|
  {
    if dirs == [] then [] else NamesOf(dirs[..|dirs| - 1]) + [ParseDirName(dirs[|dirs| - 1]).app]
  }

  /** The platforms of the directories named `<name>-<platform>`, in listing
      order, repeats included. */
  function PlatformsOf(dirs: seq<string>, name: string): seq<string> {
    if dirs == [] then []
    else
      var d := ParseDirName(dirs[|dirs| - 1]);
      PlatformsOf(dirs[..|dirs| - 1], name) + if d.app == name && d.platform.Some? then [d.platform.value] else []
  }

  /** The `platforms` field an app gets from those directories. */
  function PlatformField(dirs: seq<string>, name: string): Option<seq<string>> {
    var ps := PlatformsOf(dirs, name);
    if ps == [] then None else Some(ps)
  }

  lemma {:induction false} NamesOfMembership(dirs: seq<string>, name: string)
    ensures name in NamesOf(dirs) <==> exists i :: 0 <= i < |dirs| && ParseDirName(dirs[i]).app == name
  {
    if dirs != [] {
      var prefix := dirs[..|dirs| - 1];
      NamesOfMembership(prefix, name);
      assert forall i :: 0 <= i < |prefix| ==> prefix[i] == dirs[i];
    }
  }

  lemma {:induction false} PlatformsOfMembership(dirs: seq<string>, name: string, p: string)
    ensures p in PlatformsOf(dirs, name) <==> exists i :: 0 <= i < |dirs| && ParseDirName(dirs[i]) == DirName(name, Some(p))
  {
    if dirs != [] {
      var prefix := dirs[..|dirs| - 1];
      PlatformsOfMembership(prefix, name, p);
      assert forall i :: 0 <= i < |prefix| ==> prefix[i] == dirs[i];
    }
  }

  lemma PlatformsOfSnoc(dirs: seq<string>, n: string)
    requires dirs != []
    ensures var d := ParseDirName(dirs[|dirs| - 1]);
      PlatformsOf(dirs, n) == PlatformsOf(dirs[..|dirs| - 1], n) + if d.app == n && d.platform.Some? then [d.platform.value] else []
  {
  }

  /** When `listApps` succeeds, its app names are those of the directories,
      in order of first appearance. */
  lemma {:induction false} AppsOfKeys(dirs: seq<string>)
    requires AppsOf(dirs).Ok?
    ensures AppsOf(dirs).value.keys == FirstOccurrences(NamesOf(dirs))
    ensures forall n :: n in AppsOf(dirs).value.values <==> n in NamesOf(dirs)
  {
    if dirs != [] {
      var prefix := dirs[..|dirs| - 1];
      AppsOfKeys(prefix);
      var apps := AppsOf(prefix).value;
      var d := ParseDirName(dirs[|dirs| - 1]);
      var r := AppsOf(dirs).value;
      assert AddDir(apps, dirs[|dirs| - 1]) == Ok(r);
      assert NamesOf(dirs) == NamesOf(prefix) + [d.app];
      assert NamesOf(dirs)[..|dirs| - 1] == NamesOf(prefix);
      assert r.keys == if d.app in apps.values then apps.keys else apps.keys + [d.app];
      assert r.values.Keys == apps.values.Keys + {d.app};
    }
  }

  /** When `listApps` succeeds, an app has `platforms` exactly when some
      `<name>-<platform>` directory exists, and then they are all those
      platforms in listing order, repeats included; a platform-less
      directory never replaces what an earlier directory recorded. */
  lemma {:induction false} AppsOfPlatforms(dirs: seq<string>)
    requires AppsOf(dirs).Ok?
    ensures forall n :: n in AppsOf(dirs).value.values ==> AppsOf(dirs).value.values[n].platforms == PlatformField(dirs, n)
    ensures forall n :: n !in AppsOf(dirs).value.values ==> PlatformsOf(dirs, n) == []
  {
    if dirs != [] {
      var prefix := dirs[..|dirs| - 1];
      AppsOfPlatforms(prefix);
      var apps := AppsOf(prefix).value;
      var d := ParseDirName(dirs[|dirs| - 1]);
      var r := AppsOf(dirs).value;
      assert AddDir(apps, dirs[|dirs| - 1]) == Ok(r);
      forall n | n != d.app
        ensures PlatformsOf(dirs, n) == PlatformsOf(prefix, n)
        ensures n in r.values <==> n in apps.values
        ensures n in r.values ==> r.values[n] == apps.values[n]
      {
        PlatformsOfSnoc(dirs, n);
      }
      PlatformsOfSnoc(dirs, d.app);
      assert d.app in r.values;
      if d.platform.Some? {
        assert PlatformsOf(dirs, d.app) == PlatformsOf(prefix, d.app) + [d.platform.value];
        if d.app in apps.values {
          assert r.values[d.app].platforms == Some(apps.values[d.app].platforms.value + [d.platform.value]);
        } else {
          assert PlatformsOf(prefix, d.app) == [];
          assert PlatformsOf(dirs, d.app) == [d.platform.value];
          assert r.values[d.app].platforms == Some([d.platform.value]) == PlatformField(dirs, d.app);
        }
      } else {
        assert PlatformsOf(dirs, d.app) == PlatformsOf(prefix, d.app);
      }
    }
  }

  /** Both halves, for one app name. */
  lemma AppsOfAt(dirs: seq<string>, n: string)
    requires AppsOf(dirs).Ok?
    ensures n in AppsOf(dirs).value.values <==> n in NamesOf(dirs)
    ensures n in AppsOf(dirs).value.values ==> AppsOf(dirs).value.values[n].platforms == PlatformField(dirs, n)
    ensures n !in AppsOf(dirs).value.values ==> PlatformsOf(dirs, n) == []
  {
    AppsOfKeys(dirs);
    AppsOfPlatforms(dirs);
  }

  /** Both halves together. */
  lemma AppsOfContents(dirs: seq<string>)
    requires AppsOf(dirs).Ok?
    ensures AppsOf(dirs).value.keys == FirstOccurrences(NamesOf(dirs))
    ensures forall n :: n in AppsOf(dirs).value.values <==> n in NamesOf(dirs)
    ensures forall n :: n in AppsOf(dirs).value.values ==> AppsOf(dirs).value.values[n].platforms == PlatformField(dirs, n)
    ensures forall n :: n !in AppsOf(dirs).value.values ==> PlatformsOf(dirs, n) == []
  {
    AppsOfKeys(dirs);
    AppsOfPlatforms(dirs);
  }

  /** Whether the directory at `j` is `<name>-<platform>` for an app that
      the directories before it name only without platform. */
  predicate PushesAt(dirs: seq<string>, j: nat)
    requires j < |dirs|
  {
    var d := ParseDirName(dirs[j]);
    d.platform.Some? && d.app in NamesOf(dirs[..j]) && PlatformsOf(dirs[..j], d.app) == []
  }

  /** `listApps` throws exactly when some directory `<name>-<platform>`
      comes after directories that name app `<name>` only without platform:
      the first directory of an app is platform-less and a platform
      directory of it follows. */
  ghost predicate PushesOnUndefined(dirs: seq<string>) {
    exists j :: 0 <= j < |dirs| && PushesAt(dirs, j)
  }

  lemma PushesAtPrefix(dirs: seq<string>, j: nat)
    requires j < |dirs| - 1
    ensures PushesAt(dirs, j) == PushesAt(dirs[..|dirs| - 1], j)
  {
    assert dirs[..j] == dirs[..|dirs| - 1][..j];
  }

  /** The scan fails at the last directory exactly when it pushes onto an
      app recorded without platforms. */
  lemma AddDirThrows(dirs: seq<string>)
    requires |dirs| > 0 && AppsOf(dirs[..|dirs| - 1]).Ok?
    ensures AppsOf(dirs).Err? <==> PushesAt(dirs, |dirs| - 1)
  {
    AppsOfContents(dirs[..|dirs| - 1]);
  }

  lemma {:induction false} AppsOfThrows(dirs: seq<string>)
    ensures AppsOf(dirs).Err? <==> PushesOnUndefined(dirs)
    ensures AppsOf(dirs).Err? ==> AppsOf(dirs).message == PushOnUndefined
  {
    if dirs != [] {
      var n := |dirs| - 1;
      var prefix := dirs[..n];
      AppsOfThrows(prefix);
      forall j | 0 <= j < n
        ensures PushesAt(dirs, j) == PushesAt(prefix, j)
      {
        PushesAtPrefix(dirs, j);
      }
      if AppsOf(prefix).Ok? {
        AddDirThrows(dirs);
        if PushesOnUndefined(dirs) {
          var j :| 0 <= j < |dirs| && PushesAt(dirs, j);
          assert j == n;
        }
      } else {
        var j :| 0 <= j < n && PushesAt(prefix, j);
        assert PushesAt(dirs, j);
      }
    }
  }

  /** Platform-less `a` before `a-p` throws on `push`. */
  lemma BareThenPlatformThrows(a: string, p: string)
    requires '-' !in a && '-' !in p
    ensures AppsOf([a, a + "-" + p]) == Err(PushOnUndefined)
  {
    ParseDirNameOf(a, p);
    assert [a, a + "-" + p][..1] == [a];
    assert [a][..0] == [];
    var one := Put(Empty(), a, AppInfo(None));
    assert AppsOf([a]) == AddDir(Empty(), a) == Ok(one);
  }

  lemma AppsOfSnoc(dirs: seq<string>, dir: string)
    ensures AppsOf(dirs + [dir]) == match AppsOf(dirs) case Err(m) => Err(m) case Ok(apps) => AddDir(apps, dir)
  {
    assert (dirs + [dir])[..|dirs|] == dirs;
  }

  lemma ThreeDirs(dx: string, da: string, dy: string, a: string, x: string, y: string)
    requires ParseDirName(dx) == DirName(a, Some(x))
    requires ParseDirName(da) == DirName(a, None)
    requires ParseDirName(dy) == DirName(a, Some(y))
    ensures AppsOf([dx, da, dy]) == Ok(OrderedMap([a], map[a := AppInfo(Some([x, y]))]))
  {
    var one := OrderedMap([a], map[a := AppInfo(Some([x]))]);
    PlatformThenBare(dx, da, a, x);
    AppsOfSnoc([dx, da], dy);
    assert [dx, da] + [dy] == [dx, da, dy];
    NextPlatform(one, dy, a, [x], y);
    assert [x] + [y] == [x, y];
  }

  lemma PlatformThenBare(dx: string, da: string, a: string, x: string)
    requires ParseDirName(dx) == DirName(a, Some(x))
    requires ParseDirName(da) == DirName(a, None)
    ensures AppsOf([dx, da]) == Ok(OrderedMap([a], map[a := AppInfo(Some([x]))]))
  {
    var one := OrderedMap([a], map[a := AppInfo(Some([x]))]);
    FirstPlatform(dx, a, x);
    AppsOfSnoc([dx], da);
    assert [dx] + [da] == [dx, da];
    assert AddDir(one, da) == Ok(one);
  }

  lemma FirstPlatform(dx: string, a: string, x: string)
    requires ParseDirName(dx) == DirName(a, Some(x))
    ensures AppsOf([dx]) == Ok(OrderedMap([a], map[a := AppInfo(Some([x]))]))
  {
    var none: Apps := Empty();
    AppsOfSnoc([], dx);
    assert [] + [dx] == [dx];
    assert none.keys + [a] == [a];
  }

  lemma NextPlatform(apps: Apps, dy: string, a: string, ps: seq<string>, y: string)
    requires apps == OrderedMap([a], map[a := AppInfo(Some(ps))])
    requires ParseDirName(dy) == DirName(a, Some(y))
    ensures AddDir(apps, dy) == Ok(OrderedMap([a], map[a := AppInfo(Some(ps + [y]))]))
  {
    assert apps.values[a := AppInfo(Some(ps + [y]))] == map[a := AppInfo(Some(ps + [y]))];
  }

  /** `a-x`, `a`, `a-y` does not throw: the platform-less `a` leaves the
      recorded platforms alone, and `y` is appended. */
  lemma PlatformThenBareKeeps(a: string, x: string, y: string)
    requires '-' !in a && '-' !in x && '-' !in y
    ensures AppsOf([a + "-" + x, a, a + "-" + y]) == Ok(OrderedMap([a], map[a := AppInfo(Some([x, y]))]))
  {
    ParseDirNameOf(a, x);
    ParseDirNameOf(a, y);
    ThreeDirs(a + "-" + x, a, a + "-" + y, a, x, y);
  }

  /** One element of the `apps` array of `GET /api`. */
  datatype AppRef = AppRef(name: string, platform: Option<string>, url: string)

  /** The elements pushed for one app. */
  function RefsOf(name: string, info: AppInfo): seq<AppRef> {
    match info.platforms
    case None => [AppRef(name, None, "/api/" + name)]
    case Some(ps) => seq(|ps|, k requires 0 <= k < |ps| => AppRef(name, Some(ps[k]), "/api/" + name + "/" + ps[k]))
  }

  function FlattenKeys(keys: seq<string>, values: map<string, AppInfo>): seq<AppRef>
    requires forall k :: k in keys ==> k in values
  {
    if keys == [] then []
    else FlattenKeys(keys[..|keys| - 1], values) + RefsOf(keys[|keys| - 1], values[keys[|keys| - 1]])
  }

  /** The `apps` array of `GET /api`, in the order of `Object.entries(apps)`. */
  function Flatten(apps: Apps): seq<AppRef>
    requires Valid(apps)
  {
    FlattenKeys(apps.keys, apps.values)
  }

  /** The loops of `GET /api` that build its `apps` array. */
  method FlattenApps(apps: Apps) returns (arr: seq<AppRef>)
    requires Valid(apps)
    ensures arr == Flatten(apps)
  {
    arr := [];
    var i := 0;
    while i < |apps.keys|
      invariant 0 <= i <= |apps.keys|
      invariant arr == FlattenKeys(apps.keys[..i], apps.values)
    {
      assert apps.keys[..i + 1][..i] == apps.keys[..i];
      var name := apps.keys[i];
      var info := apps.values[name];
      if info.platforms.Some? {
        var ps := info.platforms.value;
        ghost var before := arr;
        var j := 0;
        while j < |ps|
          invariant 0 <= j <= |ps|
          invariant arr == before + RefsOf(name, info)[..j]
        {
          assert RefsOf(name, info)[..j + 1] == RefsOf(name, info)[..j] + [AppRef(name, Some(ps[j]), "/api/" + name + "/" + ps[j])];
          arr := arr + [AppRef(name, Some(ps[j]), "/api/" + name + "/" + ps[j])];
          j := j + 1;
        }
        assert RefsOf(name, info)[..j] == RefsOf(name, info);
      } else {
        arr := arr + [AppRef(name, None, "/api/" + name)];
      }
      i := i + 1;
    }
    assert apps.keys[..i] == apps.keys;
  }

  /** Whether `r` is one of the elements listed for an app with `info`. */
  predicate Lists(info: AppInfo, r: AppRef) {
    match r.platform
    case None => info.platforms.None? && r.url == "/api/" + r.name
    case Some(p) => info.platforms.Some? && p in info.platforms.value && r.url == "/api/" + r.name + "/" + p
  }

  lemma {:induction false} FlattenKeysMembership(keys: seq<string>, values: map<string, AppInfo>, r: AppRef)
    requires forall k :: k in keys ==> k in values
    ensures r in FlattenKeys(keys, values) <==> r.name in keys && Lists(values[r.name], r)
  {
    if keys != [] {
      var last := keys[|keys| - 1];
      FlattenKeysMembership(keys[..|keys| - 1], values, r);
      assert keys == keys[..|keys| - 1] + [last];
      var info := values[last];
      if info.platforms.Some? {
        var ps := info.platforms.value;
        if r in RefsOf(last, info) {
          var k :| 0 <= k < |ps| && RefsOf(last, info)[k] == r;
        }
        if r.name == last && Lists(info, r) && r.platform.Some? {
          var k :| 0 <= k < |ps| && ps[k] == r.platform.value;
          assert RefsOf(last, info)[k] == r;
        }
      }
    }
  }

  /** `GET /api` lists an app exactly once per platform it has, and once
      with no platform when it has none, each with its `/api/...` URL. */
  lemma FlattenMembership(apps: Apps, r: AppRef)
    requires Valid(apps)
    ensures r in Flatten(apps) <==> r.name in apps.values && Lists(apps.values[r.name], r)
  {
    FlattenKeysMembership(apps.keys, apps.values, r);
  }

  /** `GET /api` for a release tree: the `apps` array, or `listApps`' error. */
  function ApiAppsOf(root: seq<Dirent>): Result<seq<AppRef>> {
    match AppsOf(DirNames(root))
    case Err(m) => Err(m)
    case Ok(apps) => Ok(Flatten(apps))
  }

  method ApiApps(root: seq<Dirent>) returns (r: Result<seq<AppRef>>)
    ensures r == ApiAppsOf(root)
  {
    var apps := ListApps(root);
    if apps.Err? {
      return Err(apps.message);
    }
    var arr := FlattenApps(apps.value);
    return Ok(arr);
  }

  /** Tied back to the directory names: `GET /api` lists `<name>` on
      `<platform>` exactly when a directory `<name>-<platform>` exists. */
  lemma ApiListsPlatformDirectories(dirs: seq<string>, name: string, p: string)
    requires AppsOf(dirs).Ok?
    ensures AppRef(name, Some(p), "/api/" + name + "/" + p) in Flatten(AppsOf(dirs).value) <==>
      exists i :: 0 <= i < |dirs| && ParseDirName(dirs[i]) == DirName(name, Some(p))
  {
    var apps := AppsOf(dirs).value;
    var r := AppRef(name, Some(p), "/api/" + name + "/" + p);
    AppsOfAt(dirs, name);
    PlatformsOfMembership(dirs, name, p);
    FlattenMembership(apps, r);
    assert r in Flatten(apps) <==> name in apps.values && apps.values[name].platforms.Some? && p in apps.values[name].platforms.value;
  }

  /** `GET /api` lists `<name>` without platform exactly when directories
      name it and none of them has a platform. */
  lemma ApiListsBareDirectories(dirs: seq<string>, name: string)
    requires AppsOf(dirs).Ok?
    ensures AppRef(name, None, "/api/" + name) in Flatten(AppsOf(dirs).value) <==>
      name in NamesOf(dirs) && PlatformsOf(dirs, name) == []
  {
    var apps := AppsOf(dirs).value;
    AppsOfAt(dirs, name);
    FlattenMembership(apps, AppRef(name, None, "/api/" + name));
  }
}
