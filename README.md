# Release catalog of the updater service

The updater service publishes application builds from a directory tree
`files/`:

- each directory `<app>` or `<app>-<platform>` holds the releases of one app on one platform;
- each release file is named `<product>-<version>.<ext>`.

The service answers these HTTP queries from the names alone:

- `GET /api` lists the apps and their platforms;
- `GET /api/<app>[/<platform>]` returns the catalog of versions, optionally only the versions after a given one, or only the latest;
- `GET /api/<exe|txt|html>/<app>[/<platform>]/<version|latest>` redirects to a release file or renders a download page from a template.

This project models that core in Dafny and proves what it does. The modules are:

- `Wrappers`: `Option`, `Result`, and JavaScript truthiness of an optional string.
- `Strings`: `split` and `join` on a string separator, and replace-all as split-then-join. Their round trips are proved.
- `Semver`: `semver.gt` on plain `major.minor.patch` versions.
- `Names`: reading directory names (`<app>[-<platform>]`) and file names (`<product>-<version>.<ext>`), including the `.0` normalisation of two-component versions.
- `Listing`: a directory listing as a sequence of entries, standing in for `readdirSync` with `withFileTypes`. `FileTree` is the listing of `files/` plus the listing of each directory in it.
- `OrderedMaps`: a JavaScript object with string keys, as a map plus the order in which keys were first assigned.
- `Apps`: `listApps` and the loops of `GET /api`.
  - Both are methods with loops, proved against fold functions `AppsOf` and `Flatten`.
  - The lemmas about those functions relate the result to the directory names.
- `Versions`: `getAppVersions`, whose scan loop updates `versions` and `latestVersion` file by file.
  - It is proved against the function `AppVersions`.
  - `VersionsFacts` states what the catalog contains, in terms of the files.
- `Specifics`: the decision of `getSpecific` (`Resolve`), the response of the route, and the substitutions of `renderHtml`.
  - `SpecificsFacts` states each branch in terms of the files of the app's directory.
- `Scenario`: a tree `files/demo-win/` with `demo-1.0.exe`, `demo-1.0.txt` and `demo-2.0.exe`, and what `GET /api`, the catalog route and the `exe`, `txt` and `html` routes answer on it.

## Behaviours the model pins down

These behaviours follow the code as written:

- `listApps` throws `Cannot read properties of undefined (reading 'push')` in one case only. The first directory of an app must be platform-less (`a`), and a platform directory of that app (`a-p`) must follow it. The order `a-x`, `a`, `a-y` does not throw: the platform-less `a` leaves the recorded platforms alone.
- Platforms are appended in listing order without removing duplicates.
- The key order of the catalog is the order in which each version's first file appears. A later file of the same version updates the entry in place.
- `?latest` returns the version of the last kept file in listing order. It is not the greatest version.
- `latest` in `getSpecific` takes the last key of the catalog, which is the version whose first file comes last. The two can differ: see `Scenario.LatestDisagree`.
- For `exe` or `txt`, `latest` redirects to `<dir>/undefined` when the latest version has no file of that kind, instead of failing.
- `renderHtml` leaves `{$EXE_URL}` in the page when the entry has no binary, but replaces `{$TXT_URL}` with nothing when it has no notes.
- A route without a platform reads `undefined` in error messages, as in `No such version 1.0.0 of demo-undefined`.

## Model

| member | source | states |
|---|---|---|
| Strings.Split | index.mjs:28 | `s.split(sep)`: the pieces of `s` between the occurrences of `sep` found left to right without overlap |
| Strings.Join | index.mjs:31 | `parts.join(sep)`: the pieces with `sep` between consecutive ones |
| Strings.ReplaceAll | index.mjs:153 | `s.split(pat).join(rep)`: every occurrence of `pat`, scanned left to right, replaced by `rep` |
| Strings.JoinSplit | index.mjs:28-31 | joining the pieces of a split with the same separator gives the string back |
| Strings.SplitCharWhole | index.mjs:28-29 | a string splits on a character into one piece exactly when it does not contain that character |
| Strings.SplitCharConcat | index.mjs:28-31 | splitting `x + c + y` on `c` gives the pieces of `x` followed by the pieces of `y` |
| Strings.SplitCharJoin | index.mjs:28-31 | pieces free of `c`, joined with `c` and split on `c` again, give back the same pieces |
| Strings.ReplaceAllAbsent | index.mjs:153-160 | split-then-join leaves a string without the pattern unchanged |
| Strings.ReplaceAllFront | index.mjs:153-160 | a leading occurrence of the pattern becomes the replacement |
| Strings.ReplaceAllKeep | index.mjs:153-160 | a prefix in which no occurrence starts is kept unchanged, and the replacement goes on after it |
| Strings.ReplaceAllMiddle | index.mjs:153-160 | in `x + pat + y` with no occurrence starting in `x`, the result is `x`, the replacement, then `y` with its own occurrences replaced |
| Names.ParseDirName | index.mjs:28-41 | a directory name split on `-`: with several pieces the last is the platform and the others joined with `-` the app; otherwise the one piece is the app |
| Names.ParseFileName | index.mjs:66-75 | a file name without `-` is skipped; otherwise the last `-` piece split on `.` gives the extension (last piece) and the version (the rest joined with `.`, plus `.0` when it had two pieces) |
| Names.ParseDirNameInverse | index.mjs:28-43 | a directory name has a platform exactly when it contains `-`; the platform has no `-`; app, `-` and platform spell the name again |
| Names.ParseDirNameOf | index.mjs:28-43 | `a` is app `a` without platform, `a-b` is app `a` on `b`, `a-b-c` is app `a-b` on `c` |
| Names.ParseFileNameSkips | index.mjs:66-67 | a file is skipped exactly when its name has no `-` |
| Names.ParseFileNameOf | index.mjs:66-75 | `<product>-<ver>.<ext>` has extension `ext` and the normalised `ver` as version, whatever `-` the product holds |
| Names.NormalizeTwo | index.mjs:72-75 | a two-component version gets `.0` appended |
| Names.NormalizeThree | index.mjs:72-75 | a three-component version is kept as is |
| Names.ParseTwoComponentExample | index.mjs:66-75 | `demo-1.2.txt` is version `1.2.0` with extension `txt` |
| Names.ParseThreeComponentExample | index.mjs:66-75 | `demo-1.2.3.exe` is version `1.2.3` with extension `exe` |
| Listing.DirNames | index.mjs:24-26 | the names kept are exactly those of the directory entries of the listing |
| Listing.FileNames | index.mjs:62-64 | the names kept are exactly those of the file entries of the listing |
| Semver.Gt | index.mjs:76 | `semver.gt` on plain versions: the lexicographic order of the numeric `major.minor.patch` components |
| Semver.GtStrictOrder | index.mjs:76 | `semver.gt` is irreflexive, asymmetric and transitive on versions |
| Semver.GtTotal | index.mjs:76 | two versions not ordered either way have equal components |
| Semver.VersionOf | index.mjs:76 | three numeric components joined with dots form a version with those component values |
| Apps.AddDir | index.mjs:28-43 | one turn of `listApps`' loop: a platform directory appends its platform to a known app's list (throwing when the app has no list) or creates the app with that one platform; a bare directory creates the app without platforms if it is new |
| Apps.AppsOf | index.mjs:22-47 | the result of `listApps`: the turns applied to the directory names in listing order, stopping at the first error |
| Apps.ListApps | index.mjs:22-47 | the loop over the directory names returns the fold `AppsOf` of them, stopping at the first error |
| Apps.AppsOfErrSticks | index.mjs:27-45 | once a prefix of the directories throws, the whole scan throws that error |
| Apps.AppsOfKeys | index.mjs:27-44 | on success the app names are the names read from the directories, in order of first appearance, each once |
| Apps.AppsOfPlatforms | index.mjs:27-44 | an app's `platforms` is absent when it has no platform directory, else all its platforms in listing order with repeats; names no directory mentions have no platforms |
| Apps.AppsOfContents | index.mjs:27-44 | the two lemmas above together: names, order and platforms of the result |
| Apps.AppsOfAt | index.mjs:27-44 | the same facts for one app name |
| Apps.AddDirThrows | index.mjs:32-33 | after a successful prefix, the next directory throws exactly when it pushes onto an app recorded without platforms |
| Apps.AppsOfThrows | index.mjs:27-45 | `listApps` throws exactly when a `<name>-<platform>` directory follows directories naming `<name>` only without platform, and the message is the `push` on `undefined` error |
| Apps.BareThenPlatformThrows | index.mjs:32-43 | `a` then `a-p` throws |
| Apps.PlatformThenBareKeeps | index.mjs:29-43 | `a-x`, `a`, `a-y` gives app `a` with platforms `x`, `y` |
| Apps.ThreeDirs | index.mjs:29-43 | a platform directory, the bare directory, then another platform directory of one app record both platforms |
| Apps.RefsOf | index.mjs:118-130 | the array elements of one app: one per platform with URL `/api/<name>/<platform>`, or one without platform with URL `/api/<name>` |
| Apps.Flatten | index.mjs:117-131 | the array of `GET /api`: the elements of each app, in the key order of the apps object |
| Apps.FlattenApps | index.mjs:115-132 | the nested loops build the array `Flatten` of the apps object |
| Apps.FlattenMembership | index.mjs:117-131 | an element is in the array exactly when its app is in the object and it is that app's entry: one per platform with `/api/<name>/<platform>`, or one without platform with `/api/<name>` |
| Apps.ApiApps | index.mjs:115-132 | `GET /api` returns the flattened apps of `listApps`, or its error |
| Apps.ApiListsPlatformDirectories | index.mjs:115-132 | the array lists `<name>` on `<platform>` exactly when a directory `<name>-<platform>` exists |
| Apps.ApiListsBareDirectories | index.mjs:115-132 | the array lists `<name>` without platform exactly when directories name it and none has a platform |
| Versions.Kept | index.mjs:66-78 | the artifact a file gives: none without `-` or when the `after` filter rejects it, otherwise its name, normalised version and whether its extension is `txt` |
| Versions.Accepted | index.mjs:65-78 | the artifacts of the files in listing order, skipped and filtered ones left out |
| Versions.Merge | index.mjs:82-90 | a kept file sets `txt`/`txt_url` or `exe`/`exe_url` of its entry, and `html_url`, all from `<name>[/<platform>]/<version>` |
| Versions.Insert | index.mjs:79-90 | a kept file merges into its version's entry, created empty and appended as the last key when the version is new |
| Versions.LatestOf | index.mjs:91-95 | `latestVersion`: `{}` before any kept file, then the one version of the last kept file with its entry |
| Versions.AppVersions | index.mjs:49-97 | `getAppVersions`: the `listApps` error, `No such app`, `app has not platform`, ENOENT for a missing directory, else the catalog of the kept files or `latestVersion` |
| Versions.Build | index.mjs:79-90 | the versions object built from the kept files has distinct keys matching its entries, and every kept file's version is a key |
| Versions.ScanFile | index.mjs:66-91 | one turn of the scan: a skipped or filtered file changes nothing; a kept file merges into its version's entry, and `latestVersion` becomes that single version |
| Versions.ScanFiles | index.mjs:59-92 | the scan loop leaves `versions` equal to the catalog of the kept files, and `latestVersion` equal to the entry of the last kept file |
| Versions.GetAppVersions | index.mjs:49-97 | `getAppVersions` returns `AppVersions`: the app, platform and directory checks, then the full catalog or the latest singleton |
| VersionsFacts.VersionsOfMembership | index.mjs:65-92 | a version is among the kept files' versions exactly when some kept file has it |
| VersionsFacts.BuildKeys | index.mjs:79-81 | the catalog's keys are the kept versions in order of first appearance, each once, and its entries are exactly those versions |
| VersionsFacts.BuildUrls | index.mjs:82-90 | every entry has `html_url` `/api/html/<name>[/<platform>]/<version>`, and `exe_url` or `txt_url` of the same shape exactly when it has that file |
| VersionsFacts.BuildLastFile | index.mjs:79-90 | the `exe` or `txt` of a version is the last kept file of that version and kind |
| VersionsFacts.BuildFieldAbsent | index.mjs:79-90 | a version with no kept file of a kind has no field of that kind |
| VersionsFacts.AcceptedPass | index.mjs:76-78 | with a truthy `after`, every kept version is a version strictly greater than `after` |
| VersionsFacts.AcceptedVersions | index.mjs:65-78 | a version is kept exactly when some file of the listing parses to it and passes the filter |
| VersionsFacts.AppVersionsChecks | index.mjs:50-64 | `listApps` errors propagate; an app no directory names fails with `No such app: `; a truthy platform without a `<name>-<platform>` directory fails with `app has not platform: `; otherwise a missing directory fails with ENOENT and an existing one succeeds |
| VersionsFacts.AppVersionsListed | index.mjs:50-64 | on a tree whose listings are those of the directories `files/` lists, a directory named exactly `<name>[-<platform>]` makes the checks pass and the read succeed |
| VersionsFacts.AppVersionsCatalog | index.mjs:59-96 | the full catalog holds exactly the versions of the kept files, in first-appearance order, each with its own URLs; with `after` every version is strictly greater, so neither equal nor smaller |
| VersionsFacts.AppVersionsLatest | index.mjs:60-96 | `?latest` returns `{}` when nothing was kept, otherwise the single version of the last kept file with the same entry as in the full catalog |
| Specifics.Specific | index.mjs:167-194 | `getSpecific`'s decision on the tree: the error of `getAppVersions` read without `after`, or the decision on its catalog |
| Specifics.Resolve | index.mjs:170-193 | the page is rendered exactly for a concrete `html` of a catalogued version with an `html_url`; `latest` fails exactly when the catalog is empty |
| Specifics.RenderHtml | index.mjs:151-161 | the page: title replaced, then `{$EXE_URL}` replaced only when the entry has an `exe_url`, then `{$TXT_URL}` replaced by the `txt_url` or by nothing |
| Specifics.Respond | index.mjs:167-194 | the route's HTTP answer: 307 to the redirect path, the rendered page of the requested version, or 400 with the error's message |
| Specifics.GetSpecific | index.mjs:167-194 | the route's response is `Respond`: a 307 redirect, the rendered page, or a 400 with the error message |
| SpecificsFacts.SpecificCatalog | index.mjs:168-169 | when the checks pass, `getSpecific` decides on the catalog of the app's directory read without `after` |
| SpecificsFacts.AcceptedNamed | index.mjs:66-67 | every kept file name contains `-`, so none is empty |
| SpecificsFacts.UnknownVersionMessage | index.mjs:171-182 | on any catalog, a concrete version fails with `No such version` exactly when it is not a key |
| SpecificsFacts.ResolveUnknownVersion | index.mjs:171-182 | a concrete version fails with `No such version` exactly when no kept file has it |
| SpecificsFacts.ResolveFile | index.mjs:172-174 | a concrete `exe` or `txt` redirects to `/<app>[-<platform>]/` plus the last kept file of that version and kind |
| SpecificsFacts.ResolveNoFile | index.mjs:172-179 | a version with files, none of the route's kind, fails with `No such <what> <version> of <app>-<platform>` |
| SpecificsFacts.ResolvePage | index.mjs:172-176 | a concrete `html` of a version with files renders the page of that version's entry, whose URLs are its own |
| SpecificsFacts.ResolveLatestEmpty | index.mjs:184-187 | `latest` fails with `No latest` exactly when no file was kept |
| SpecificsFacts.LatestPageMessage | index.mjs:188-190 | on a catalog whose entries carry their own URLs, `latest` `html` redirects to the last key's page, and that page renders |
| SpecificsFacts.ResolveLatestPage | index.mjs:188-190 | `latest` `html` redirects to `/api/html/...` of the last catalog key, and that URL renders a page |
| SpecificsFacts.ResolveLatestFile | index.mjs:192 | `latest` `exe` or `txt` answers as the last catalog key would when that version has a file of the kind |
| SpecificsFacts.ResolveLatestUndefined | index.mjs:192 | when the last catalog key has no file of the kind, `latest` redirects to `<dir>/undefined` |
| SpecificsFacts.RespondFailure | index.mjs:217-223 | a failed check answers 400 with its message, and the route answers 400 exactly when `getSpecific` throws |
| SpecificsFacts.RespondFile | index.mjs:172-174 | the concrete `exe` or `txt` route answers 307 to `/<app>[-<platform>]/` plus the last file of that version and kind |
| SpecificsFacts.RespondPage | index.mjs:172-176 | the concrete `html` route of a version with files answers with the template rendered for that version's entry, whose URLs are its own |
| SpecificsFacts.UrlPathSplits | index.mjs:82 | the URL tail `<name>[/<platform>]/<version>` splits on `/` back into its route parameters |
| SpecificsFacts.RenderHtmlPlain | index.mjs:152-161 | a template without placeholders is sent unchanged |
| SpecificsFacts.RenderHtmlTitle | index.mjs:151-161 | in a page `pre + {$TITLE} + post`, the placeholder becomes `GOLOS <app> - <version>`, `pre` is kept and `post` is rendered on, so every occurrence is replaced |
| SpecificsFacts.RenderHtmlExe | index.mjs:151-161 | in a page `pre + {$EXE_URL} + post`, the placeholder becomes the `exe_url`, or stays in the page when there is none; `pre` is kept and `post` rendered on |
| SpecificsFacts.RenderHtmlTxt | index.mjs:151-161 | in a page `pre + {$TXT_URL} + post`, the placeholder becomes the `txt_url`, or disappears when there is none; `pre` is kept and `post` rendered on |
| Scenario.TreeApi | index.mjs:115-132 | `GET /api` on the example tree lists `demo` on `win` with URL `/api/demo/win` |
| Scenario.TreeCatalog | index.mjs:49-97 | the catalog of `demo`/`win` is 1.0.0 (binary and notes) then 2.0.0 (binary only) |
| Scenario.LatestQuery | index.mjs:91-95 | `?latest` on the example is 2.0.0 |
| Scenario.AfterFirst | index.mjs:76-78 | with `after=1.0.0` only 2.0.0 remains |
| Scenario.LatestExe | index.mjs:184-192 | the latest binary redirects to `/demo-win/demo-2.0.exe` |
| Scenario.NotesOfFirst | index.mjs:172-174 | the notes of 1.0.0 redirect to `/demo-win/demo-1.0.txt` |
| Scenario.NoNotesOfSecond | index.mjs:177-178 | the notes of 2.0.0 fail with `No such txt 2.0.0 of demo-win` |
| Scenario.LatestNotes | index.mjs:192 | the latest notes redirect to `/demo-win/undefined` |
| Scenario.PageOfFirst | index.mjs:172-176 | the page of 1.0.0 is rendered |
| Scenario.PageOfFirstRendered | index.mjs:151-176 | the route for the page of 1.0.0 sends any template rendered with the entry of 1.0.0 |
| Scenario.LatestPage | index.mjs:188-190 | the latest page redirects to `/api/html/demo/win/2.0.0` |
| Scenario.UnknownApp | index.mjs:51-54 | the app `ghost` fails with `No such app: ghost` |
| Scenario.LatestDisagree | index.mjs:91-95 | with files binary v1, binary v2, notes v1, `?latest` gives v1 while `getSpecific`'s `latest` takes v2 |

## Left out

- The Express application is not modelled: its setup, route matching, `express.static`, `serve-index` with `render.mjs`, the `tryCatch` wrapper and `app.listen`. They are HTTP plumbing and foreign libraries. The error middleware appears only as the `Error400(message)` response of `Specifics.Respond`.
- File system access is replaced by `Listing.FileTree`, the listings of `files/` and of its directories in listing order. A failure to list `files/` itself, and errors other than a missing app directory, are not modelled. The template read by `readFileSync` becomes a parameter.
- The `git-rev-sync` revision, the `status: 'ok'` JSON wrapper, headers and logging are left out. They are a foreign process call and response formatting.
- The `GET /api/<app>[/<platform>]` handler's query parsing (`after`, `'latest' in req.query`) is left out. `Versions.AppVersions` takes `after` and `latest` directly.
- Versions.AppVersions: the `after` filter is defined only when `after` and every parsed version are plain `major.minor.patch` versions (`AfterComparable`). `semver.gt` also accepts loose forms (a `v` prefix, pre-releases, build metadata) and throws on the rest, such as the version `1` read from `demo-1.exe`; neither is modelled. The same precondition is on `Versions.ScanFiles` and `Versions.GetAppVersions`.
- JavaScript object quirks are left out. Integer-like keys are enumerated first, and keys such as `__proto__` reach the prototype. App names and versions are assumed to be neither.
- `async`/`await` is left out: there is no concurrency in this code.
- Truthiness: an empty string counts as absent (`Wrappers.Truthy`); this covers the platform, `after`, the file fields and the URLs. `latest` is a boolean and is taken as one. The other values the code tests are objects or arrays, which are always truthy, and `entries.length`, which is zero exactly when the catalog has no keys.
- `Apps.PushOnUndefined` is the `TypeError` message of Node 16.9 and later. Older Node versions word it `Cannot read property 'push' of undefined`; the model fixes the newer wording.
- `Listing.FileTree` does not tie the listings of `dirs` to the directories `root` lists. A missing listing gives the ENOENT error, as a directory removed between the two reads would. `Listing.WellFormed` states the tie, and `VersionsFacts.AppVersionsListed` shows that under it the directory read cannot fail once a directory has the app's exact name.
- SpecificsFacts.RenderHtmlTitle: stated for a text before the placeholder, an app and a version without `{`. A `{` there could join the text around it into a placeholder, which the lemma does not follow.
- SpecificsFacts.RenderHtmlExe: stated for a text before the placeholder and an `exe_url` without `{`, for the same reason.
- SpecificsFacts.RenderHtmlTxt: stated for a text before the placeholder without `{`, for the same reason.
