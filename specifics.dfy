/** `getSpecific`, behind `GET /api/<exe|txt|html>/<app>[/<platform>]/<version>`:
    resolve a concrete version or `latest` to a redirect, a rendered page or
    an error; and `renderHtml`, which fills the download page template. */
module Specifics {
  import opened Wrappers
  import opened Strings
  import opened Listing
  import opened OrderedMaps
  import opened Versions

  /** The artifact kind of the route. */
  datatype What = ExeFile | TxtFile | HtmlPage {
    function Name(): string {
      match this
      case ExeFile => "exe"
      case TxtFile => "txt"
      case HtmlPage => "html"
    }
  }

  /** `entry[what]`: entries have `exe` and `txt` fields but never `html`. */
  function FieldOf(e: Entry, what: What): Option<string> {
    if what == HtmlPage then None else Field(e, what == TxtFile)
  }

  /** What `getSpecific` does with a catalog: redirect (307), render the
      download page, or throw an error with this message. */
  datatype Outcome = Redirect(path: string) | RenderPage | Failure(message: string)

  /** A missing platform reads `undefined` when concatenated into a message. */
  function PlatformText(platform: Option<string>): string {
    if platform.None? then "undefined" else platform.value
  }

  function Subject(app: string, platform: Option<string>): string {
    app + "-" + PlatformText(platform)
  }

  /** The decision of `getSpecific` on the full catalog `data` of the app. */
  function Resolve(data: Versions, app: string, platform: Option<string>, version: string, what: What): (o: Outcome)
    requires Valid(data)
    ensures o == RenderPage <==>
      version != "latest" && version in data.values && what == HtmlPage && data.values[version].htmlUrl != ""
    ensures version == "latest" ==> (o.Failure? <==> data.keys == [])
  {
    var dir := "/" + AppDir(app, platform);
    if version != "latest" then
      if version in data.values then
        var e := data.values[version];
        if Truthy(FieldOf(e, what)) then Redirect(dir + "/" + FieldOf(e, what).value)
        else if what == HtmlPage && e.htmlUrl != "" then RenderPage
        else Failure("No such " + what.Name() + " " + version + " of " + Subject(app, platform))
      else Failure("No such version " + version + " of " + Subject(app, platform))
    else if data.keys == [] then Failure("No latest " + what.Name() + " of " + Subject(app, platform))
    else
      var e := data.values[data.keys[|data.keys| - 1]];
      if what == HtmlPage then Redirect(e.htmlUrl)
      else Redirect(dir + "/" + match FieldOf(e, what) case Some(f) => f case None => "undefined")
  }

  /** `getSpecific` on the release tree `fs`: the catalog is read without
      `after` and without `latest`, and its errors propagate. */
  function Specific(fs: FileTree, app: string, platform: Option<string>, version: string, what: What): Outcome {
    match AppVersions(fs, app, platform, None, false)
    case Err(m) => Failure(m)
    case Ok(data) => Resolve(data, app, platform, version, what)
  }

  /** The title, `exe` URL and `txt` URL put into the download page. */
  const TitleMark: string := "{$TITLE}"
  const ExeMark: string := "{$EXE_URL}"
  const TxtMark: string := "{$TXT_URL}"

  /** `renderHtml` for the entry `e` of `version`: every `{$TITLE}` becomes
      `GOLOS <app> - <version>`; every `{$EXE_URL}` becomes the `exe` URL
      when there is one and is left alone otherwise; every `{$TXT_URL}`
      becomes the `txt` URL, or nothing when there is none. */
  function RenderHtml(template: string, e: Entry, app: string, version: string): string {
    var withTitle := ReplaceAll(template, TitleMark, "GOLOS " + app + " - " + version);
    var withExe := if Truthy(e.exeUrl) then ReplaceAll(withTitle, ExeMark, e.exeUrl.value) else withTitle;
    ReplaceAll(withExe, TxtMark, if Truthy(e.txtUrl) then e.txtUrl.value else "")
  }

  /** The HTTP response the route sends. */
  datatype Response = Redirect307(location: string) | Html(body: string) | Error400(error: string)

  /** The response for the route, with the download page template
      `template` read at startup. */
  function Respond(fs: FileTree, template: string, app: string, platform: Option<string>, version: string, what: What): Response {
    match Specific(fs, app, platform, version, what)
    case Redirect(p) => Redirect307(p)
    case Failure(m) => Error400(m)
    case RenderPage =>
      var data := AppVersions(fs, app, platform, None, false).value;
      Html(RenderHtml(template, data.values[version], app, version))
  }

  /** `getSpecific(req, res, what)`. */
  method GetSpecific(fs: FileTree, template: string, app: string, platform: Option<string>, version: string, what: What)
    returns (resp: Response)
    ensures resp == Respond(fs, template, app, platform, version, what)
  {
    var data := GetAppVersions(fs, app, platform, None, false);
    if data.Err? {
      return Error400(data.message);
    }
    var outcome := Resolve(data.value, app, platform, version, what);
    match outcome
    case Redirect(path) =>
      resp := Redirect307(path);
    case Failure(message) =>
      resp := Error400(message);
    case RenderPage =>
      resp := Html(RenderHtml(template, data.value.values[version], app, version));
  }
}
