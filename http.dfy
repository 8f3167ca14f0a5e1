/**
 * The HTTP side of the web server: how the first read of a connection is
 * dispatched, how a POST body is completed by its Content-Length (section 6.2
 * of RFC 9112), the request-line guard, the route table, and the text of the
 * responses the server writes.
 *
 * A connection's completions are a sequence of completions: `Some(bytes)` for a
 * receive that delivered data, `None` for one that delivered none.
 */
module Http {
  import opened Wrappers
  import opened Bytes
  import opened Seqs
  import opened Text
  import opened Models
  import Utf8

  const Crlf: string := "\r\n"

  /** `"\r\n\r\n".data(using: .utf8)` */
  const HeaderEnd: seq<byte> := [13, 10, 13, 10]

  // ---------------------------------------------------------------- Content-Length

  predicate IsContentLengthLine(line: string) {
    |line| >= 15 && Lower(line[..15]) == "content-length:"
  }

  /**
   * The value of a `content-length:` line: the last field of a split at the
   * first colon that drops empty fields, trimmed and read as an `Int`. When
   * nothing follows the colon, the last field is the header name itself.
   */
  function ContentLengthValue(line: string): Option<int>
    requires IsContentLengthLine(line)
  {
    ParseInt(Trim(if |line| > 15 then line[15..] else line[..14]))
  }

  /** The first `content-length:` line decides, even when its value does not parse. */
  function ContentLength(lines: seq<string>): Option<int> {
    match FirstWhere(lines, IsContentLengthLine)
    case None => None
    case Some(i) => ContentLengthValue(lines[i])
  }

  lemma ContentLengthAt(lines: seq<string>, i: nat)
    requires i < |lines| && IsContentLengthLine(lines[i])
    requires forall j :: 0 <= j < i ==> !IsContentLengthLine(lines[j])
    ensures ContentLength(lines) == ContentLengthValue(lines[i])
  {
    var r := FirstWhere(lines, IsContentLengthLine);
    assert r == Some(i) by {
      if r.None? || r.value != i {
        assert false;
      }
    }
  }

  lemma NoContentLength(lines: seq<string>)
    requires forall j :: 0 <= j < |lines| ==> !IsContentLengthLine(lines[j])
    ensures ContentLength(lines) == None
  {
  }

  function ContentLengthLine(n: nat): string {
    "Content-Length: " + Decimal(n)
  }

  /** The header the server writes is read back as the count it was written with. */
  lemma ContentLengthRoundTrip(n: nat)
    requires n <= Int64Max
    ensures IsContentLengthLine(ContentLengthLine(n))
    ensures ContentLengthValue(ContentLengthLine(n)) == Some(n)
  {
    var line := ContentLengthLine(n);
    var d := Decimal(n);
    assert line[..15] == "Content-Length:";
    LowerHeaderName();
    assert line[15..] == " " + d;
    TrimSpacedDecimal(n);
    ParseDecimal(n);
  }

  lemma LowerHeaderName()
    ensures Lower("Content-Length:") == "content-length:"
  {
    var s := "Content-Length:";
    assert forall i :: 0 <= i < |s| ==> LowerChar(s[i]) == "content-length:"[i];
  }

  /** A line whose ninth character is not an `l` in either case is no Content-Length line. */
  lemma NotContentLengthLine(line: string)
    requires |line| >= 9 && LowerChar(line[8]) != 'l'
    ensures !IsContentLengthLine(line)
  {
    if |line| >= 15 {
      assert Lower(line[..15])[8] == LowerChar(line[8]);
    }
  }

  // ---------------------------------------------------------------- the request line

  datatype RequestLine = RequestLine(httpMethod: string, path: string)

  /** `handleHTTPRequest`'s guard: the first line, split at spaces, must give at least two tokens. */
  function RequestLineOf(request: string): Option<RequestLine> {
    var components := Split(Split(request, Crlf)[0], " ");
    if |components| < 2 then None else Some(RequestLine(components[0], components[1]))
  }

  /** A request gets no request line exactly when its first line has no space. */
  lemma RequestLineGuard(request: string)
    ensures RequestLineOf(request).None? <==> ' ' !in Split(request, Crlf)[0]
  {
    var line := Split(request, Crlf)[0];
    ContainsSingle(line, ' ');
    if ' ' in line {
      var i := IndexOf(line, " ").value;
      SplitAt(line, " ", i);
    } else {
      SplitSingle(line, " ");
    }
  }

  /** A request line `method path version` yields its method and its path. */
  lemma RequestLineParsed(httpMethod: string, path: string, version: string, rest: string)
    requires ' ' !in httpMethod && ' ' !in path && ' ' !in version
    requires '\r' !in httpMethod && '\r' !in path && '\r' !in version
    ensures RequestLineOf(httpMethod + " " + path + " " + version + Crlf + rest) == Some(RequestLine(httpMethod, path))
  {
    var pieces := [httpMethod, path, version];
    var line := Join(pieces, " ");
    assert line == httpMethod + " " + path + " " + version by {
      assert Join(pieces[1..], " ") == path + " " + version by {
        assert pieces[1..][1..] == [version];
      }
    }
    JoinFree(pieces, " ", '\r');
    SplitCons(line, Crlf, rest);
    SplitJoin(pieces, " ");
  }

  // ---------------------------------------------------------------- the route table

  datatype ContentType = Html | JavaScript | Css | Json | Xml | Svg | PlainText
  {
    function Name(): (r: string)
      ensures '\r' !in r
    {
      match this
      case Html => "text/html"
      case JavaScript => "application/javascript"
      case Css => "text/css"
      case Json => "application/json"
      case Xml => "application/xml"
      case Svg => "image/svg+xml"
      case PlainText => "text/plain"
    }
  }

  datatype Status = NotFound | Unauthorized
  {
    function Line(): (r: string)
      ensures '\r' !in r
    {
      match this
      case NotFound => "404 Not Found"
      case Unauthorized => "401 Unauthorized"
    }
  }

  /** The handlers that write their own response. */
  datatype Handler =
    | AdminLogin | AdminUsers | AdminToggleUser | AdminDeleteUser | AdminDisableByIp
    | AdminUpdateEmoji | AdminToggleAdmin
    | Favicon | FaviconPng | SizedFavicon | AppIcon(size: nat) | AppleIcon
    | FileServing | StaticFiles | Thumbnails
    | SimpleUpload | WebAuthn | EmojiAnalysis
  {
    predicate IsAdminApi() {
      AdminUsers? || AdminToggleUser? || AdminDeleteUser? || AdminDisableByIp? || AdminUpdateEmoji? || AdminToggleAdmin?
    }
  }

  /** The page generators the route table names; the text they produce is not modelled. */
  datatype PageName =
    | IndexHtml | ChatJs | WebAuthnJs | WebAuthnUiJs | EmojiJs | StyleCss | WebAuthnCss
    | HybridTestHtml | SuperTestHtml | SuperTestJs
    | AdminLoginHtml | AdminIndexHtml | AdminCss | AdminJs | AdminLoginJs
    | WebManifest | BrowserConfig | PreviewSvg

  /**
   * Where a request goes: a generated page sent as `200 OK`, a refusal whose
   * body is its status line, or a handler.
   */
  datatype Route =
    | Page(contentType: ContentType, page: PageName)
    | Refused(status: Status)
    | Delegated(handler: Handler)

  const UsersPrefix: string := "/admin/api/users/"

  /**
   * The unanchored regular expression `/admin/api/users/[^/]+` followed by
   * `suffix`: somewhere in `path` the prefix is followed by a non-empty run
   * of characters other than `/`, and then by `suffix`.
   */
  predicate MatchesUserRoute(path: string, suffix: string) {
    exists i | 0 <= i <= |path| - |UsersPrefix| :: UsersPrefixAt(path, i) && SegmentThen(path, i + |UsersPrefix|, suffix)
  }

  predicate UsersPrefixAt(path: string, i: nat)
    requires i + |UsersPrefix| <= |path|
  {
    path[i..i + |UsersPrefix|] == UsersPrefix
  }

  /** From `start`, one or more characters other than `/`, then `suffix`. */
  predicate SegmentThen(path: string, start: nat, suffix: string)
    requires start <= |path|
  {
    exists j | start < j <= |path| :: NoSlashBetween(path, start, j) && HasPrefix(path[j..], suffix)
  }

  predicate NoSlashBetween(path: string, from: nat, to: nat)
    requires from <= to <= |path|
  {
    forall k | from <= k < to :: path[k] != '/'
  }

  const IconSizes: seq<nat> := [192, 512, 180, 152, 144, 120, 114, 96, 72, 64, 60, 57, 48, 32]

  function IconPath(size: nat): string {
    "/icon-" + Decimal(size) + ".png"
  }

  predicate IsSizedFaviconPath(path: string) {
    (HasPrefix(path, "/favicon-") || HasPrefix(path, "/icons/favicon-")) && HasSuffix(path, ".png")
  }

  /** An admin API handler runs only for a valid session, or while any session is live. */
  function Gated(h: Handler, validSession: bool, anySession: bool, refusal: Status): Route {
    if validSession || anySession then Delegated(h) else Refused(refusal)
  }

  /** The GET cases for the chat pages, in the order of the route table. */
  function PublicPage(path: string): (r: Option<Route>)
    ensures r.Some? ==> r.value.Page? && r.value.page !in {AdminIndexHtml, AdminJs}
  {
    if path == "/" then Some(Page(Html, IndexHtml))
    else if path == "/chat.js" then Some(Page(JavaScript, ChatJs))
    else if path == "/webauthn.js" then Some(Page(JavaScript, WebAuthnJs))
    else if path == "/webauthnui.js" then Some(Page(JavaScript, WebAuthnUiJs))
    else if path == "/emoji.js" then Some(Page(JavaScript, EmojiJs))
    else if path == "/style.css" then Some(Page(Css, StyleCss))
    else if path == "/webauthn.css" then Some(Page(Css, WebAuthnCss))
    else if path == "/hybrid-webauthn-test.html" then Some(Page(Html, HybridTestHtml))
    else if path == "/webauthn-super-test.html" then Some(Page(Html, SuperTestHtml))
    else if path == "/webauthn-super-test.js" then Some(Page(JavaScript, SuperTestJs))
    else None
  }

  /** The GET cases under `/admin`: the panel and its script need a valid session, the user list any session. */
  function AdminPage(path: string, validSession: bool, anySession: bool): (r: Option<Route>)
    ensures r.Some? && r.value.Page? && r.value.page in {AdminIndexHtml, AdminJs} ==> validSession
    ensures r.Some? && r.value.Delegated? ==> r.value.handler == AdminUsers && (validSession || anySession)
  {
    if path == "/admin/index.html" || path == "/admin/" || path == "/admin" then Some(Page(Html, AdminLoginHtml))
    else if path == "/admin/panel.html" then
      Some(if validSession then Page(Html, AdminIndexHtml) else Refused(NotFound))
    else if path == "/admin/login.html" then Some(Page(Html, AdminLoginHtml))
    else if path == "/admin/admin.css" then Some(Page(Css, AdminCss))
    else if path == "/admin/admin.js" then
      Some(if validSession then Page(JavaScript, AdminJs) else Refused(Unauthorized))
    else if path == "/admin/admin-login.js" then Some(Page(JavaScript, AdminLoginJs))
    else if path == "/admin/api/users" then Some(Gated(AdminUsers, validSession, anySession, Unauthorized))
    else None
  }

  /** The remaining GET cases: manifests, icons and the file trees; anything else is not found. */
  function AssetRoute(path: string): (r: Route)
    ensures r.Page? ==> r.page in {WebManifest, BrowserConfig, PreviewSvg}
    ensures r.Delegated? ==> !r.handler.IsAdminApi()
  {
    if path == "/manifest.json" then Page(Json, WebManifest)
    else if path == "/browserconfig.xml" then Page(Xml, BrowserConfig)
    else if path == "/favicon.ico" then Delegated(Favicon)
    else if path == "/favicon.png" then Delegated(FaviconPng)
    else IconRoute(path)
  }

  /** The icon routes, then the preview image, then the directory prefixes. */
  function IconRoute(path: string): (r: Route)
    ensures r.Page? ==> r.page == PreviewSvg
    ensures r.Delegated? ==> !r.handler.IsAdminApi()
  {
    if IsSizedFaviconPath(path) then Delegated(SizedFavicon)
    else match IconSize(path)
      case Some(size) => Delegated(AppIcon(size))
      case None =>
        if path == "/chat-preview.png" then Page(Svg, PreviewSvg)
        else PrefixRoute(path)
  }

  function PrefixRoute(path: string): (r: Route)
    ensures (r.Delegated? && !r.handler.IsAdminApi()) || r == Refused(NotFound)
  {
    if HasPrefix(path, "/icons/") then Delegated(AppleIcon)
    else if HasPrefix(path, "/files/") then Delegated(FileServing)
    else if HasPrefix(path, "/static/") then Delegated(StaticFiles)
    else if HasPrefix(path, "/thumbnails/") then Delegated(Thumbnails)
    else Refused(NotFound)
  }

  /** The GET cases, in the order of the route table: no later case names a path an earlier one takes. */
  function GetRoute(path: string, validSession: bool, anySession: bool): Route {
    match PublicPage(path)
    case Some(r) => r
    case None =>
      match AdminPage(path, validSession, anySession)
      case Some(r) => r
      case None => AssetRoute(path)
  }

  /** The size of the first `/icon-<size>.png` route that is `path`. */
  function IconSize(path: string): (r: Option<nat>)
    ensures r.Some? ==> r.value in IconSizes && path == IconPath(r.value)
    ensures r.None? <==> forall s :: s in IconSizes ==> path != IconPath(s)
  {
    IconSizeIn(path, IconSizes)
  }

  function IconSizeIn(path: string, sizes: seq<nat>): (r: Option<nat>)
    ensures r.Some? ==> r.value in sizes && path == IconPath(r.value)
    ensures r.None? <==> forall s :: s in sizes ==> path != IconPath(s)
    ensures r.Some? ==> exists i :: 0 <= i < |sizes| && sizes[i] == r.value &&
                          forall j :: 0 <= j < i ==> path != IconPath(sizes[j])
  {
    if |sizes| == 0 then None
    else if path == IconPath(sizes[0]) then Some(sizes[0])
    else
      var r := IconSizeIn(path, sizes[1..]);
      assert forall s :: s in sizes ==> s == sizes[0] || s in sizes[1..];
      if r.Some? then
        var i :| 0 <= i < |sizes| - 1 && sizes[1..][i] == r.value &&
                 forall j :: 0 <= j < i ==> path != IconPath(sizes[1..][j]);
        assert sizes[i + 1] == r.value;
        assert forall j :: 0 <= j < i + 1 ==> path != IconPath(sizes[j]) by {
          forall j | 0 <= j < i + 1 ensures path != IconPath(sizes[j]) {
            if j > 0 { assert sizes[j] == sizes[1..][j - 1]; }
          }
        }
        r
      else r
  }

  function PostRoute(path: string, validSession: bool, anySession: bool): Route {
    if path == "/admin/api/login" then Delegated(AdminLogin)
    else if MatchesUserRoute(path, "/toggle") then Gated(AdminToggleUser, validSession, anySession, NotFound)
    else if path == "/admin/api/users/disable-by-ip" then Gated(AdminDisableByIp, validSession, anySession, NotFound)
    else if MatchesUserRoute(path, "/emoji") then Gated(AdminUpdateEmoji, validSession, anySession, NotFound)
    else if MatchesUserRoute(path, "/admin") then Gated(AdminToggleAdmin, validSession, anySession, NotFound)
    else if path == "/upload" then Delegated(SimpleUpload)
    else if HasPrefix(path, "/webauthn/") then Delegated(WebAuthn)
    else if path == "/emoji/analyze" then Delegated(EmojiAnalysis)
    else Refused(NotFound)
  }

  /**
   * The `switch (method, path)` of `handleHTTPRequest`. A case for another
   * method never matches, so splitting by method keeps the order of the cases.
   * `validSession` and `anySession` are the answers of the admin session table.
   */
  function RouteFor(httpMethod: string, path: string, validSession: bool, anySession: bool): Route {
    if httpMethod == "GET" then GetRoute(path, validSession, anySession)
    else if httpMethod == "POST" then PostRoute(path, validSession, anySession)
    else if httpMethod == "DELETE" && MatchesUserRoute(path, "") then Gated(AdminDeleteUser, validSession, anySession, NotFound)
    else Refused(NotFound)
  }

  /** Without any live admin session no request reaches the admin panel, the admin script or the admin API. */
  lemma AdminNeedsSession(httpMethod: string, path: string)
    ensures var r := RouteFor(httpMethod, path, false, false);
            && !(r.Page? && (r.page == AdminIndexHtml || r.page == AdminJs))
            && !(r.Delegated? && r.handler.IsAdminApi())
  {
    if httpMethod == "GET" {
      GetNeedsSession(path);
    } else if httpMethod == "POST" {
      PostNeedsSession(path);
    }
  }

  lemma GetNeedsSession(path: string)
    ensures var r := GetRoute(path, false, false);
            && !(r.Page? && (r.page == AdminIndexHtml || r.page == AdminJs))
            && !(r.Delegated? && r.handler.IsAdminApi())
  {
    match PublicPage(path)
    case Some(_) =>
    case None =>
      match AdminPage(path, false, false)
      case Some(_) =>
      case None =>
  }

  lemma PostNeedsSession(path: string)
    ensures var r := PostRoute(path, false, false);
            !(r.Delegated? && r.handler.IsAdminApi())
  {
  }

  /** Any live session opens the admin API, whatever the request's own session. */
  lemma AnySessionOpensUsers(validSession: bool)
    ensures RouteFor("GET", "/admin/api/users", validSession, true) == Delegated(AdminUsers)
  {
  }

  // ---------------------------------------------------------------- responses

  /** A response text: each header line ended by CRLF, an empty line, then the body. */
  function Render(head: seq<string>, body: string): string
    requires |head| >= 1
  {
    Join(head, Crlf) + Crlf + (Crlf + body)
  }

  const StatusPrefix: string := "HTTP/1.1 "
  const ContentTypePrefix: string := "Content-Type: "
  const ConnectionClose: string := "Connection: close"
  const CorsPrefix: string := "Access-Control-Allow-"
  const AllowOrigin: string := CorsPrefix + "Origin: *"
  const AllowMethods: string := CorsPrefix + "Methods: GET, POST, OPTIONS"
  const AllowHeaders: string := CorsPrefix + "Headers: Content-Type"

  /** The header block `handleHTTPRequest` writes. */
  function PageHead(status: string, contentType: string, body: string): seq<string> {
    [StatusPrefix + status, ContentTypePrefix + contentType, ContentLengthLine(|Utf8.Encode(body)|),
     ConnectionClose, AllowOrigin, AllowMethods, AllowHeaders]
  }

  /** The shorter header block of `sendJSONResponse`, `sendResponse` and `sendErrorResponse`. */
  function ShortHead(status: string, contentType: string, body: string): seq<string> {
    [StatusPrefix + status, ContentTypePrefix + contentType, ContentLengthLine(|Utf8.Encode(body)|),
     ConnectionClose, AllowOrigin]
  }

  function PageResponse(status: string, contentType: string, body: string): string {
    Render(PageHead(status, contentType, body), body)
  }

  /** `sendJSONResponse` */
  function JsonResponse(json: string): string {
    Render(ShortHead("200 OK", Json.Name(), json), json)
  }

  /** The body `sendErrorResponse` writes around its message. */
  function ErrorJson(error: string): string {
    "{\n    \"success\": false,\n    \"error\": \"" + error + "\"\n}"
  }

  const BadRequest: string := "400 Bad Request"

  /** `sendErrorResponse`; its status defaults to `BadRequest`. */
  function ErrorResponse(error: string, status: string): string {
    Render(ShortHead(status, Json.Name(), ErrorJson(error)), ErrorJson(error))
  }

  function PreflightHead(): seq<string> {
    [StatusPrefix + "200 OK", AllowOrigin, AllowMethods, CorsPrefix + "Headers: Content-Type, Content-Length",
     "Access-Control-Max-Age: 86400", ContentLengthLine(0), ConnectionClose]
  }

  /** `handleCORSPreflight`: no body. */
  function PreflightResponse(): string {
    Render(PreflightHead(), "")
  }

  /** `sendFileResponse`: the header text, then the file's bytes as they are. */
  function FileResponseHead(size: nat, mimeType: string, fileName: string): seq<string> {
    [StatusPrefix + "200 OK", ContentTypePrefix + mimeType, ContentLengthLine(size),
     "Content-Disposition: inline; filename=\"" + fileName + "\"", ConnectionClose, AllowOrigin]
  }

  function FileResponse(data: seq<byte>, mimeType: string, fileName: string): seq<byte> {
    Utf8.Encode(Render(FileResponseHead(|data|, mimeType, fileName), "")) + data
  }

  predicate NoCarriageReturn(lines: seq<string>) {
    forall k :: 0 <= k < |lines| ==> '\r' !in lines[k]
  }

  /**
   * Splitting a rendered response at CRLF gives back its header lines, the
   * empty line and the body; the Content-Length header found first is the
   * one in position `at`.
   */
  lemma RenderFraming(head: seq<string>, body: string, at: nat, n: nat)
    requires |head| >= 1 && NoCarriageReturn(head)
    requires at < |head| && head[at] == ContentLengthLine(n) && n <= Int64Max
    requires forall j :: 0 <= j < at ==> !IsContentLengthLine(head[j])
    ensures var lines := Split(Render(head, body), Crlf);
            && |lines| > |head| + 1 && lines[..|head|] == head && lines[|head|] == ""
            && Join(lines[|head| + 1..], Crlf) == body
            && ContentLength(lines) == Some(n)
  {
    var lines := Split(Render(head, body), Crlf);
    SplitFramed(head, Crlf, body);
    forall j | 0 <= j < at
      ensures !IsContentLengthLine(lines[j])
    {
      assert lines[j] == head[j];
    }
    assert lines[at] == head[at];
    ContentLengthRoundTrip(n);
    ContentLengthAt(lines, at);
  }

  lemma NoCarriageReturnConcat(a: string, b: string)
    requires '\r' !in a && '\r' !in b
    ensures '\r' !in a + b
  {
  }

  lemma CountLineHasNoCr(n: nat)
    ensures '\r' !in ContentLengthLine(n)
  {
    DecimalHasNoCr(n);
    NoCarriageReturnConcat("Content-Length: ", Decimal(n));
  }

  lemma PrefixesHaveNoCr()
    ensures '\r' !in StatusPrefix && '\r' !in ContentTypePrefix && '\r' !in ConnectionClose && '\r' !in CorsPrefix
  {
  }

  lemma CorsLinesHaveNoCr()
    ensures '\r' !in AllowOrigin && '\r' !in AllowMethods && '\r' !in AllowHeaders
  {
    PrefixesHaveNoCr();
    NoCarriageReturnConcat(CorsPrefix, "Origin: *");
    NoCarriageReturnConcat(CorsPrefix, "Methods: GET, POST, OPTIONS");
    NoCarriageReturnConcat(CorsPrefix, "Headers: Content-Type");
  }

  /** The status line and the Content-Type line come before the count and are not mistaken for it. */
  lemma LeadingLinesNotCount(status: string, contentType: string)
    ensures !IsContentLengthLine(StatusPrefix + status)
    ensures !IsContentLengthLine(ContentTypePrefix + contentType)
  {
    NotContentLengthLine(StatusPrefix + status);
    NotContentLengthLine(ContentTypePrefix + contentType);
  }

  lemma PageHeadHasNoCr(status: string, contentType: string, body: string)
    requires '\r' !in status && '\r' !in contentType
    ensures NoCarriageReturn(PageHead(status, contentType, body))
  {
    PrefixesHaveNoCr();
    CorsLinesHaveNoCr();
    CountLineHasNoCr(|Utf8.Encode(body)|);
    NoCarriageReturnConcat(StatusPrefix, status);
    NoCarriageReturnConcat(ContentTypePrefix, contentType);
  }

  lemma ShortHeadHasNoCr(status: string, contentType: string, body: string)
    requires '\r' !in status && '\r' !in contentType
    ensures NoCarriageReturn(ShortHead(status, contentType, body))
  {
    PrefixesHaveNoCr();
    CorsLinesHaveNoCr();
    CountLineHasNoCr(|Utf8.Encode(body)|);
    NoCarriageReturnConcat(StatusPrefix, status);
    NoCarriageReturnConcat(ContentTypePrefix, contentType);
  }

  /** Every page or refusal `handleHTTPRequest` writes announces the UTF-8 length of its body. */
  lemma PageFraming(status: string, contentType: string, body: string)
    requires '\r' !in status && '\r' !in contentType
    requires |Utf8.Encode(body)| <= Int64Max
    ensures var lines := Split(PageResponse(status, contentType, body), Crlf);
            && |lines| > 8 && lines[7] == "" && Join(lines[8..], Crlf) == body
            && ContentLength(lines) == Some(|Utf8.Encode(body)|)
  {
    var head := PageHead(status, contentType, body);
    PageHeadFacts(status, contentType, body);
    RenderFraming(head, body, 2, |Utf8.Encode(body)|);
  }

  lemma PageHeadFacts(status: string, contentType: string, body: string)
    requires '\r' !in status && '\r' !in contentType
    ensures var head := PageHead(status, contentType, body);
            && |head| == 7 && NoCarriageReturn(head) && head[2] == ContentLengthLine(|Utf8.Encode(body)|)
            && forall j :: 0 <= j < 2 ==> !IsContentLengthLine(head[j])
  {
    PageHeadHasNoCr(status, contentType, body);
    LeadingLinesNotCount(status, contentType);
  }

  /** `sendErrorResponse` announces the UTF-8 length of its JSON body. */
  lemma ErrorFraming(error: string, status: string)
    requires '\r' !in status
    requires |Utf8.Encode(ErrorJson(error))| <= Int64Max
    ensures var lines := Split(ErrorResponse(error, status), Crlf);
            && |lines| > 6 && lines[5] == "" && Join(lines[6..], Crlf) == ErrorJson(error)
            && ContentLength(lines) == Some(|Utf8.Encode(ErrorJson(error))|)
  {
    var body := ErrorJson(error);
    var head := ShortHead(status, Json.Name(), body);
    ShortHeadFacts(status, Json.Name(), body);
    RenderFraming(head, body, 2, |Utf8.Encode(body)|);
  }

  lemma ShortHeadFacts(status: string, contentType: string, body: string)
    requires '\r' !in status && '\r' !in contentType
    ensures var head := ShortHead(status, contentType, body);
            && |head| == 5 && NoCarriageReturn(head) && head[2] == ContentLengthLine(|Utf8.Encode(body)|)
            && forall j :: 0 <= j < 2 ==> !IsContentLengthLine(head[j])
  {
    ShortHeadHasNoCr(status, contentType, body);
    LeadingLinesNotCount(status, contentType);
  }

  /** `sendFileResponse` announces the file's size, and its bytes follow the header text unchanged. */
  lemma FileFraming(data: seq<byte>, mimeType: string, fileName: string)
    requires '\r' !in mimeType && '\r' !in fileName
    requires |data| <= Int64Max
    ensures var text := Render(FileResponseHead(|data|, mimeType, fileName), "");
            && FileResponse(data, mimeType, fileName)[|Utf8.Encode(text)|..] == data
            && ContentLength(Split(text, Crlf)) == Some(|data|)
  {
    var head := FileResponseHead(|data|, mimeType, fileName);
    FileHeadFacts(|data|, mimeType, fileName);
    RenderFraming(head, "", 2, |data|);
  }

  lemma FileHeadFacts(size: nat, mimeType: string, fileName: string)
    requires '\r' !in mimeType && '\r' !in fileName
    ensures var head := FileResponseHead(size, mimeType, fileName);
            && |head| >= 3 && NoCarriageReturn(head) && head[2] == ContentLengthLine(size)
            && forall j :: 0 <= j < 2 ==> !IsContentLengthLine(head[j])
  {
    PrefixesHaveNoCr();
    CorsLinesHaveNoCr();
    CountLineHasNoCr(size);
    DispositionHasNoCr(fileName);
    NoCarriageReturnConcat(StatusPrefix, "200 OK");
    NoCarriageReturnConcat(ContentTypePrefix, mimeType);
    LeadingLinesNotCount("200 OK", mimeType);
  }

  lemma DispositionHasNoCr(fileName: string)
    requires '\r' !in fileName
    ensures '\r' !in "Content-Disposition: inline; filename=\"" + fileName + "\""
  {
    NoCarriageReturnConcat("Content-Disposition: inline; filename=\"", fileName);
    NoCarriageReturnConcat("Content-Disposition: inline; filename=\"" + fileName, "\"");
  }

  /** The preflight response announces an empty body. */
  lemma PreflightFraming()
    ensures ContentLength(Split(PreflightResponse(), Crlf)) == Some(0)
  {
    PreflightHeadFacts();
    RenderFraming(PreflightHead(), "", 5, 0);
  }

  lemma PreflightHeadFacts()
    ensures var head := PreflightHead();
            && |head| > 5 && NoCarriageReturn(head) && head[5] == ContentLengthLine(0)
            && forall j :: 0 <= j < 5 ==> !IsContentLengthLine(head[j])
  {
    var head := PreflightHead();
    PrefixesHaveNoCr();
    CorsLinesHaveNoCr();
    CountLineHasNoCr(0);
    NoCarriageReturnConcat(StatusPrefix, "200 OK");
    NoCarriageReturnConcat(CorsPrefix, "Headers: Content-Type, Content-Length");
    assert '\r' !in "Access-Control-Max-Age: 86400";
    forall j | 0 <= j < 5
      ensures !IsContentLengthLine(head[j])
    {
      NotContentLengthLine(head[j]);
    }
  }

  /** What `handleHTTPRequest` does with a request. */
  datatype Reply = Silent | Replied(response: string) | Handed(handler: Handler)

  /** `pages` stands for the static page generators. */
  function HandleHttpRequest(request: string, validSession: bool, anySession: bool, pages: PageName -> string): Reply {
    match RequestLineOf(request)
    case None => Silent
    case Some(line) =>
      match RouteFor(line.httpMethod, line.path, validSession, anySession)
      case Page(ct, page) => Replied(PageResponse("200 OK", ct.Name(), pages(page)))
      case Refused(status) => Replied(PageResponse(status.Line(), PlainText.Name(), status.Line()))
      case Delegated(h) => Handed(h)
  }

  /**
   * No response at all exactly when the first line has no space; every
   * response written here announces the UTF-8 length of the body it carries.
   */
  lemma HandleHttpRequestReplies(request: string, validSession: bool, anySession: bool, pages: PageName -> string)
    requires forall g :: |Utf8.Encode(pages(g))| <= Int64Max
    ensures var r := HandleHttpRequest(request, validSession, anySession, pages);
            && (r.Silent? <==> ' ' !in Split(request, Crlf)[0])
            && (r.Replied? ==> var lines := Split(r.response, Crlf);
                                |lines| > 8 && ContentLength(lines) == Some(|Utf8.Encode(Join(lines[8..], Crlf))|))
  {
    RequestLineGuard(request);
    match RequestLineOf(request)
    case None =>
    case Some(line) =>
      match RouteFor(line.httpMethod, line.path, validSession, anySession)
      case Page(ct, page) =>
        PageFraming("200 OK", ct.Name(), pages(page));
      case Refused(status) =>
        StatusLineShort(status);
        PageFraming(status.Line(), PlainText.Name(), status.Line());
      case Delegated(h) =>
  }

  lemma StatusLineShort(status: Status)
    ensures |Utf8.Encode(status.Line())| <= Int64Max
  {
    Utf8.EncodeBound(status.Line());
  }

  // ---------------------------------------------------------------- the first read of a connection

  /** What `handleNewConnection` does after its first read. */
  datatype Dispatch =
    | Ignore
    | UploadBinary(initialData: seq<byte>, headerString: string)
    | Upgrade(request: string)
    | Preflight(path: string)
    | Handle(request: string)
    | ReadMore(data: seq<byte>, bodyStart: nat, contentLength: int)

  predicate IsUploadHeader(headerString: string) {
    Contains(headerString, "POST /upload")
    || (Contains(headerString, "POST ") && Contains(Lower(headerString), "multipart/form-data"))
  }

  /** The request as text: invalid UTF-8 gives the empty text. */
  function RequestText(data: seq<byte>): string {
    Utf8.Decode(data).GetOr("")
  }

  /** The header block up to and including the first CRLFCRLF, when it is valid UTF-8. */
  function UploadHeader(data: seq<byte>): Option<string> {
    match IndexOf(data, HeaderEnd)
    case None => None
    case Some(i) => Utf8.Decode(data[..i + 4])
  }

  /** The first read holds a whole header block that announces an upload. */
  predicate StartsUpload(data: seq<byte>) {
    UploadHeader(data).Some? && IsUploadHeader(UploadHeader(data).value)
  }

  /** `handleNewConnection` after its first read. */
  function FirstDispatch(read: Option<seq<byte>>): (r: Dispatch)
    ensures read.None? <==> r.Ignore?
    ensures r.UploadBinary? ==> r.initialData == read.value && UploadHeader(read.value) == Some(r.headerString)
                                && IsUploadHeader(r.headerString)
    ensures read.Some? && !StartsUpload(read.value) ==> r == TextDispatch(read.value, RequestText(read.value))
  {
    match read
    case None => Ignore
    case Some(data) =>
      if StartsUpload(data) then UploadBinary(data, UploadHeader(data).value)
      else TextDispatch(data, RequestText(data))
  }

  /** The method and the path of the first line, or empty text when they are missing. */
  function MethodAndPath(request: string): (string, string) {
    var components := Split(Split(request, Crlf)[0], " ");
    (components[0], if |components| > 1 then components[1] else "")
  }

  function TextDispatch(data: seq<byte>, request: string): (r: Dispatch)
    ensures r.Upgrade? ==> Contains(request, "Upgrade: websocket") && r.request == request
    ensures r.Preflight? ==> r.path == MethodAndPath(request).1
    ensures r.ReadMore? || r.Handle? ==> HasPrefix(request, "POST") || r == Handle(request)
  {
    var (httpMethod, path) := MethodAndPath(request);
    if Contains(request, "Upgrade: websocket") then Upgrade(request)
    else if httpMethod == "OPTIONS" then Preflight(path)
    else if HasPrefix(request, "POST") then PostDispatch(data, request)
    else Handle(request)
  }

  /** A POST: read on only while a Content-Length is announced and the body after the header is short of it. */
  function PostDispatch(data: seq<byte>, request: string): (r: Dispatch)
    ensures r == Handle(request) || r.ReadMore?
  {
    match ContentLength(Split(request, Crlf))
    case None => Handle(request)
    case Some(contentLength) =>
      match IndexOf(data, HeaderEnd)
      case None => Handle(request)
      case Some(i) =>
        if |data| - (i + 4) >= contentLength then Handle(request)
        else ReadMore(data, i + 4, contentLength)
  }

  /**
   * Reading on happens exactly when a Content-Length is announced, the
   * header ends in this read, and fewer body bytes than announced follow it;
   * otherwise the request is handled at once.
   */
  lemma PostDispatchRule(data: seq<byte>, request: string)
    ensures var r := PostDispatch(data, request);
            && (r.ReadMore? <==>
                  && ContentLength(Split(request, Crlf)).Some?
                  && IndexOf(data, HeaderEnd).Some?
                  && |data| - (IndexOf(data, HeaderEnd).value + 4) < ContentLength(Split(request, Crlf)).value)
            && (r.ReadMore? ==> && r.data == data && r.bodyStart == IndexOf(data, HeaderEnd).value + 4
                                  && r.bodyStart <= |data|
                                  && Some(r.contentLength) == ContentLength(Split(request, Crlf)))
  {
  }

  // ---------------------------------------------------------------- completing a body

  /** The bytes delivered by a run of receives, in order. */
  function Received(completions: seq<Option<seq<byte>>>): seq<byte> {
    if |completions| == 0 then [] else Received(completions[..|completions| - 1]) + completions[|completions| - 1].GetOr([])
  }

  lemma ReceivedSnoc(completions: seq<Option<seq<byte>>>, k: nat)
    requires k < |completions|
    ensures Received(completions[..k + 1]) == Received(completions[..k]) + completions[k].GetOr([])
  {
    assert completions[..k + 1][..k] == completions[..k];
  }

  /** Each of the first `k` completions delivered data and left the body still short of `contentLength`. */
  ghost predicate ShortAfterEach(data: seq<byte>, bodyStart: nat, contentLength: int, completions: seq<Option<seq<byte>>>, k: nat) {
    k <= |completions|
    && forall j :: 0 <= j < k ==> completions[j].Some? && |data| + |Received(completions[..j + 1])| - bodyStart < contentLength
  }

  /**
   * `readMore` in `handleNewConnection`: append each delivered chunk until the
   * bytes after the header reach `contentLength`, or hand on what there is when
   * a read delivers nothing. `None` when the completions run out first.
   */
  method ReadRequestBody(data: seq<byte>, bodyStart: nat, contentLength: int, completions: seq<Option<seq<byte>>>)
    returns (request: Option<string>, used: nat)
    ensures used <= |completions|
    ensures request.Some? ==> used >= 1 && ShortAfterEach(data, bodyStart, contentLength, completions, used - 1)
    ensures request.Some? ==> completions[used - 1].None? || |data| + |Received(completions[..used])| - bodyStart >= contentLength
    ensures request.Some? ==> request.value == RequestText(data + Received(completions[..used]))
    ensures request.None? ==> used == |completions| && ShortAfterEach(data, bodyStart, contentLength, completions, used)
  {
    var fullData := data;
    used := 0;
    while used < |completions|
      invariant used <= |completions|
      invariant fullData == data + Received(completions[..used])
      invariant ShortAfterEach(data, bodyStart, contentLength, completions, used)
    {
      var more := completions[used];
      ReceivedSnoc(completions, used);
      used := used + 1;
      match more {
        case Some(bytes) =>
          fullData := fullData + bytes;
          assert fullData == data + Received(completions[..used]);
          if |fullData| - bodyStart >= contentLength {
            request := Some(RequestText(fullData));
            return;
          }
          assert |data| + |Received(completions[..used])| - bodyStart < contentLength;
        case None =>
          assert Received(completions[..used]) == Received(completions[..used - 1]);
          request := Some(RequestText(fullData));
          return;
      }
    }
    request := None;
  }

  predicate Delivers(read: Option<seq<byte>>) {
    read.Some? && |read.value| > 0
  }

  /**
   * The start of `handleFileUploadBinary`: the body received so far and the
   * expected length, or the error it answers with. A missing header end wins
   * over a missing Content-Length.
   */
  function UploadStart(initialData: seq<byte>, headerString: string): (r: Result<(seq<byte>, int)>)
    ensures IndexOf(initialData, HeaderEnd).None? ==> r == Failure("Invalid HTTP request format")
    ensures IndexOf(initialData, HeaderEnd).Some? && ContentLength(Split(headerString, Crlf)).None?
            ==> r == Failure("Missing Content-Length header")
    ensures r.Ok? ==> && IndexOf(initialData, HeaderEnd).Some?
                      && r.value.0 == initialData[IndexOf(initialData, HeaderEnd).value + 4..]
                      && ContentLength(Split(headerString, Crlf)) == Some(r.value.1)
  {
    match IndexOf(initialData, HeaderEnd)
    case None => Failure("Invalid HTTP request format")
    case Some(i) =>
      match ContentLength(Split(headerString, Crlf))
      case None => Failure("Missing Content-Length header")
      case Some(expected) =>
        Ok((initialData[i + 4..], expected))
  }

  /**
   * `readMoreBinary`: before each read, stop once the body holds
   * `expectedLength` bytes; a read that delivers nothing also ends it.
   * `None` when the completions run out first.
   */
  method ReadUploadBody(initialBody: seq<byte>, expectedLength: int, completions: seq<Option<seq<byte>>>)
    returns (body: Option<seq<byte>>, used: nat)
    ensures used <= |completions|
    ensures forall j :: 0 <= j < used ==> |initialBody + Received(completions[..j])| < expectedLength
    ensures body.Some? ==> body.value == initialBody + Received(completions[..used])
    ensures body.Some? ==> |body.value| >= expectedLength || (used >= 1 && !Delivers(completions[used - 1]))
    ensures body.Some? ==> forall j :: 0 <= j < used - 1 ==> Delivers(completions[j])
    ensures body.None? ==> used == |completions| && (forall j :: 0 <= j < used ==> Delivers(completions[j]))
                           && |initialBody + Received(completions)| < expectedLength
  {
    var all := initialBody;
    used := 0;
    while used < |completions| && |all| < expectedLength
      invariant used <= |completions|
      invariant all == initialBody + Received(completions[..used])
      invariant forall j :: 0 <= j < used ==> |initialBody + Received(completions[..j])| < expectedLength
      invariant forall j :: 0 <= j < used ==> Delivers(completions[j])
    {
      var more := completions[used];
      ReceivedSnoc(completions, used);
      used := used + 1;
      if Delivers(more) {
        all := all + more.value;
      } else {
        assert more.GetOr([]) == [];
        body := Some(all);
        return;
      }
    }
    if |all| >= expectedLength {
      body := Some(all);
    } else {
      assert completions[..used] == completions;
      body := None;
    }
  }

  // ---------------------------------------------------------------- serving stored files

  /**
   * `handleFileServing`: the non-empty `/`-separated parts of the path; two parts
   * name a stored file name, three parts a stored attachment id.
   */
  function FileFor(path: string, attachments: seq<FileAttachment>): (r: Option<FileAttachment>)
    ensures r.Some? ==> r.value in attachments
  {
    var parts := PathParts(path);
    if |parts| == 2 then FirstNamed(attachments, parts[1])
    else if |parts| == 3 then FirstWithId(attachments, parts[1])
    else None
  }

  predicate NonEmpty(part: string) {
    part != ""
  }

  function PathParts(path: string): seq<string> {
    Filter(Split(path, "/"), NonEmpty)
  }

  /** The first attachment stored under `fileName`. */
  function FirstNamed(attachments: seq<FileAttachment>, fileName: string): (r: Option<FileAttachment>)
    ensures r.Some? ==> r.value in attachments && r.value.fileName == fileName
    ensures r.None? <==> forall a :: a in attachments ==> a.fileName != fileName
  {
    if |attachments| == 0 then None
    else if attachments[0].fileName == fileName then Some(attachments[0])
    else FirstNamed(attachments[1..], fileName)
  }

  /** The first attachment with id `id`. */
  function FirstWithId(attachments: seq<FileAttachment>, id: string): (r: Option<FileAttachment>)
    ensures r.Some? ==> r.value in attachments && r.value.id == id
    ensures r.None? <==> forall a :: a in attachments ==> a.id != id
  {
    if |attachments| == 0 then None
    else if attachments[0].id == id then Some(attachments[0])
    else FirstWithId(attachments[1..], id)
  }

  /** `/files/<id>/<name>` serves the first attachment with that id, whatever the name. */
  lemma FileForIdPath(id: string, name: string, attachments: seq<FileAttachment>)
    requires id != "" && name != "" && '/' !in id && '/' !in name
    ensures FileFor("/files/" + id + "/" + name, attachments) == FirstWithId(attachments, id)
  {
    var pieces := ["", "files", id, name];
    assert Join(pieces, "/") == "/files/" + id + "/" + name by {
      assert pieces[1..][1..][1..] == [name];
      assert Join(pieces[1..][1..], "/") == id + "/" + name;
      assert Join(pieces[1..], "/") == "files/" + id + "/" + name;
    }
    PathPartsOfJoin(pieces);
    var parts := PathParts("/files/" + id + "/" + name);
    assert parts == pieces[1..];
    assert |parts| == 3 && parts[1] == id;
    FileForParts("/files/" + id + "/" + name, attachments);
  }

  /** `/files/<name>` serves the first attachment stored under that name. */
  lemma FileForNamePath(name: string, attachments: seq<FileAttachment>)
    requires name != "" && '/' !in name
    ensures FileFor("/files/" + name, attachments) == FirstNamed(attachments, name)
  {
    var pieces := ["", "files", name];
    assert Join(pieces, "/") == "/files/" + name by {
      assert pieces[1..][1..] == [name];
      assert Join(pieces[1..], "/") == "files/" + name;
    }
    PathPartsOfJoin(pieces);
    FileForParts("/files/" + name, attachments);
  }

  /** Which attachment a path serves, by the number of its parts. */
  lemma FileForParts(path: string, attachments: seq<FileAttachment>)
    ensures var parts := PathParts(path);
            && (|parts| == 2 ==> FileFor(path, attachments) == FirstNamed(attachments, parts[1]))
            && (|parts| == 3 ==> FileFor(path, attachments) == FirstWithId(attachments, parts[1]))
            && (|parts| != 2 && |parts| != 3 ==> FileFor(path, attachments).None?)
  {
  }

  /** The parts of a path joined from an empty first piece and non-empty pieces without `/`. */
  lemma PathPartsOfJoin(pieces: seq<string>)
    requires |pieces| >= 1 && pieces[0] == ""
    requires forall k :: 1 <= k < |pieces| ==> pieces[k] != "" && '/' !in pieces[k]
    ensures PathParts(Join(pieces, "/")) == pieces[1..]
  {
    forall k | 0 <= k < |pieces|
      ensures "/"[0] !in pieces[k]
    {
    }
    SplitJoin(pieces, "/");
    PathPartsOf(pieces);
  }

  /** Dropping the empty pieces of `["", a, b, ...]` leaves the rest when none of them is empty. */
  lemma PathPartsOf(pieces: seq<string>)
    requires |pieces| >= 1 && pieces[0] == ""
    requires forall k :: 1 <= k < |pieces| ==> pieces[k] != ""
    ensures Filter(pieces, NonEmpty) == pieces[1..]
  {
    assert Filter(pieces, NonEmpty) == Filter(pieces[1..], NonEmpty);
    FilterAll(pieces[1..], NonEmpty);
  }
}
