/**
 * The admin session table of the web server (`AdminManager`): reading the
 * session id a request carries (an `adminSessionId` cookie, as section 4.2 of
 * RFC 6265 lays out the `Cookie` header, or a bearer token, section 2.1 of
 * RFC 6750), reading the client address from the forwarding headers, and
 * creating, validating and expiring sessions.
 *
 * The delegate's two answers (`didAuthenticateUser`, `shouldAllowAdminAccess`)
 * and the connection's remote endpoint are parameters; a missing delegate
 * answers false. The clock reading and the fresh UUID are parameters too.
 */
module Admin {
  import opened Wrappers
  import opened Seqs
  import opened Text
  import opened Models

  const SessionTimeout: real := 3600.0

  datatype AdminSession = AdminSession(sessionId: string, username: string, loginTime: Date, clientIP: string) {
    /** More than an hour has passed since the login. */
    predicate IsExpired(now: Date) {
      now - loginTime > SessionTimeout
    }
  }

  /** The first element of `s` for which `f` gives a value, and that value. */
  function FirstSome<T, U>(s: seq<T>, f: T -> Option<U>): (r: Option<U>)
    ensures r.Some? ==> exists i :: 0 <= i < |s| && f(s[i]) == r && forall j :: 0 <= j < i ==> f(s[j]).None?
    ensures r.None? <==> forall i :: 0 <= i < |s| ==> f(s[i]).None?
  {
    if |s| == 0 then None
    else if f(s[0]).Some? then f(s[0])
    else
      var r := FirstSome(s[1..], f);
      assert forall i :: 1 <= i < |s| ==> s[i] == s[1..][i - 1];
      r
  }

  lemma {:induction false} FirstSomeCons<T, U>(head: seq<T>, x: T, tail: seq<T>, f: T -> Option<U>)
    requires forall i :: 0 <= i < |head| ==> f(head[i]).None?
    requires f(x).Some?
    ensures FirstSome(head + [x] + tail, f) == f(x)
    decreases |head|
  {
    var s := head + [x] + tail;
    if |head| == 0 {
      assert s[0] == x;
    } else {
      assert s[0] == head[0];
      assert s[1..] == head[1..] + [x] + tail;
      FirstSomeCons(head[1..], x, tail, f);
    }
  }

  // ------------------------------------------------------------ session id

  const Crlf: string := "\r\n"
  const CookiePrefix: string := "cookie:"
  const BearerPrefix: string := "authorization: bearer "
  const SessionCookieName: string := "adminSessionId"

  /** One cookie of the header: the value when it is `adminSessionId=value`, with exactly one `=`. */
  function SessionCookie(cookie: string): Option<string> {
    var parts := Split(Trim(cookie), "=");
    if |parts| == 2 && parts[0] == SessionCookieName then Some(parts[1]) else None
  }

  /** A `Cookie` line (the name in any case): the first session cookie among its `;`-separated cookies. */
  function CookieLineSession(line: string): Option<string> {
    if HasPrefix(Lower(line), CookiePrefix) then FirstSome(Split(line[|CookiePrefix|..], ";"), SessionCookie)
    else None
  }

  /** An `Authorization: Bearer` line (in any case): the trimmed token. */
  function BearerLineSession(line: string): Option<string> {
    if HasPrefix(Lower(line), BearerPrefix) then Some(Trim(line[|BearerPrefix|..])) else None
  }

  /** A session cookie on any line wins; otherwise the first bearer line. */
  function SessionIdFromLines(lines: seq<string>): Option<string> {
    match FirstSome(lines, CookieLineSession)
    case Some(id) => Some(id)
    case None => FirstSome(lines, BearerLineSession)
  }

  /** `extractSessionId(from:)` over the request's CRLF-separated lines. */
  function ExtractSessionId(request: string): Option<string> {
    SessionIdFromLines(Split(request, Crlf))
  }

  /** A request carries a session id exactly when some line is a matching cookie line or a bearer line. */
  lemma SessionIdPresent(lines: seq<string>)
    ensures SessionIdFromLines(lines).None? <==>
              forall i :: 0 <= i < |lines| ==> CookieLineSession(lines[i]).None? && BearerLineSession(lines[i]).None?
  {
  }

  /** A line starting with `head`, where `head` lower-cased is `p`, has the prefix `p` once lower-cased. */
  lemma LowerHasPrefix(head: string, rest: string, p: string)
    requires Lower(head) == p
    ensures HasPrefix(Lower(head + rest), p) && (head + rest)[|p|..] == rest
  {
    var line := head + rest;
    forall i | 0 <= i < |p|
      ensures Lower(line)[i] == p[i]
    {
      assert line[i] == head[i];
    }
    assert Lower(line)[..|p|] == p;
  }

  /** Trimming a space off the front of a text with no blank at either end. */
  lemma TrimLeadingSpace(t: string)
    requires |t| > 0 && !IsWhitespace(t[0]) && !IsWhitespace(t[|t| - 1])
    ensures Trim(" " + t) == t
  {
    assert (" " + t)[1..] == t;
    assert TrimStart(" " + t, IsWhitespace) == t;
    assert TrimEnd(t, IsWhitespace) == t;
  }

  /** A name and a value joined by `sep`, neither holding it, split back into the two. */
  lemma SplitPair(name: string, sep: char, value: string)
    requires sep !in name && sep !in value
    ensures Split(name + [sep] + value, [sep]) == [name, value]
  {
    SplitCons(name, [sep], value);
    SplitSingle(value, [sep]);
  }

  lemma CookieNameHasNoEquals()
    ensures '=' !in SessionCookieName
  {
    forall i | 0 <= i < |SessionCookieName|
      ensures SessionCookieName[i] != '='
    {
    }
  }

  /** A cookie ` name=value` trims and splits into its name and its value. */
  lemma CookieParts(name: string, value: string)
    requires |name| > 0 && !IsWhitespace(name[0]) && '=' !in name && '=' !in value
    requires |value| > 0 ==> !IsWhitespace(value[|value| - 1])
    ensures Split(Trim(" " + name + "=" + value), "=") == [name, value]
  {
    var pair := name + "=" + value;
    assert " " + name + "=" + value == " " + pair;
    assert pair[0] == name[0];
    assert pair[|pair| - 1] == if |value| > 0 then value[|value| - 1] else '=';
    TrimLeadingSpace(pair);
    SplitPair(name, '=', value);
  }

  /** `adminSessionId=value`, with no further `=` and no trailing blank, is the session cookie with that value. */
  lemma SessionCookieOf(value: string)
    requires '=' !in value
    requires |value| > 0 ==> !IsWhitespace(value[|value| - 1])
    ensures SessionCookie(" " + SessionCookieName + "=" + value) == Some(value)
  {
    CookieNameHasNoEquals();
    CookieParts(SessionCookieName, value);
  }

  /** A cookie line holding a single cookie, which is a session cookie, names its value. */
  lemma SingleCookieLine(name: string, cookie: string, value: string)
    requires Lower(name) == CookiePrefix && ';' !in cookie
    requires SessionCookie(cookie) == Some(value)
    ensures CookieLineSession(name + cookie) == Some(value)
  {
    var line := name + cookie;
    LowerHasPrefix(name, cookie, CookiePrefix);
    SplitSingle(cookie, ";");
    var cookies := Split(line[|CookiePrefix|..], ";");
    assert cookies == [cookie];
    assert FirstSome(cookies, SessionCookie) == SessionCookie(cookies[0]);
  }

  /** `Cookie: adminSessionId=value`, the header name in any case, names that value. */
  lemma CookieLineNamesValue(name: string, value: string)
    requires Lower(name) == CookiePrefix
    requires '=' !in value && ';' !in value
    requires |value| > 0 ==> !IsWhitespace(value[|value| - 1])
    ensures CookieLineSession(name + " " + SessionCookieName + "=" + value) == Some(value)
  {
    var cookie := " " + SessionCookieName + "=" + value;
    assert name + " " + SessionCookieName + "=" + value == name + cookie;
    assert ';' !in cookie;
    SessionCookieOf(value);
    SingleCookieLine(name, cookie, value);
  }

  /**
   * The first session cookie is the session id, however many bearer lines come
   * before or after it.
   */
  lemma CookieBeforeBearer(before: seq<string>, name: string, value: string, after: seq<string>)
    requires forall i :: 0 <= i < |before| ==> CookieLineSession(before[i]).None?
    requires Lower(name) == CookiePrefix
    requires '=' !in value && ';' !in value
    requires |value| > 0 ==> !IsWhitespace(value[|value| - 1])
    ensures SessionIdFromLines(before + [name + " " + SessionCookieName + "=" + value] + after) == Some(value)
  {
    var line := name + " " + SessionCookieName + "=" + value;
    CookieLineNamesValue(name, value);
    FirstSomeCons(before, line, after, CookieLineSession);
  }

  /** A bearer line is not a cookie line. */
  lemma BearerNotCookie(prefix: string, token: string)
    requires Lower(prefix) == BearerPrefix
    ensures CookieLineSession(prefix + token).None?
  {
    var line := prefix + token;
    assert line[0] == prefix[0];
    assert Lower(line)[0] == LowerChar(prefix[0]) == Lower(prefix)[0];
    assert BearerPrefix[0] == 'a' && CookiePrefix[0] == 'c';
    assert !HasPrefix(Lower(line), CookiePrefix) by {
      if |CookiePrefix| <= |Lower(line)| {
        assert Lower(line)[..|CookiePrefix|][0] == Lower(line)[0];
      }
    }
  }

  /** Without a session cookie, the first bearer line, its prefix in any case, gives the trimmed token. */
  lemma BearerFallback(before: seq<string>, prefix: string, token: string, after: seq<string>)
    requires forall i :: 0 <= i < |before| ==> CookieLineSession(before[i]).None? && BearerLineSession(before[i]).None?
    requires forall i :: 0 <= i < |after| ==> CookieLineSession(after[i]).None?
    requires Lower(prefix) == BearerPrefix
    ensures SessionIdFromLines(before + [prefix + token] + after) == Some(Trim(token))
  {
    var line := prefix + token;
    var lines := before + [line] + after;
    LowerHasPrefix(prefix, token, BearerPrefix);
    BearerNotCookie(prefix, token);
    forall i | 0 <= i < |lines|
      ensures CookieLineSession(lines[i]).None?
    {
      if i < |before| {
        assert lines[i] == before[i];
      } else if i > |before| {
        assert lines[i] == after[i - |before| - 1];
      }
    }
    FirstSomeCons(before, line, after, BearerLineSession);
  }

  // ------------------------------------------------------------- client IP

  const ForwardedFor: string := "x-forwarded-for"
  const RealIp: string := "x-real-ip"

  /** A header line with a colon: its trimmed, lower-cased name and its trimmed value. */
  function HeaderField(line: string): (r: Option<(string, string)>)
    ensures r.None? <==> ':' !in line
  {
    match FirstIndexOf(line, ':')
    case None => None
    case Some(c) => Some((Lower(Trim(line[..c])), Trim(line[c + 1..])))
  }

  /** `Name: value` files its trimmed value under its trimmed, lower-cased name; later colons stay in the value. */
  lemma HeaderFieldOf(name: string, value: string)
    requires ':' !in name
    ensures HeaderField(name + ":" + value) == Some((Lower(Trim(name)), Trim(value)))
  {
    var line := name + ":" + value;
    assert line[|name|] == ':';
    assert forall j :: 0 <= j < |name| ==> line[j] == name[j];
    var c := FirstIndexOf(line, ':');
    assert c == Some(|name|);
    assert line[..|name|] == name;
    assert line[|name| + 1..] == value;
  }

  /**
   * The header dictionary: every line with a colon, up to the first empty
   * line, stores its value under its name; a later line overwrites an
   * earlier one.
   */
  function Headers(lines: seq<string>, acc: map<string, string>): map<string, string>
    decreases |lines|
  {
    if |lines| == 0 || lines[0] == "" then acc
    else
      Headers(lines[1..], match HeaderField(lines[0])
                          case None => acc
                          case Some(field) => acc[field.0 := field.1])
  }

  /** Headers read from a prefix without empty lines carry on into the rest. */
  lemma {:induction false} HeadersAppend(before: seq<string>, rest: seq<string>, acc: map<string, string>)
    requires "" !in before
    ensures Headers(before + rest, acc) == Headers(rest, Headers(before, acc))
    decreases |before|
  {
    if |before| > 0 {
      var acc' := match HeaderField(before[0])
                  case None => acc
                  case Some(field) => acc[field.0 := field.1];
      assert (before + rest)[0] == before[0];
      assert (before + rest)[1..] == before[1..] + rest;
      HeadersAppend(before[1..], rest, acc');
    } else {
      assert before + rest == rest;
    }
  }

  /** Nothing after the first empty line is read. */
  lemma HeadersStopAtBlank(before: seq<string>, after: seq<string>, acc: map<string, string>)
    requires "" !in before
    ensures Headers(before + [""] + after, acc) == Headers(before, acc)
  {
    assert before + [""] + after == before + ([""] + after);
    HeadersAppend(before, [""] + after, acc);
    assert Headers(before, acc) == Headers(before + [], acc) by {
      assert before + [] == before;
      HeadersAppend(before, [], acc);
    }
  }

  /** The last line with a given name decides its value. */
  lemma LaterHeaderWins(before: seq<string>, line: string, acc: map<string, string>)
    requires "" !in before && HeaderField(line).Some?
    ensures var field := HeaderField(line).value;
            Headers(before + [line], acc) == Headers(before, acc)[field.0 := field.1]
  {
    HeadersAppend(before, [line], acc);
    assert line != "";
    assert [line][1..] == [];
  }

  /** The first comma-separated entry of `X-Forwarded-For`, trimmed: the original client. */
  function ForwardedClient(value: string): string {
    Trim(Split(value, ",")[0])
  }

  /**
   * `X-Forwarded-For` first, then `X-Real-IP` (trimmed), then the address
   * of the connection's remote endpoint, if it has one.
   */
  function ClientIpFromHeaders(headers: map<string, string>, endpoint: Option<string>): (r: Option<string>)
    ensures ForwardedFor in headers || RealIp in headers ==> r.Some?
    ensures ForwardedFor !in headers && RealIp !in headers ==> r == endpoint
  {
    if ForwardedFor in headers then Some(ForwardedClient(headers[ForwardedFor]))
    else if RealIp in headers then Some(Trim(headers[RealIp]))
    else endpoint
  }

  /** `extractClientIP(_:connection:)`. */
  function ExtractClientIp(request: string, endpoint: Option<string>): Option<string> {
    ClientIpFromHeaders(Headers(Split(request, Crlf), map[]), endpoint)
  }

  /** With `X-Forwarded-For` present, neither `X-Real-IP` nor the endpoint matters. */
  lemma ForwardedForWins(headers: map<string, string>, realIp: string, e1: Option<string>, e2: Option<string>)
    requires ForwardedFor in headers
    ensures ClientIpFromHeaders(headers, e1) == ClientIpFromHeaders(headers[RealIp := realIp], e2)
  {
    assert headers[RealIp := realIp][ForwardedFor] == headers[ForwardedFor];
  }

  /** Without `X-Forwarded-For`, the trimmed `X-Real-IP` is taken and the endpoint does not matter. */
  lemma RealIpOverEndpoint(headers: map<string, string>, e1: Option<string>, e2: Option<string>)
    requires ForwardedFor !in headers && RealIp in headers
    ensures ClientIpFromHeaders(headers, e1) == ClientIpFromHeaders(headers, e2) == Some(Trim(headers[RealIp]))
  {
  }

  /** Of a forwarding chain `client, proxy, ...` the client address is taken. */
  lemma ForwardedFirstHop(client: string, proxies: string)
    requires ',' !in client
    ensures ForwardedClient(client + "," + proxies) == Trim(client)
  {
    SplitCons(client, ",", proxies);
  }

  // ---------------------------------------------------------- session table

  /** The sessions still within their hour at `now`. */
  function LiveSessions(sessions: map<string, AdminSession>, now: Date): (r: map<string, AdminSession>)
    ensures forall k :: k in r <==> k in sessions && !sessions[k].IsExpired(now)
    ensures forall k :: k in r ==> r[k] == sessions[k]
  {
    map k | k in sessions && !sessions[k].IsExpired(now) :: sessions[k]
  }

  /** Dropping the expired sessions keeps every session that gives access now. */
  lemma LiveSessionsIdempotent(sessions: map<string, AdminSession>, now: Date)
    ensures LiveSessions(LiveSessions(sessions, now), now) == LiveSessions(sessions, now)
    ensures (exists k :: k in LiveSessions(sessions, now)) <==> (exists k :: k in sessions && !sessions[k].IsExpired(now))
  {
  }

  class AdminManager {
    var adminSessions: map<string, AdminSession>
    const configuredAdminUsername: string

    /** Every stored session is filed under its own id. */
    predicate Valid()
      reads this
    {
      forall k :: k in adminSessions ==> adminSessions[k].sessionId == k
    }

    /** Every stored session belongs to the configured admin. */
    predicate AdminOnly()
      reads this
    {
      forall k :: k in adminSessions ==> adminSessions[k].username == configuredAdminUsername
    }

    constructor (adminUsername: string)
      ensures configuredAdminUsername == adminUsername && adminSessions == map[]
      ensures Valid() && AdminOnly()
    {
      configuredAdminUsername := adminUsername;
      adminSessions := map[];
    }

    /** The request's session id names a stored session that has not expired. */
    predicate HasLiveSession(id: Option<string>, now: Date)
      reads this
    {
      id.Some? && id.value in adminSessions && !adminSessions[id.value].IsExpired(now)
    }

    /**
     * `isValidAdminSession(_:)`: the request's session must be live, belong
     * to the configured admin, and be allowed by the delegate (`allow`); a
     * live session failing either of the last two checks is removed.
     */
    method IsValidAdminSession(request: string, now: Date, allow: bool) returns (valid: bool)
      requires Valid()
      modifies this
      ensures Valid()
      ensures var id := ExtractSessionId(request);
              && (valid <==> old(HasLiveSession(id, now)) && old(adminSessions)[id.value].username == configuredAdminUsername && allow)
              && adminSessions == if old(HasLiveSession(id, now)) && !valid then old(adminSessions) - {id.value} else old(adminSessions)
      ensures old(AdminOnly()) ==> AdminOnly() && (valid <==> old(HasLiveSession(ExtractSessionId(request), now)) && allow)
    {
      var id := ExtractSessionId(request);
      if id.None? || id.value !in adminSessions || adminSessions[id.value].IsExpired(now) {
        return false;
      }
      var session := adminSessions[id.value];
      if session.username != configuredAdminUsername {
        adminSessions := adminSessions - {id.value};
        return false;
      }
      if !allow {
        adminSessions := adminSessions - {id.value};
        return false;
      }
      return true;
    }

    /**
     * `hasValidAdminSession(_:)`: any live session gives access; failing
     * that, the request's own live session of the configured admin.
     */
    function HasValidAdminSession(request: string, now: Date): (r: bool)
      reads this
    {
      var id := ExtractSessionId(request);
      (exists k :: k in adminSessions && !adminSessions[k].IsExpired(now))
      || (HasLiveSession(id, now) && adminSessions[id.value].username == configuredAdminUsername)
    }

    /** Access is granted exactly when some session is live, whatever session the request names. */
    lemma HasValidMeansAnyLive(request: string, now: Date)
      ensures HasValidAdminSession(request, now) <==> exists k :: k in adminSessions && !adminSessions[k].IsExpired(now)
    {
      var id := ExtractSessionId(request);
      if HasLiveSession(id, now) {
        assert id.value in adminSessions && !adminSessions[id.value].IsExpired(now);
      }
    }

    /**
     * `createAdminSession(username:clientIP:)`: only the configured admin,
     * once the delegate has authenticated them (`authenticated`), gets a new
     * session under the fresh id, stamped `now`, with the client address or
     * "unknown"; otherwise ("", false) and nothing is stored.
     */
    method CreateAdminSession(username: string, clientIP: Option<string>, authenticated: bool, freshId: string, now: Date)
      returns (sessionId: string, success: bool)
      requires Valid()
      modifies this
      ensures Valid()
      ensures success <==> username == configuredAdminUsername && authenticated
      ensures success ==> sessionId == freshId
                          && adminSessions == old(adminSessions)[freshId := AdminSession(freshId, username, now, clientIP.GetOr("unknown"))]
                          && HasLiveSession(Some(sessionId), now)
      ensures !success ==> sessionId == "" && adminSessions == old(adminSessions)
      ensures old(AdminOnly()) ==> AdminOnly()
    {
      if username != configuredAdminUsername {
        return "", false;
      }
      if !authenticated {
        return "", false;
      }
      var session := AdminSession(freshId, username, now, clientIP.GetOr("unknown"));
      adminSessions := adminSessions[freshId := session];
      return freshId, true;
    }

    /** `cleanupExpiredSessions()`: exactly the expired sessions are removed. */
    method CleanupExpiredSessions(now: Date)
      requires Valid()
      modifies this
      ensures Valid()
      ensures adminSessions == LiveSessions(old(adminSessions), now)
      ensures old(AdminOnly()) ==> AdminOnly()
    {
      var expired := set k | k in adminSessions && adminSessions[k].IsExpired(now);
      while expired != {}
        invariant Valid()
        invariant forall k :: k in expired ==> k in old(adminSessions) && old(adminSessions)[k].IsExpired(now)
        invariant forall k :: k in adminSessions <==>
                    k in old(adminSessions) && (k in expired || !old(adminSessions)[k].IsExpired(now))
        invariant forall k :: k in adminSessions ==> adminSessions[k] == old(adminSessions)[k]
        decreases expired
      {
        var k :| k in expired;
        adminSessions := adminSessions - {k};
        expired := expired - {k};
      }
      assert adminSessions == LiveSessions(old(adminSessions), now);
    }
  }

  /** A session is live for exactly one hour after its login, and live at the moment it is created. */
  lemma SessionLifetime(session: AdminSession, now: Date)
    ensures session.IsExpired(now) <==> now > session.loginTime + SessionTimeout
    ensures !session.IsExpired(session.loginTime)
  {
  }
}
