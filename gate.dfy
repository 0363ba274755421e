/** The `auth` wrapper of auth.go: the HTTP Basic gate in front of every
    handler. The response is a value rather than writes to a
    `ResponseWriter`, and the wrapped handler is a function from the request
    to the response it would write. */
module Gate {
  import opened Htpasswd
  import HtpasswdProperties

  /** `http.StatusUnauthorized`. */
  const StatusUnauthorized := 401
  /** The body of every refusal. */
  const UnauthorizedBody := "Unauthorized.\n"
  /** The name of the challenge header, as auth.go spells it. */
  const ChallengeHeader := "WWW-Authenticate"
  /** The realm main.go configures for the server. */
  const Realm := "c't SESAM"

  datatype BasicCredentials = BasicCredentials(username: string, password: string)

  /** An incoming request as the gate sees it: the user name and password of
      its `Authorization: Basic` header when that header is present and well
      formed. The rest of the request only reaches the handler. */
  datatype Request = Request(basicAuth: Option<BasicCredentials>, rest: string)

  datatype Response = Response(status: int, header: map<string, string>, body: string)

  /** What serving one request through the gate produced. */
  datatype Served = Served(response: Response, handlerCalled: bool)

  /** `r.BasicAuth()` with its `ok` result dropped, as `auth` does: a request
      without usable Basic credentials yields two empty strings. */
  function BasicAuth(r: Request): BasicCredentials
  {
    match r.basicAuth
    case Some(c) => c
    case None => BasicCredentials("", "")
  }

  /** The challenge value: the Basic scheme with the realm between double
      quotes, as section 2 of RFC 7617 writes it. The realm is not escaped. */
  function Challenge(realm: string): string
  {
    "Basic realm=\"" + realm + "\""
  }

  /** `auth(handler, credentials, realm)` applied to a request: the handler
      runs exactly when authentication succeeds; otherwise the response is
      the 401 challenge, and it is the same response whichever part of the
      credentials was wrong. */
  function Auth(handler: Request -> Response, credentials: HTPasswd, realm: string,
                matches: (Hash, string) -> bool, r: Request): (s: Served)
    ensures s.handlerCalled <==>
              && BasicAuth(r).username in credentials.entries
              && matches(credentials.entries[BasicAuth(r).username], BasicAuth(r).password)
    ensures s.handlerCalled ==> s.response == handler(r)
    ensures !s.handlerCalled ==>
              && s.response.status == StatusUnauthorized
              && s.response.header == map[ChallengeHeader := Challenge(realm)]
              && s.response.body == UnauthorizedBody
  {
    var c := BasicAuth(r);
    var attempt := credentials.AuthenticateUser(matches, c.username, c.password);
    if attempt.err != None then
      Served(Response(StatusUnauthorized, map[ChallengeHeader := Challenge(realm)], UnauthorizedBody), false)
    else
      Served(handler(r), true)
  }

  // ---------------------------------------------------------------------
  // Reading the challenge back (section 2 of RFC 7617, section 2.2 of
  // RFC 7235 for auth-param, section 3.2.6 of RFC 7230 for quoted-string)

  /** A character a quoted-string may hold without escaping (qdtext); every
      code point from U+0080 on is encoded as obs-text bytes. */
  predicate QdText(c: char)
  {
    c == '\t' || c == ' ' || c == '!' || ('#' <= c <= '[') || (']' <= c <= '~') || '\U{0080}' <= c
  }

  /** A character a quoted-pair may escape: HTAB, SP, VCHAR or obs-text. */
  predicate QuotedPairChar(c: char)
  {
    c == '\t' || (' ' <= c <= '~') || '\U{0080}' <= c
  }

  /** A realm that can stand between the quotes unescaped. */
  predicate PlainRealm(realm: string)
  {
    forall k :: 0 <= k < |realm| ==> QdText(realm[k])
  }

  /** Reads the body of a quoted-string up to its closing quote, decoding
      each quoted-pair `\c` to `c`: the decoded text and what follows the
      closing quote, or None when the text is not a quoted-string body. */
  function Unquote(s: string): Option<(string, string)>
  {
    if s == [] then None
    else if s[0] == '"' then Some(([], s[1..]))
    else if s[0] == '\\' then
      if |s| < 2 || !QuotedPairChar(s[1]) then None
      else match Unquote(s[2..])
        case None => None
        case Some((v, rest)) => Some(([s[1]] + v, rest))
    else if QdText(s[0]) then
      match Unquote(s[1..])
      case None => None
      case Some((v, rest)) => Some(([s[0]] + v, rest))
    else None
  }

  /** The realm a client reads from a `Basic realm="..."` challenge: the
      decoded quoted-string, which must end the header value; None for any
      other header value. */
  function ParseChallenge(h: string): Option<string>
  {
    var prefix := "Basic realm=\"";
    if |h| < |prefix| || h[..|prefix|] != prefix then None
    else match Unquote(h[|prefix|..])
      case Some((v, rest)) => if rest == [] then Some(v) else None
      case None => None
  }

  /** Decoding drops the closing quote and every escaping backslash, so the
      decoded text and the rest are together shorter than the input. */
  lemma {:induction false} UnquoteShrinks(s: string)
    requires Unquote(s).Some?
    ensures |Unquote(s).value.0| + |Unquote(s).value.1| < |s|
  {
    if s[0] == '\\' {
      UnquoteShrinks(s[2..]);
    } else if s[0] != '"' {
      UnquoteShrinks(s[1..]);
    }
  }

  /** A plain realm followed by the closing quote decodes to itself. */
  lemma {:induction false} UnquotePlain(realm: string, rest: string)
    requires PlainRealm(realm)
    ensures Unquote(realm + "\"" + rest) == Some((realm, rest))
  {
    var s := realm + "\"" + rest;
    if realm != [] {
      UnquotePlain(realm[1..], rest);
      assert s[1..] == realm[1..] + "\"" + rest;
      assert [realm[0]] + realm[1..] == realm;
    }
  }

  /** Only a plain realm followed by the closing quote decodes to itself
      with nothing after the quote. */
  lemma {:induction false} UnquoteOnlyPlain(realm: string)
    requires Unquote(realm + "\"") == Some((realm, []))
    ensures PlainRealm(realm)
  {
    var s := realm + "\"";
    if realm != [] {
      if s[0] == '\\' {
        UnquoteShrinks(s[2..]);
      } else {
        assert s[1..] == realm[1..] + "\"";
        UnquoteOnlyPlain(realm[1..]);
      }
    }
  }

  /** A client reads back exactly the configured realm from the challenge
      when, and only when, the realm needs no escaping: a realm holding a
      double quote or a backslash is read back as a different string or not
      at all. */
  lemma ChallengeRoundTrip(realm: string)
    ensures ParseChallenge(Challenge(realm)) == Some(realm) <==> PlainRealm(realm)
  {
    var h := Challenge(realm);
    var prefix := "Basic realm=\"";
    assert h[..|prefix|] == prefix;
    assert h[|prefix|..] == realm + "\"";
    if PlainRealm(realm) {
      UnquotePlain(realm, []);
      assert realm + "\"" + [] == realm + "\"";
    } else if ParseChallenge(h) == Some(realm) {
      UnquoteOnlyPlain(realm);
    }
  }

  /** A realm holding a backslash or a double quote does not read back as
      itself: between plain characters `a` and `b`, the backslash is taken
      as an escape (`a\b` reads back as `ab`) and the quote ends the realm
      early, leaving text after it (no realm at all). */
  lemma UnescapedRealmAltered(a: char, b: char)
    requires QdText(a) && QdText(b)
    ensures ParseChallenge(Challenge([a, '\\', b])) == Some([a, b])
    ensures ParseChallenge(Challenge([a, '"', b])) == None
  {
    var prefix := "Basic realm=\"";
    var h1, h2 := Challenge([a, '\\', b]), Challenge([a, '"', b]);
    var t1, t2 := [a, '\\', b, '"'], [a, '"', b, '"'];
    assert h1[..|prefix|] == prefix && h1[|prefix|..] == t1;
    var q: string := ['"'];
    assert q[0] == '"' && q[1..] == [];
    assert Unquote(q) == Some(([], []));
    assert t1[1..][2..] == q;
    assert t1[1..][0] == '\\' && t1[1..][1] == b && QuotedPairChar(b);
    assert [b] + [] == [b];
    assert Unquote(t1[1..]) == Some(([b], []));
    assert [a] + [b] == [a, b];
    assert h2[..|prefix|] == prefix && h2[|prefix|..] == t2;
    assert t2[1..][1..] == [b, '"'] && t2[1..][0] == '"';
    assert Unquote(t2[1..]) == Some(([], [b, '"']));
    assert [a] + [] == [a];
    assert Unquote(t2) == Some(([a], [b, '"']));
  }

  /** The realm the server is configured with needs no escaping. */
  lemma ConfiguredRealmIsPlain()
    ensures PlainRealm(Realm)
    ensures ParseChallenge(Challenge(Realm)) == Some(Realm)
  {
    ChallengeRoundTrip(Realm);
  }

  // ---------------------------------------------------------------------
  // What a refused client can observe

  /** On a refusal the response does not depend on the wrapped handler:
      the handler is not run and nothing of what it would write leaks. */
  lemma RefusalIgnoresHandler(h1: Request -> Response, h2: Request -> Response, credentials: HTPasswd,
                              realm: string, matches: (Hash, string) -> bool, r: Request)
    requires !Auth(h1, credentials, realm, matches, r).handlerCalled
    ensures Auth(h2, credentials, realm, matches, r) == Auth(h1, credentials, realm, matches, r)
  {
  }

  /** Every refused request gets the same response: an unknown user name
      and a wrong password for a known one cannot be told apart by the
      response. */
  lemma RefusalsIndistinguishable(handler: Request -> Response, credentials: HTPasswd, realm: string,
                                  matches: (Hash, string) -> bool, r1: Request, r2: Request)
    requires !Auth(handler, credentials, realm, matches, r1).handlerCalled
    requires !Auth(handler, credentials, realm, matches, r2).handlerCalled
    ensures Auth(handler, credentials, realm, matches, r1) == Auth(handler, credentials, realm, matches, r2)
  {
  }

  /** Every attempt costs one bcrypt comparison of the offered password,
      whether the user name is known or not, and every failed attempt
      returns the same error. */
  lemma EqualWork(credentials: HTPasswd, matches: (Hash, string) -> bool, u1: string, p1: string, u2: string, p2: string)
    ensures |credentials.AuthenticateUser(matches, u1, p1).comparisons| == |credentials.AuthenticateUser(matches, u2, p2).comparisons| == 1
    ensures credentials.AuthenticateUser(matches, u1, p1).err != None && credentials.AuthenticateUser(matches, u2, p2).err != None ==>
              credentials.AuthenticateUser(matches, u1, p1).err == credentials.AuthenticateUser(matches, u2, p2).err
  {
  }

  /** A request without usable Basic credentials is let through exactly when
      the table has an entry for the empty user name whose hash accepts the
      empty password. */
  lemma MissingCredentials(handler: Request -> Response, credentials: HTPasswd, realm: string,
                           matches: (Hash, string) -> bool, r: Request)
    requires r.basicAuth == None
    ensures Auth(handler, credentials, realm, matches, r).handlerCalled <==>
              "" in credentials.entries && matches(credentials.entries[""], "")
  {
  }

  // ---------------------------------------------------------------------
  // From the credentials file to the gate

  /** For a server started from a credentials file that parses: a request
      naming a user is let through exactly when its password matches the
      hash on the last line that names that user. */
  lemma GateOverFile(lines: seq<string>, k: nat, handler: Request -> Response, realm: string,
                     matches: (Hash, string) -> bool, password: string, rest: string)
    requires Parse(lines).Ok?
    requires k < |lines| && Accepted(lines[k])
    requires forall j :: k < j < |lines| && Accepted(lines[j]) ==> Entry(lines[j]).0 != Entry(lines[k]).0
    ensures var r := Request(Some(BasicCredentials(Entry(lines[k]).0, password)), rest);
            Auth(handler, HTPasswd(Parse(lines).value), realm, matches, r).handlerCalled <==>
              matches(Entry(lines[k]).1, password)
  {
    HtpasswdProperties.LastEntryWins(lines, k);
  }

  /** For a server started from a credentials file that parses: a request
      naming a user that no accepted line names is refused. */
  lemma GateRefusesUnlisted(lines: seq<string>, handler: Request -> Response, realm: string,
                            matches: (Hash, string) -> bool, username: string, password: string, rest: string)
    requires Parse(lines).Ok?
    requires forall j :: 0 <= j < |lines| && Accepted(lines[j]) ==> Entry(lines[j]).0 != username
    ensures !Auth(handler, HTPasswd(Parse(lines).value), realm, matches,
                  Request(Some(BasicCredentials(username, password)), rest)).handlerCalled
  {
    HtpasswdProperties.ParsedUsers(lines);
  }
}
