/** The htpasswd credential table of auth.go: the line parser that builds the
    table from a credentials file, and the lookup that checks a password
    against it.

    The file is given as its lines, already split (what `bufio.Scanner`
    yields); the bcrypt comparison is a parameter `matches(hash, password)`. */
module Htpasswd {
  import opened GoStrings

  /** The stored bcrypt hash of a user, as the text after the first colon. */
  type Hash = string

  /** `parseHTPasswd`'s error: the value of its line counter and the raw,
      untrimmed text of the offending line. */
  datatype ParseError = InvalidEntry(line: int, text: string)

  datatype Result<T> = Ok(value: T) | Err(error: ParseError)

  // ---------------------------------------------------------------------
  // Classification of one line

  /** What the parser makes of one scanned line. */
  datatype Line = Blank | Comment | Invalid | Credentials(user: string, hash: Hash)

  /** The decision the loop body of `parseHTPasswd` takes for one line: trim
      it; skip it when empty or when it begins with '#'; reject it when it
      holds no colon; otherwise split it at the first colon. */
  function Classify(raw: string): Line
  {
    var t := TrimSpace(raw);
    if |t| < 1 then Blank
    else if t[0] == '#' then Comment
    else
      var i := Index(t, ':');
      if i < 0 || i >= |t| then Invalid else Credentials(t[..i], t[i + 1..])
  }

  /** A line the parser passes over: blank or a comment. */
  predicate Skipped(raw: string)
  {
    Classify(raw).Blank? || Classify(raw).Comment?
  }

  /** A line that makes the parse fail. */
  predicate Malformed(raw: string)
  {
    Classify(raw).Invalid?
  }

  /** A line that adds an entry to the table. */
  predicate Accepted(raw: string)
  {
    Classify(raw).Credentials?
  }

  /** The user name and hash an accepted line stores. */
  function Entry(raw: string): (string, Hash)
    requires Accepted(raw)
  {
    (Classify(raw).user, Classify(raw).hash)
  }

  // ---------------------------------------------------------------------
  // What parseHTPasswd computes

  /** The classification of every line of a file, in order. */
  function Kinds(lines: seq<string>): (ks: seq<Line>)
    ensures |ks| == |lines|
  {
    seq(|lines|, i requires 0 <= i < |lines| => Classify(lines[i]))
  }

  /** Each line of a file is classified on its own. */
  lemma KindAt(lines: seq<string>, i: nat)
    requires i < |lines|
    ensures Kinds(lines)[i] == Classify(lines[i])
  {
  }

  /** The table the credential lines among `ks` build, in order: each stores
      its entry, replacing an earlier entry for the same user. */
  function Table(ks: seq<Line>): map<string, Hash>
  {
    if ks == [] then map[]
    else
      var m := Table(ks[..|ks| - 1]);
      match ks[|ks| - 1]
      case Credentials(user, hash) => m[user := hash]
      case _ => m
  }

  /** The number of credential lines among `ks`. */
  function EntryCount(ks: seq<Line>): nat
  {
    if ks == [] then 0
    else EntryCount(ks[..|ks| - 1]) + if ks[|ks| - 1].Credentials? then 1 else 0
  }

  /** The position of the first invalid line among `ks`, or |ks| when there
      is none. */
  function FirstInvalid(ks: seq<Line>): (k: nat)
    ensures k <= |ks|
    ensures forall j :: 0 <= j < k ==> !ks[j].Invalid?
    ensures k < |ks| ==> ks[k].Invalid?
  {
    FirstInvalidFrom(ks, 0)
  }

  /** The position of the first invalid line at or after `i`. */
  function FirstInvalidFrom(ks: seq<Line>, i: nat): (k: nat)
    requires i <= |ks|
    ensures i <= k <= |ks|
    ensures forall j :: i <= j < k ==> !ks[j].Invalid?
    ensures k < |ks| ==> ks[k].Invalid?
    decreases |ks| - i
  {
    if i == |ks| then i
    else if ks[i].Invalid? then i
    else FirstInvalidFrom(ks, i + 1)
  }

  /** The result of `parseHTPasswd`: the error for the first malformed line,
      numbered one more than the entries accepted before it, or else the
      table of all entries. */
  function Parse(lines: seq<string>): Result<map<string, Hash>>
  {
    ParseClassified(lines, Kinds(lines))
  }

  /** `Parse` for lines whose classification `ks` is already known. */
  function ParseClassified(lines: seq<string>, ks: seq<Line>): Result<map<string, Hash>>
    requires |ks| == |lines|
  {
    var k := FirstInvalid(ks);
    if k < |lines| then Err(InvalidEntry(1 + EntryCount(ks[..k]), lines[k]))
    else Ok(Table(ks))
  }

  // ---------------------------------------------------------------------
  // parseHTPasswd

  /** The body of the scanning loop of `parseHTPasswd` for one line: trim
      it, recognise a blank line or a line beginning with '#', and otherwise
      split it at the first colon, if it has one. A line is blank exactly
      when it is all white space, a comment exactly when its trimmed text
      begins with '#', and invalid exactly when its trimmed text is neither
      and holds no colon; an entry's user name and hash, joined by a colon,
      give back the trimmed text, and the user name holds no colon. */
  method ScanLine(raw: string) returns (kind: Line)
    ensures kind == Classify(raw)
    ensures kind.Blank? <==> forall k :: 0 <= k < |raw| ==> IsSpace(raw[k])
    ensures kind.Comment? <==> TrimSpace(raw) != [] && TrimSpace(raw)[0] == '#'
    ensures kind.Invalid? <==> TrimSpace(raw) != [] && TrimSpace(raw)[0] != '#' && ':' !in TrimSpace(raw)
    ensures kind.Credentials? ==> kind.user + [':'] + kind.hash == TrimSpace(raw) && ':' !in kind.user
  {
    var t := TrimSpace(raw);
    TrimSpaceEmpty(raw);
    if |t| < 1 {
      return Blank;
    }
    if t[0] == '#' {
      return Comment;
    }
    var i := Index(t, ':');
    IndexSpec(t, ':');
    if i < 0 || i >= |t| {
      return Invalid;
    }
    var user := t[..i];
    var pass := t[i + 1..];
    assert user + [':'] + pass == t;
    return Credentials(user, pass);
  }

  /** The scanning loop of `parseHTPasswd`: skips blank and comment lines,
      rejects a line without a colon naming the line counter, and otherwise
      stores the entry and advances the counter. */
  method ParseHTPasswd(lines: seq<string>) returns (r: Result<map<string, Hash>>)
    ensures r == Parse(lines)
  {
    ghost var ks := Kinds(lines);
    var entries: map<string, Hash> := map[];
    var line := 1;
    var n := 0;
    while n < |lines|
      invariant 0 <= n <= |lines|
      invariant forall j :: 0 <= j < n ==> !ks[j].Invalid?
      invariant entries == Table(ks[..n])
      invariant line == 1 + EntryCount(ks[..n])
    {
      var raw := lines[n];
      var kind := ScanLine(raw);
      KindAt(lines, n);
      if kind.Invalid? {
        FirstInvalidIs(ks, n);
        ParseFailsAt(lines, n);
        return Err(InvalidEntry(line, raw));
      }
      PrefixStep(ks, n);
      if kind.Credentials? {
        entries := entries[kind.user := kind.hash];
        line := line + 1;
      }
      n := n + 1;
    }
    assert ks[..n] == ks;
    FirstInvalidIs(ks, n);
    ParseSucceeds(lines);
    r := Ok(entries);
  }

  /** `Parse` when the first invalid line is at `k`. */
  lemma ParseFailsAt(lines: seq<string>, k: nat)
    requires k < |lines| && FirstInvalid(Kinds(lines)) == k
    ensures Parse(lines) == Err(InvalidEntry(1 + EntryCount(Kinds(lines)[..k]), lines[k]))
  {
  }

  /** `Parse` when no line is invalid. */
  lemma ParseSucceeds(lines: seq<string>)
    requires FirstInvalid(Kinds(lines)) == |lines|
    ensures Parse(lines) == Ok(Table(Kinds(lines)))
  {
  }

  /** `FirstInvalid` is determined by its contract. */
  lemma FirstInvalidIs(ks: seq<Line>, k: nat)
    requires k <= |ks|
    requires forall j :: 0 <= j < k ==> !ks[j].Invalid?
    requires k < |ks| ==> ks[k].Invalid?
    ensures FirstInvalid(ks) == k
  {
  }

  /** How the table and the count of entries grow by one line. */
  lemma PrefixStep(ks: seq<Line>, n: nat)
    requires n < |ks|
    ensures Table(ks[..n + 1]) ==
              if ks[n].Credentials? then Table(ks[..n])[ks[n].user := ks[n].hash] else Table(ks[..n])
    ensures EntryCount(ks[..n + 1]) == EntryCount(ks[..n]) + if ks[n].Credentials? then 1 else 0
  {
    assert ks[..n + 1][..n] == ks[..n];
  }

  // ---------------------------------------------------------------------
  // The credential table and authenticateUser

  /** The message of both failures of `authenticateUser`. */
  const AuthenticationFailure := "authentication failure"

  /** One call of `bcrypt.CompareHashAndPassword(hash, password)`. */
  datatype Comparison = Comparison(hash: Hash, password: string)

  /** One run of `authenticateUser`: the error it returns (None for nil) and
      the bcrypt comparisons it performed, in order. */
  datatype Attempt = Attempt(err: Option<string>, comparisons: seq<Comparison>)

  datatype Option<T> = None | Some(value: T)

  datatype HTPasswd = HTPasswd(entries: map<string, Hash>)
  {
    /** `authenticateUser`: succeeds exactly when the user is in the table and
        the password matches that user's hash; both failures carry the same
        message, and every attempt performs exactly one comparison of the
        given password, against the empty hash for an unknown user. */
    function AuthenticateUser(matches: (Hash, string) -> bool, username: string, password: string): (a: Attempt)
      ensures a.err == None <==> username in entries && matches(entries[username], password)
      ensures a.err != None ==> a.err == Some(AuthenticationFailure)
      ensures |a.comparisons| == 1 && a.comparisons[0].password == password
      ensures a.comparisons[0].hash == if username in entries then entries[username] else []
    {
      if username !in entries then
        // an unknown user still costs one comparison, against the empty hash
        Attempt(Some(AuthenticationFailure), [Comparison([], password)])
      else
        var credentials := entries[username];
        if !matches(credentials, password) then
          Attempt(Some(AuthenticationFailure), [Comparison(credentials, password)])
        else
          Attempt(None, [Comparison(credentials, password)])
    }
  }

  /** `newHTPasswd`: the table of a credentials file, or the parse error. */
  method NewHTPasswd(lines: seq<string>) returns (r: Result<HTPasswd>)
    ensures r.Err? <==> Parse(lines).Err?
    ensures r.Err? ==> r.error == Parse(lines).error
    ensures r.Ok? ==> r.value.entries == Parse(lines).value
  {
    var parsed := ParseHTPasswd(lines);
    if parsed.Err? {
      return Err(parsed.error);
    }
    return Ok(HTPasswd(parsed.value));
  }
}
