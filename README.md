# htpasswd gate of the c't SESAM storage server

This project models the authentication core of the c't SESAM storage server
(`auth.go`). The core has three parts:

- `parseHTPasswd` reads an htpasswd credentials file line by line into a
  table from user name to bcrypt hash. Each line is trimmed. Blank lines and
  `#` comments are skipped. Every other line must hold a colon and is split at
  the first one. A line without a colon fails the whole parse with an error
  that carries a line counter. That counter counts accepted entries, not
  physical lines.
- `authenticateUser` looks a user up in that table and checks the password
  with bcrypt. An unknown user and a wrong password give the same error.
  Both paths perform one bcrypt comparison.
- `auth` wraps a handler. A request that fails authentication gets `401`, a
  `WWW-Authenticate: Basic realm="…"` challenge (section 2 of RFC 7617) and the
  body `Unauthorized.\n`, and the handler does not run. Any other request goes
  to the handler.

Layout:

- `strings.dfy`, module `GoStrings`: Go's `strings.TrimSpace` over the
  `unicode.IsSpace` characters, and `strings.Index`, each with a lemma that
  characterises it.
- `htpasswd.dfy`, module `Htpasswd`: the classification of one line
  (`Classify`), the specification of a whole parse (`Parse`) over the
  classified lines (`Kinds`), and the scanning loop `ParseHTPasswd`, proved
  to compute `Parse`. The loop body's per-line decision is the method
  `ScanLine`. The module also holds the table `HTPasswd` with
  `AuthenticateUser` and `NewHTPasswd`.
- `htpasswd_properties.dfy`, module `HtpasswdProperties`: what a parse
  promises, stated over the lines of the file.
- `gate.dfy`, module `Gate`: `auth` applied to one request, with the response
  as a value. It also holds a reader for the challenge and lemmas on what a
  refused client can observe.

The bcrypt comparison `bcrypt.CompareHashAndPassword(hash, password) == nil`
is the parameter `matches(hash, password)`. The wrapped handler is a function
from request to response. The credentials file is given as its lines.

## Model

| member | source | states |
|---|---|---|
| `GoStrings.TrimSpaceSpec` | auth.go:63 | the trimmed line is the slice of the raw line that leaves out only white space on each side, and it neither starts nor ends with white space |
| `GoStrings.IndexSpec` | auth.go:71 | the colon position is -1 exactly when the text has no colon; otherwise it is a colon with no colon before it |
| `Htpasswd.ScanLine` | auth.go:63-76 | one line is blank exactly when it is all white space; a comment exactly when its trimmed text starts with `#`; invalid exactly when its trimmed text is neither empty nor a comment and holds no colon; an entry otherwise, whose user name, a colon and its hash make up the trimmed text, with no colon in the user name; this is the line's classification `Classify` |
| `Htpasswd.ParseHTPasswd` | auth.go:58-84 | the loop returns exactly `Parse(lines)`: the error for the first malformed line, or the table of all entries |
| `Htpasswd.NewHTPasswd` | auth.go:36-42 | a table is built exactly when the parse succeeds, and holds the parsed entries; otherwise the parse error is returned |
| `Htpasswd.HTPasswd.AuthenticateUser` | auth.go:44-55 | succeeds exactly when the user is in the table and the password matches that user's hash; every failure is "authentication failure"; every call makes exactly one comparison of the given password, against the empty hash for an unknown user |
| `HtpasswdProperties.SkippedLineShape` | auth.go:63-70 | a line is skipped exactly when it is all white space or its first non-space character is `#` |
| `HtpasswdProperties.LineSplit` | auth.go:71-77 | a line that is not skipped fails exactly when its trimmed text has no colon; otherwise the user name is the text before the first colon and holds no colon, and the hash is all the rest, possibly empty or with colons |
| `HtpasswdProperties.EntryLineClassifies` | auth.go:63-77 | conversely, a line `user:hash` with no surrounding white space, not starting with `#` and with no colon in `user`, stores exactly `(user, hash)`; the user name may be empty |
| `HtpasswdProperties.TableInsertSkipped` | auth.go:64-70 | a blank or comment line, wherever it stands, changes neither the table nor the count of entries |
| `HtpasswdProperties.SkippedLineIsInert` | auth.go:62-70 | inserting a blank or comment line anywhere changes neither the table nor the error, including its line number |
| `HtpasswdProperties.ParseFailsIff` | auth.go:71-74 | the parse fails exactly when some line is malformed |
| `HtpasswdProperties.EntryCountCounts` | auth.go:61-78 | the counter's increments are the number of positions that hold an entry |
| `HtpasswdProperties.ParseErrorNamesLine` | auth.go:61-78 | the error names the first malformed line and its raw text, numbered one more than the accepted lines before it |
| `HtpasswdProperties.ErrorIsFinal` | auth.go:72-74 | once a prefix of the file fails, lines appended after it change nothing |
| `HtpasswdProperties.TableKeys` | auth.go:75-77 | the users of the table are exactly the user names of its entries |
| `HtpasswdProperties.TableLastWins` | auth.go:77 | the table maps a user to the hash of the last entry that names it |
| `HtpasswdProperties.ParsedUsers` | auth.go:75-77 | the users of a parsed table are exactly the user names of the accepted lines |
| `HtpasswdProperties.LastEntryWins` | auth.go:77 | a user named on several lines gets the hash of the last of them |
| `Gate.Auth` | auth.go:86-97 | the handler runs exactly when the user is in the table and the password matches; it then produces the response; otherwise the response is 401 with the Basic challenge for the realm and the body `Unauthorized.\n` |
| `Gate.ChallengeRoundTrip` | auth.go:91 | a client that decodes the quoted string, escapes included, reads back exactly the realm from the challenge if and only if the realm needs no escaping inside a quoted string |
| `Gate.UnquotePlain` | auth.go:91 | a realm of plain quoted-string characters followed by the closing quote decodes to itself, leaving the rest after the quote |
| `Gate.UnquoteOnlyPlain` | auth.go:91 | a realm that decodes to itself, with nothing after the closing quote, holds only plain quoted-string characters |
| `Gate.UnescapedRealmAltered` | auth.go:91 | written unescaped, a backslash in the realm is read as an escape (`a\b` reads back as `ab`) and a double quote ends the realm early, so no realm is read |
| `Gate.ConfiguredRealmIsPlain` | main.go:31 | the configured realm `c't SESAM` needs no escaping, so the challenge carries it intact |
| `Gate.RefusalIgnoresHandler` | auth.go:90-96 | on a refusal the response is the same whatever the handler is: the handler is not run and nothing it writes leaks |
| `Gate.RefusalsIndistinguishable` | auth.go:89-95 | every refused request gets the same response, so an unknown user and a wrong password cannot be told apart by the response |
| `Gate.EqualWork` | auth.go:44-55 | every attempt makes exactly one bcrypt comparison, known user or not, and all failures return the same error |
| `Gate.MissingCredentials` | auth.go:88-89 | a request without usable Basic credentials is let through exactly when the table has an entry for the empty user name whose hash accepts the empty password |
| `Gate.GateOverFile` | auth.go:36-97 | with a table parsed from a file, a user's request is let through exactly when its password matches the hash on the last line that names that user |
| `Gate.GateRefusesUnlisted` | auth.go:36-97 | with a table parsed from a file, a request for a user that no accepted line names is refused |

## Left out

- Reading the file through `bufio.Scanner` is not modelled. This covers the
  scanner's error path (auth.go:80-82), its 64 KiB line limit and the `\r`
  it strips from line ends. The model takes the file as already-split lines.
- Text is a sequence of Unicode code points. Go works on UTF-8 bytes, and
  invalid UTF-8 is not modelled. Go's `strings.Index` returns a byte offset
  and the model's `Index` a code-point offset, so the two numbers differ once
  a multi-byte character precedes the colon. They are used only to cut the
  line, and because `#` and `:` are ASCII the text before and after the first
  colon, and whether the trimmed line starts with `#`, are the same in both.
- The parse error is the pair (line counter, raw line). The text that
  `fmt.Errorf` renders from it (`%d`, `%q` quoting) is not modelled.
- The line counter is an unbounded integer. Go's `int` is 32 or 64 bits
  wide, so the counter could wrap only after 2^31-1 or 2^63-1 accepted
  entries; an invalid line after that would be reported with a negative
  number on a 32-bit target.
- The inside of bcrypt is not modelled. It is the parameter `matches`.
- Gate.EqualWork: counts bcrypt comparisons, not how long they take. bcrypt
  rejects a hash too short to parse, such as the empty one, before doing
  any key derivation. An equal count therefore does not by itself mean equal
  time.
- `r.BasicAuth()` is not modelled: decoding the `Authorization` header
  (base64, `user:password` split). The request carries its result, or
  nothing when the header is missing or malformed.
- Headers that `net/http` adds or rewrites are not modelled. It stores the
  challenge header under its canonical name `Www-Authenticate`, and it adds
  `Content-Type` and `Content-Length`. The model keeps the name as auth.go
  writes it. HTTP header names are case-insensitive.
- The process start-up in main.go is not part of this model. That covers
  opening the file, `log.Fatal`, route registration and `ListenAndServe`
  (main.go:55-75). main.go:70-73 calls `auth` with two arguments, but
  auth.go:86 declares three. The model follows auth.go and takes the realm
  as a parameter. `Gate.ConfiguredRealmIsPlain` uses the `Realm` constant of
  main.go:31.
- The handlers of main.go are not modelled. `indexHandler` renders a
  template. `readHandler`, `writeHandler` and `deleteHandler` have empty
  bodies.
- The blob store, the retention sweeper and the response envelope are not
  modelled: none of auth.go, main.go, init/install.go and test/verify-cert.go
  holds code for them. The storage handlers are empty (main.go:46-53), and
  init/install.go:31-35 only creates a table.
- init/install.go is not part of this model. It only creates an SQLite schema
  through an external driver.
- test/verify-cert.go is not part of this model. It does PEM and x509
  parsing, a clock comparison and printing, all through library calls.
