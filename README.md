# branchweb in Dafny

A Dafny model of the in-memory core of branchweb, a small Python HTTP API
server library. The model covers four parts, each a module:

- **Server** (`webserver.dfy`, src/branchweb/webserver.py):
  - the `webstatus`/`webresponse` envelope;
  - the query-string parser `parse_form_data`;
  - `fetch_real_path`, which turns the raw request path into a "real path"
    and optional form data;
  - the class-level GET/POST endpoint lists and their registration;
  - the dispatch loops of `do_GET`/`do_POST` and the reply of `do_OPTIONS`.
- **Auth** (`webauth.dfy`, src/branchweb/webauth.py): the global
  session-key list of `web_auth` with issue, sweep, validate-and-refresh,
  revoke and the absent-user branch of `validate_pw`.
- **Users** and **Keys** (`user.dfy`, `key.dfy`, src/branchweb/user.py and
  src/branchweb/key.py): a user's password hash, the `authkeys` dict that all
  users share, and the key expiry test.
- **Directory** (`usermanager.dfy`, src/branchweb/usermanager.py):
  - lookup by name and by key;
  - duplicate-checked registration;
  - key revocation;
  - the `name=hash` user file, written by `write_file` and read by `read_file`.

Three helper modules model Python's own behaviour:

- `Text` (`text.dfy`): `str.split` with a one-character separator.
- `Dicts` (`dicts.dfy`): a dict that remembers insertion order.
- `Wrappers` (`wrappers.dfy`): an `Option` type.

Where the source mutates, the model mutates.

- The three class attributes that every instance shares become one object
  each, referenced by every instance:
  - `user.authkeys` becomes `Users.KeyTable`;
  - `usermanager.users` becomes `Directory.UserList`;
  - `web_server.get_endpoints`/`post_endpoints` become `Server.EndpointRegistry`.
- The state of `web_auth` becomes the object `Auth.WebAuth`.
- Keys are objects whose timestamps change in place.

Every loop of the modelled code is a `while`/`for` loop proved against a
specification function. Those functions' properties are proved as lemmas.

External capabilities become parameters:

- `time.time()` becomes `now` (one parameter per clock read).
- `bcrypt.hashpw(p, gensalt())` becomes a function `hash`.
- `bcrypt.checkpw` becomes a function `checkPw`.
- `uuid.uuid4()` becomes the id handed in.
- The configured `key_timeout` becomes `timeout`.
- Whether the handler of the endpoint at each position of the list raises
  on this request becomes `raises`. It is keyed by position, so one handler
  registered twice may succeed at one position and raise at the other.
- Whether a POST request has a `Content-Length` and whether its body parses
  become two booleans.
- The file system becomes `Directory.FileSystem`, a map from path to the text
  Python reads back.

Quirks of the code that the model keeps:

- `fetch_real_path` drops the first character of the path whatever it is.
- The real path of a query is the first-inserted key of its form. A query
  whose form has no key makes `fetch_real_path` return a bare `None`.
  Unpacking that `None` in `do_GET`/`do_POST` raises a `TypeError` before
  any reply. The model keeps this as the outcome `UnpackFailure`.
- Dispatch has no `break`. Every endpoint whose path matches is invoked, in
  registration order, until one raises.
- `clear_dead_keys` removes from the list it iterates over. After a dead key
  is removed, the key behind it is never examined, so a dead key directly
  behind a removed one survives the sweep (`Auth.SweepSkipsSuccessor`,
  `Auth.SurvivingDeadKeyFollowsRemoved`).
- `validate_key` hands the UUID object, not its string, to
  `invalidate_key`. That function compares against `str(k.key_id)`, so a
  key found dead at validation is not removed. `validate_key` still
  answers `False` for it (`Auth.ValidateNeverAcceptsDead`).
- `invalidate_key` returns `False` when nothing matches and `None` after a
  removal.
- `user.authkeys` is one dict for all users. So `get_key_user` answers the
  first user of a non-empty list for every key currently in that dict, even
  a key issued through another user. A revoked key, or an empty user list,
  gives `None` (`Directory.UserManager.GetKeyUser`).
- `read_file` never clears the user list. A line without `=` raises an
  `IndexError` after the users of the lines before it were appended.

## Model

| member | source | states |
|---|---|---|
| Text.Split | src/branchweb/webserver.py:107 | `str.split` on one character: at least one piece; two or more exactly when the separator occurs; none of the pieces holds the separator |
| Text.JoinSplit | src/branchweb/webserver.py:107 | joining the pieces of a split with the separator gives back the string, so splitting loses nothing |
| Text.SplitAtSep | src/branchweb/usermanager.py:164 | the first piece of a split is the text before the first separator, and the rest are the pieces of the text after it |
| Text.SplitJoin | src/branchweb/usermanager.py:154 | splitting the join of separator-free pieces gives back the pieces |
| Dicts.Dict.Put | src/branchweb/webserver.py:118 | dict assignment: the value is replaced, a known key keeps its position, and a new key goes last |
| Dicts.Empty | src/branchweb/webserver.py:109 | the empty dict has no keys |
| Server.StatusOfCode | src/branchweb/webserver.py:38-42 | enum lookup by value is the inverse of the value map SUCCESS=200, MISSING_DATA=300, SERV_FAILURE=400, AUTH_FAILURE=500 |
| Server.StatusOfName | src/branchweb/webserver.py:38-42 | enum lookup by name is the inverse of the member names |
| Server.Respond | src/branchweb/webserver.py:47-52 | a response carries its status by name and by value, both decoding back to that status, and the payload unchanged |
| Server.SegmentField | src/branchweb/webserver.py:111-118 | a segment contributes a field exactly when it holds `=`, and neither key nor value holds `=` |
| Server.FormOf | src/branchweb/webserver.py:109-120 | the dict built from the segments is well formed: distinct keys, each with a value |
| Server.ParseFormData | src/branchweb/webserver.py:105-120 | the loop over the `&`-segments, skipping those without `=`, returns `ParseForm` of the query |
| Server.SegmentFieldPieces | src/branchweb/webserver.py:112-118 | for `key=value` followed by nothing or by more `=`-text, the key is the text before the first `=` and the value the text up to the second; the rest is dropped |
| Server.SegmentWithoutEqualsIgnored | src/branchweb/webserver.py:113-114 | a segment without `=` leaves the dict unchanged |
| Server.LaterSegmentOverwrites | src/branchweb/webserver.py:118 | a later segment with a known key overwrites the value and keeps the key's first position; a new key is appended |
| Server.FormKeys | src/branchweb/webserver.py:111-118 | a key is in the form exactly when some segment holding `=` has it as its key |
| Server.FormWithoutFields | src/branchweb/webserver.py:111-114 | with no segment holding `=`, the form has no keys |
| Server.FormFirstKey | src/branchweb/webserver.py:135-139 | the first key of the form is the key of the first segment holding `=` |
| Server.ParseForm | src/branchweb/webserver.py:105-120 | the parsed query is a well-formed dict whose keys hold neither `=` nor `&` |
| Server.Stripped | src/branchweb/webserver.py:127 | exactly the first character is removed, whatever it is; the empty path stays empty |
| Server.ResolvePathCases | src/branchweb/webserver.py:125-145 | a non-query path resolves to itself stripped, with no form; a query resolves to the key of its first segment holding `=`, with the parsed form; a query with no `=` anywhere gives the bare `None` |
| Server.ResolvePath | src/branchweb/webserver.py:125-145 | the bare `None` only for a query. A result without form is the stripped path of a non-query. A result with form is a query, its form is the parsed query, and the real path is the form's first key |
| Server.FirstWithEquals | src/branchweb/webserver.py:135-139 | the position of the first segment holding `=` |
| Server.ResolvePlainExamples | src/branchweb/webserver.py:127-145 | `/health` resolves to `health`; `/status?foo=bar` to `status?foo=bar`; `/?` to `?`; the empty path to itself; none of them has a form |
| Server.FormOfOneField | src/branchweb/webserver.py:109-120 | a single `key=value` segment gives the dict with just that entry |
| Server.ResolveOneField | src/branchweb/webserver.py:127-139 | `c?key=value` resolves to `key` with the one-entry form, for any first character `c` |
| Server.ResolveQueryExample | src/branchweb/webserver.py:127-139 | `/?foo=bar` resolves to `foo` with the form `{"foo": "bar"}` |
| Server.ResolveAnyFirstCharExample | src/branchweb/webserver.py:127-139 | `x?a=1&b` resolves to `a`: the `x` is dropped and the segment `b` is ignored |
| Server.ResolveNoKeysExample | src/branchweb/webserver.py:132-137 | `/?foo` resolves to the bare `None` |
| Server.EndpointsOf | src/branchweb/webserver.py:88-90 | one endpoint per dict entry, in the dict's order, with that entry's path and handler |
| Server.EndpointRegistry.constructor | src/branchweb/webserver.py:78-79 | both endpoint lists start empty |
| Server.EndpointRegistry.RegisterGetEndpoints | src/branchweb/webserver.py:86-90 | the GET list grows by the dict's endpoints at its end; the POST list is unchanged |
| Server.EndpointRegistry.RegisterPostEndpoints | src/branchweb/webserver.py:96-100 | the POST list grows by the dict's endpoints at its end; the GET list is unchanged |
| Server.Matches | src/branchweb/webserver.py:234-235 | every listed index is an endpoint whose path equals the real path |
| Server.MatchesExactly | src/branchweb/webserver.py:234-235 | the matches are exactly the endpoints whose path equals the real path, in increasing order |
| Server.MatchesOfPrefix | src/branchweb/webserver.py:234-235 | the matches of a prefix of the list are a prefix of the matches |
| Server.FirstRaising | src/branchweb/webserver.py:237-250 | the position among the matches where the loop stops, at most their number |
| Server.FirstRaisingAt | src/branchweb/webserver.py:237-250 | the stop position is the first matched endpoint whose handler raises |
| Server.FirstRaisingBounds | src/branchweb/webserver.py:237-250 | no handler before the stop position raises, and the one at it does |
| Server.DispatchResultMeaning | src/branchweb/webserver.py:233-253 | the invoked endpoints are a prefix of the matches. "Bad request." is sent exactly when nothing matches. "Internal server error." is sent exactly when some matching handler raises; then at least one endpoint was invoked, the last one invoked raised and none before it did. Otherwise nothing is sent, and then every match was invoked |
| Server.DispatchResult | src/branchweb/webserver.py:233-253 | every invoked endpoint is registered and matches the real path, and the reply is nothing, "Bad request." or "Internal server error." |
| Server.SameHandlerTwice | src/branchweb/webserver.py:237-250 | one handler registered twice for a path that succeeds at the first position and raises at the second: both are invoked and "Internal server error." is sent |
| Server.Dispatch | src/branchweb/webserver.py:233-255 | the loop with its `no_match` flag and early return computes `DispatchResult` |
| Server.RequestHandler.constructor | src/branchweb/webserver.py:64-79 | a handler for one request path over the shared registry |
| Server.RequestHandler.FetchRealPath | src/branchweb/webserver.py:125-145 | `self.path` becomes the stripped path and the result is `ResolvePath` of the old path |
| Server.RequestHandler.DoGet | src/branchweb/webserver.py:225-255 | a path with no keys fails at the unpacking; otherwise the GET endpoints are dispatched on the real path |
| Server.RequestHandler.DoPost | src/branchweb/webserver.py:260-323 | a path with no keys fails at the unpacking. No Content-Length gives "Bad request." and an unparsable body gives "Could not parse post data!", both before any handler. Otherwise the POST endpoints are dispatched |
| Server.RequestHandler.DoOptions | src/branchweb/webserver.py:328-331 | no handler runs and the reply is the fixed envelope with status SUCCESS by name and by value (200) and payload `OK` |
| Keys.ExpiryBoundary | src/branchweb/key.py:25-30 | a key is live at exactly `lifetime` after its timestamp and expired strictly after |
| Keys.Key.HasExpired | src/branchweb/key.py:25-30 | true exactly when more than `lifetime` has passed since the timestamp, and then also at every later time |
| Keys.Key.constructor | src/branchweb/key.py:10-16 | a key with the given id, stamped now |
| Keys.Key.Refresh | src/branchweb/key.py:18-23 | only the timestamp changes, to now; the key is then live for every lifetime of zero or more |
| Users.KeyTable.constructor | src/branchweb/user.py:13 | the shared dict starts empty |
| Users.User.constructor | src/branchweb/user.py:15-31 | the user has the name and the hash of the password, and refers to the shared dict |
| Users.User.FromPwHash | src/branchweb/user.py:33-50 | a new user whose name and hash are exactly the arguments |
| Users.User.SetPassword | src/branchweb/user.py:52-65 | the hash becomes the hash of the new password and nothing else changes |
| Users.User.Authenticate | src/branchweb/user.py:67-85 | on a failing check nothing changes and `None` is returned. On a passing check exactly one new key, stamped now, is filed under its own id and returned. The user then holds it, and it is live |
| Users.User.HasAuthkey | src/branchweb/user.py:87-100 | true exactly when the key id is in the dict shared by all users |
| Users.User.RevokeAuthkey | src/branchweb/user.py:102-120 | returns whether the key was held, and afterwards the dict lacks exactly that key |
| Users.RevokeTwice | src/branchweb/user.py:115-120 | a second revoke of the same key returns False |
| Directory.Serialize | src/branchweb/usermanager.py:136-137 | the written text is empty exactly when there are no users, and holds at least two characters (`=` and the newline) per user |
| Directory.SerializeAppend | src/branchweb/usermanager.py:136-137 | one more user adds exactly its `name=hash\n` line at the end |
| Directory.ReadLine | src/branchweb/usermanager.py:156-166 | a line is skipped exactly when it is empty or starts with `#`, and fails exactly when it is otherwise without `=`; a parsed name and hash hold no `=`, and the name never starts with `#` |
| Directory.ReadLinePieces | src/branchweb/usermanager.py:164-166 | for a line `name=hash` followed by nothing or by more `=`-text, the name is the text before the first `=` and the hash the text up to the second; the rest is dropped |
| Directory.ReadLines | src/branchweb/usermanager.py:156-168 | the read loop gives at most one user per line, each with a name and hash free of `=` and a name not starting with `#` |
| Directory.ParseUserFile | src/branchweb/usermanager.py:153-168 | a file gives at most one user per line (at most one for a file without a newline), each with a name and hash free of `=` and a name not starting with `#` |
| Directory.ReadStoredLine | src/branchweb/usermanager.py:164-166 | a written line reads back as its user |
| Directory.RoundTrip | src/branchweb/usermanager.py:136-168 | for users that the format can carry, reading the written text gives the same (name, hash) sequence without error |
| Directory.CommentsAndBlanksAreSkipped | src/branchweb/usermanager.py:157-162 | a file of blank and comment lines yields no users |
| Directory.Entries | src/branchweb/usermanager.py:136-137 | the (name, hash) of every user, in list order |
| Directory.EntriesAppend | src/branchweb/usermanager.py:114 | appending a user appends its entry |
| Directory.WriteStep | src/branchweb/usermanager.py:136-137 | each pass of the write loop adds the next user's line |
| Directory.ReadLinesFrom | src/branchweb/usermanager.py:156-168 | each pass of the read loop skips, appends one user or stops on the line |
| Directory.UserList.constructor | src/branchweb/usermanager.py:16 | the shared list starts empty |
| Directory.FileSystem.constructor | src/branchweb/usermanager.py:148-153 | the files as given |
| Directory.UserManager.constructor | src/branchweb/usermanager.py:19-30 | the manager remembers the file path and refers to the shared list and dict, which every listed user shares |
| Directory.UserManager.Open | src/branchweb/usermanager.py:19-31 | the file is read, or created with a root user first. Its users are appended to the shared list, behind the users already there, which stay as they were, and the result says whether every line parsed |
| Directory.UserManager.GetUser | src/branchweb/usermanager.py:33-50 | the first user with exactly that name, or `None` when no user has it |
| Directory.UserManager.GetKeyUser | src/branchweb/usermanager.py:52-69 | the first user holding the key, or `None` when no user holds it. Since the dict is shared, that is the first user of a non-empty list whenever the key is currently in the dict, and `None` for a revoked key or an empty list |
| Directory.UserManager.AuthenticateUser | src/branchweb/user.py:67-85 | on a passing check one fresh key, stamped now, is filed under the new id in the shared dict and nothing else in the dict changes, so every user of the list holds it; on a failing check no key is issued and the dict is unchanged |
| Directory.UserManager.RevokeAuthkey | src/branchweb/usermanager.py:71-92 | `None` when no user holds the key and nothing changes; otherwise the first user, with the key removed from the dict |
| Directory.UserManager.AddUser | src/branchweb/usermanager.py:95-119 | a known name returns False and changes neither list nor file. A new name appends exactly one user with that name and the password's hash, keeps the others, rewrites the file and returns True |
| Directory.UserManager.WriteFile | src/branchweb/usermanager.py:121-137 | the file, at the given path or at the manager's own path when the given one is empty, holds one `name=hash\n` line per user, in order |
| Directory.UserManager.ReadFile | src/branchweb/usermanager.py:139-168 | a missing file is created first. The users parsed from the file are appended after the existing ones, and `False` means a line without `=` stopped the read |
| Directory.UserManager.AppendUsers | src/branchweb/usermanager.py:156-168 | the read loop appends exactly `ReadLines` of the lines and reports the failure |
| Directory.UserManager.AppendStored | src/branchweb/usermanager.py:168 | one user with the stored name and hash is appended |
| Directory.UserManager.CreateUserfile | src/branchweb/usermanager.py:170-200 | the file holds the single line `root=<hash>` |
| Directory.WrittenFileReadsBack | src/branchweb/usermanager.py:117-168 | after a registration, reading the user file gives back the current users |
| Auth.AuthKey.constructor | src/branchweb/webauth.py:119-122 | a key with the given UUID, stamped now |
| Auth.FindIndex | src/branchweb/webauth.py:75-79 | the position of the first key whose id string equals the argument, or none when no key's does |
| Auth.ObjectFindsNothing | src/branchweb/webauth.py:90-108 | searching with a UUID object finds no key |
| Auth.RemoveFirst | src/branchweb/webauth.py:34 | `list.remove` of an object that is in the list (both calls remove a key just taken from it): the list shortens by one and nothing new appears; `RemoveFirstAt` gives the exact result |
| Auth.RemoveFirstAt | src/branchweb/webauth.py:34 | removing an object not listed earlier removes exactly its position |
| Auth.DistinctWithout | src/branchweb/webauth.py:116 | removing a position keeps the key objects distinct |
| Auth.Swept | src/branchweb/webauth.py:26-37 | the sweep keeps no more keys than it had, and only keys it had |
| Auth.SweptFromLive | src/branchweb/webauth.py:31-33 | at a live key the sweep keeps it and moves to the next |
| Auth.SweptFromDead | src/branchweb/webauth.py:31-35 | at a dead key the sweep drops it and keeps the key behind it unexamined |
| Auth.LiveStep | src/branchweb/webauth.py:31-33 | the loop's position in the list and in the original advance together past a live key |
| Auth.DeadStep | src/branchweb/webauth.py:31-35 | after removing a dead key, the loop's next position is two past it in the original |
| Auth.SweptKeepsLive | src/branchweb/webauth.py:31-35 | the sweep never removes a live key |
| Auth.SweptDistinct | src/branchweb/webauth.py:31-35 | the sweep keeps the key objects distinct |
| Auth.SweepSkipsSuccessor | src/branchweb/webauth.py:31-35 | the key behind a removed key survives, dead or not |
| Auth.SurvivingDeadKeyFollowsRemoved | src/branchweb/webauth.py:31-35 | a dead key survives only when the key before it was dead and was removed |
| Auth.InvalidateLeavesNoMatch | src/branchweb/webauth.py:107-116 | with distinct ids, after the first match is removed, no key matches |
| Auth.WebAuth.constructor | src/branchweb/webauth.py:10-16 | no keys and no user manager |
| Auth.WebAuth.SetupUserManager | src/branchweb/webauth.py:18-20 | the manager is installed |
| Auth.WebAuth.Lookup | src/branchweb/webauth.py:106-110 | the search loop with `break` returns `FindIndex` |
| Auth.WebAuth.ClearDeadKeys | src/branchweb/webauth.py:25-37 | the list becomes `Swept` of the old list and stays free of repeats |
| Auth.WebAuth.NewAuthorizedKey | src/branchweb/webauth.py:57-63 | exactly one new key, with the given id and stamped now, is appended at the end and returned; the others are unchanged |
| Auth.WebAuth.InvalidateKey | src/branchweb/webauth.py:101-117 | when nothing matches (always so for a UUID object), it returns False and the list is unchanged; otherwise it removes exactly the first match and returns None |
| Auth.WebAuth.ValidateKey | src/branchweb/webauth.py:68-96 | the list becomes the sweep of the old one, with no key added. False when no surviving key has the id. Otherwise True exactly when that key is live at the check, and then only its timestamp changes, to the stamp time |
| Auth.WebAuth.ValidatePw | src/branchweb/webauth.py:42-51 | False exactly when a manager is installed and no user has the name |
| Auth.ValidateNeverAcceptsDead | src/branchweb/webauth.py:68-96 | a key dead at the check is never accepted, whether the sweep removed it or skipped it |

## Left out

- HTTP plumbing is not modelled: sockets, headers, CORS, `send_web_response`, `send_file` and logging. A reply is recorded as the envelope the dispatcher would send.
- The body of a POST request is not parsed: JSON and `cgi.FieldStorage` become one boolean, whether parsing succeeds. The post data handed to handlers is not modelled.
- Handlers are opaque. A handler is named by a number, and only whether the call at each list position raises is modelled. What it writes to the client is not.
- Auth.RemoveFirst: Python's `ValueError` for an absent object is not modelled; the model requires the object to be in the list, as it is at both calls.
- The threading server and `start_web_server` are not modelled; the source has no locks to reason about.
- `web_server.active_sessions` and `web_auth.user_hash` are never read by the core and are not modelled.
- bcrypt's random salt is folded into the `hash` parameter, and `create_userfile`'s random root password is a parameter `rootPassword`.
- Timestamps are integers, not floats.
- Python's text mode, which reads `\r` and `\r\n` back as `\n`, is not modelled: the file holds the text as read back. So `Directory.Storable` keeps `\r` out of names and hashes.
- Files are a map from path to text. Open file handles and the flush at close are not modelled.
- Auth.WebAuth.ValidateKey: `validate_key` takes the key timeout from the global `WEB_CONFIG`; the model takes it as a parameter, so the configured default of 900 seconds is not built in.
- Auth.WebAuth.ValidatePw: when the user exists, the source calls `validate_phash`, which `user` does not define. The model reports that call, and a call before `setup_user_manager`, only as an `AttributeError`.
- Auth.WebAuth.SetupUserManager: `usermanager()` opening the default file is modelled separately by `Directory.UserManager.Open`; this method only installs the manager it is given.
- Auth.WebAuth.NewAuthorizedKey: uniqueness of `uuid.uuid4()` is not assumed; only `Auth.InvalidateLeavesNoMatch` and `Auth.ValidateNeverAcceptsDead` take distinct ids as a hypothesis.
- Directory.UserManager.Open: the default path `USER_FILE = "users.meta"` of `usermanager()` is not modelled; the caller always passes the path.
- Directory.UserManager.ReadFile: a line without `=` raises `IndexError` in the source; the model returns `false` with the users read before that line kept. The exception escaping the constructor is not modelled.
