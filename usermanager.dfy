/**
 * The user directory of src/branchweb/usermanager.py: lookup by name and by
 * key, duplicate-checked registration, key revocation, and the user file
 * of `name=hash` lines.
 *
 * `usermanager.users` is a class attribute that no instance rebinds, so all
 * managers append to one list; the model gives that list its own object,
 * `UserList`, which every manager references. The file system is the
 * object `FileSystem`, a map from path to file text; the text is taken as
 * Python reads it back in text mode.
 */
module Directory {
  import opened Text
  import opened Users
  import Keys

  // ---------------------------------------------------------------------
  // The user file format
  // ---------------------------------------------------------------------

  /** A user as the file stores it: (name, password hash). */
  type Entry = (string, string)

  /** One line as `write_file` writes it: `"{}={}\n".format(name, phash)`. */
  function Line(e: Entry): string {
    e.0 + "=" + e.1 + "\n"
  }

  /** The text `write_file` leaves in the file: one line per user, in order. */
  function Serialize(es: seq<Entry>): (text: string)
    ensures text == [] <==> es == []
    ensures |text| >= 2 * |es|
  {
    if es == [] then "" else Line(es[0]) + Serialize(es[1..])
  }

  /** Writing one more user appends exactly its line. */
  lemma {:induction false} SerializeAppend(es: seq<Entry>, e: Entry)
    ensures Serialize(es + [e]) == Serialize(es) + Line(e)
  {
    if es != [] {
      assert (es + [e])[1..] == es[1..] + [e];
      SerializeAppend(es[1..], e);
    } else {
      assert [e][1..] == [];
    }
  }

  /** The file `create_userfile` writes: a single `root` user with the given hash. */
  function RootFile(rootHash: string): string {
    Line(("root", rootHash))
  }

  /** What `read_file` does with one line. */
  datatype LineRead = Skipped | Field(entry: Entry) | Malformed

  /**
   * Empty lines and lines starting with `#` are skipped; any other line
   * gives the text before its first `=` as the name and the text between
   * the first and second `=` as the hash; a line without `=` raises.
   */
  function ReadLine(line: string): (r: LineRead)
    ensures r == Skipped <==> |line| == 0 || line[0] == '#'
    ensures r == Malformed <==> |line| > 0 && line[0] != '#' && '=' !in line
    ensures r.Field? ==> '=' !in r.entry.0 && '=' !in r.entry.1
    ensures r.Field? ==> r.entry.0 == [] || r.entry.0[0] != '#'
  {
    if |line| == 0 || line[0] == '#' then Skipped
    else
      var parts := Split(line, '=');
      assert parts[0] <= line;
      if |parts| < 2 then Malformed else Field((parts[0], parts[1]))
  }

  /**
   * For a line `name=hash` followed by nothing or by more `=`-text, the
   * name is the text before the first `=` and the hash the text up to the
   * second; the rest is dropped.
   */
  lemma ReadLinePieces(name: string, phash: string, tail: string)
    requires '=' !in name && '=' !in phash
    requires name == [] || name[0] != '#'
    requires tail == [] || tail[0] == '='
    ensures ReadLine(name + "=" + phash + tail) == Field((name, phash))
  {
    var line := name + "=" + phash + tail;
    assert line == name + ['='] + (phash + tail);
    SplitAtSep(name, '=', phash + tail);
    if tail == [] {
      assert phash + tail == phash;
    } else {
      assert phash + tail == phash + ['='] + tail[1..];
      SplitAtSep(phash, '=', tail[1..]);
    }
    assert |line| > 0 && line[0] != '#' by {
      if name == [] { assert line[0] == '='; } else { assert line[0] == name[0]; }
    }
  }

  /** The outcome of `read_file`'s loop: the users it appended, and whether it stopped on a malformed line. */
  datatype ReadResult = ReadResult(entries: seq<Entry>, failed: bool)

  /** The lines are read in order; the first malformed line ends the read, keeping what was read before it. */
  function ReadLines(lines: seq<string>): (r: ReadResult)
    ensures |r.entries| <= |lines|
    ensures forall i :: 0 <= i < |r.entries| ==>
      '=' !in r.entries[i].0 && '=' !in r.entries[i].1 && (r.entries[i].0 == [] || r.entries[i].0[0] != '#')
  {
    if lines == [] then ReadResult([], false)
    else
      match ReadLine(lines[0])
      case Skipped => ReadLines(lines[1..])
      case Malformed => ReadResult([], true)
      case Field(e) =>
        var rest := ReadLines(lines[1..]);
        ReadResult([e] + rest.entries, rest.failed)
  }

  /** Reading a user file's text: `text.split("\n")`, line by line. */
  function ParseUserFile(text: string): (r: ReadResult)
    ensures |r.entries| <= |Split(text, '\n')|
    ensures '\n' !in text ==> |r.entries| <= 1
    ensures forall i :: 0 <= i < |r.entries| ==>
      '=' !in r.entries[i].0 && '=' !in r.entries[i].1 && (r.entries[i].0 == [] || r.entries[i].0[0] != '#')
  {
    ReadLines(Split(text, '\n'))
  }

  /**
   * A user the line format can carry: neither field holds `=` or a line
   * break (Python's text mode reads `\r` back as a line break), and the
   * name does not start with `#`.
   */
  predicate Storable(e: Entry) {
    && '=' !in e.0 && '\n' !in e.0 && '\r' !in e.0
    && (e.0 == [] || e.0[0] != '#')
    && '=' !in e.1 && '\n' !in e.1 && '\r' !in e.1
  }

  /** A stored line reads back as the user it was written from. */
  lemma ReadStoredLine(e: Entry)
    requires Storable(e)
    ensures ReadLine(e.0 + "=" + e.1) == Field(e)
  {
    var line := e.0 + "=" + e.1;
    assert line == e.0 + ['='] + e.1;
    SplitAtSep(e.0, '=', e.1);
    assert |line| > 0 && line[0] != '#' by {
      if e.0 == [] { assert line[0] == '='; } else { assert line[0] == e.0[0]; }
    }
  }

  /** Reading back a written user file gives the same users, in the same order, without error. */
  lemma {:induction false} RoundTrip(es: seq<Entry>)
    requires forall i :: 0 <= i < |es| ==> Storable(es[i])
    ensures ParseUserFile(Serialize(es)) == ReadResult(es, false)
  {
    if es == [] {
      assert Split("", '\n') == [""];
    } else {
      var e := es[0];
      var body := e.0 + "=" + e.1;
      assert '\n' !in body;
      assert Serialize(es) == body + ['\n'] + Serialize(es[1..]);
      SplitAtSep(body, '\n', Serialize(es[1..]));
      var lines := Split(Serialize(es), '\n');
      assert lines[0] == body && lines[1..] == Split(Serialize(es[1..]), '\n');
      ReadStoredLine(e);
      RoundTrip(es[1..]);
    }
  }

  /** The users of a file that holds only comments and blank lines: none. */
  lemma {:induction false} CommentsAndBlanksAreSkipped(lines: seq<string>)
    requires forall i :: 0 <= i < |lines| ==> |lines[i]| == 0 || lines[i][0] == '#'
    ensures ReadLines(lines) == ReadResult([], false)
  {
    if lines != [] {
      CommentsAndBlanksAreSkipped(lines[1..]);
    }
  }

  // ---------------------------------------------------------------------
  // The manager
  // ---------------------------------------------------------------------

  /** The class-level list `usermanager.users`. */
  class UserList {
    var users: seq<User>

    constructor()
      ensures users == []
    {
      users := [];
    }
  }

  /** Files by path. */
  class FileSystem {
    var files: map<string, string>

    constructor(files: map<string, string>)
      ensures this.files == files
    {
      this.files := files;
    }
  }

  /** The (name, hash) of each user, in list order. */
  function Entries(us: seq<User>): (es: seq<Entry>)
    reads us
    ensures |es| == |us|
    ensures forall i :: 0 <= i < |us| ==> es[i] == (us[i].name, us[i].phash)
  {
    seq(|us|, i requires 0 <= i < |us| reads us => (us[i].name, us[i].phash))
  }

  /** Appending a user appends its entry. */
  lemma EntriesAppend(us: seq<User>, u: User)
    ensures Entries(us + [u]) == Entries(us) + [(u.name, u.phash)]
  {
  }

  /** One step of `write_file`'s loop: the file grows by the next user's line. */
  lemma WriteStep(us: seq<User>, i: nat)
    requires i < |us|
    ensures Serialize(Entries(us[..i + 1])) == Serialize(Entries(us[..i])) + (us[i].name + "=" + us[i].phash + "\n")
  {
    assert us[..i + 1] == us[..i] + [us[i]];
    EntriesAppend(us[..i], us[i]);
    SerializeAppend(Entries(us[..i]), (us[i].name, us[i].phash));
  }

  /** One step of `read_file`'s loop, from line `i` on. */
  lemma ReadLinesFrom(lines: seq<string>, i: nat)
    requires i < |lines|
    ensures ReadLines(lines[i..]) ==
      match ReadLine(lines[i])
      case Skipped => ReadLines(lines[i + 1..])
      case Malformed => ReadResult([], true)
      case Field(e) => ReadResult([e] + ReadLines(lines[i + 1..]).entries, ReadLines(lines[i + 1..]).failed)
  {
    assert lines[i..][0] == lines[i] && lines[i..][1..] == lines[i + 1..];
  }

  /** The text `read_file` reads at `path`: the file, or the root file it creates when there is none. */
  function TextAt(files: map<string, string>, path: string, rootHash: string): string {
    if path in files then files[path] else RootFile(rootHash)
  }

  class UserManager {
    const users: UserList
    var userfile: string
    const authkeys: KeyTable

    /** Every user shares the one `user.authkeys` dict. */
    ghost predicate Valid()
      reads this, users
    {
      forall u :: u in users.users ==> u.authkeys == authkeys
    }

    /** The attribute assignments of `usermanager(user_file)`; `Open` adds the read. */
    constructor(userFile: string, users: UserList, authkeys: KeyTable)
      requires forall u :: u in users.users ==> u.authkeys == authkeys
      ensures userfile == userFile && this.users == users && this.authkeys == authkeys
      ensures Valid()
    {
      userfile := userFile;
      this.users := users;
      this.authkeys := authkeys;
    }

    /** `usermanager(user_file)`: remembers the path and reads (or creates) the file. */
    static method Open(userFile: string, users: UserList, authkeys: KeyTable, fs: FileSystem,
                       rootPassword: string, hash: string -> string)
      returns (m: UserManager, ok: bool)
      requires forall u :: u in users.users ==> u.authkeys == authkeys
      modifies users, fs
      ensures fresh(m) && m.Valid()
      ensures m.userfile == userFile && m.users == users && m.authkeys == authkeys
      ensures old(users.users) <= users.users
      ensures fs.files == old(fs.files)[userFile := TextAt(old(fs.files), userFile, hash(rootPassword))]
      ensures Entries(users.users) ==
        old(Entries(users.users)) + ParseUserFile(TextAt(old(fs.files), userFile, hash(rootPassword))).entries
      ensures ok <==> !ParseUserFile(TextAt(old(fs.files), userFile, hash(rootPassword))).failed
    {
      m := new UserManager(userFile, users, authkeys);
      ok := m.ReadFile(userFile, fs, rootPassword, hash);
    }

    /** `get_user`: the first user with exactly this name, or `None`. */
    method GetUser(name: string) returns (u: User?)
      ensures u == null ==> forall v :: v in users.users ==> v.name != name
      ensures u != null ==> (u.name == name &&
        exists i :: 0 <= i < |users.users| && users.users[i] == u &&
          forall j :: 0 <= j < i ==> users.users[j].name != name)
    {
      for i := 0 to |users.users|
        invariant forall j :: 0 <= j < i ==> users.users[j].name != name
      {
        if users.users[i].name == name {
          return users.users[i];
        }
      }
      u := null;
    }

    /**
     * `get_key_user`: the first user holding the key, or `None`. As all
     * users share one dict, that is the first user of a non-empty list
     * whenever the key is currently in the dict.
     */
    method GetKeyUser(keyId: string) returns (u: User?)
      ensures u == null ==> forall v :: v in users.users ==> !v.HasAuthkey(keyId)
      ensures u != null ==> (u.HasAuthkey(keyId) &&
        exists i :: 0 <= i < |users.users| && users.users[i] == u &&
          forall j :: 0 <= j < i ==> !users.users[j].HasAuthkey(keyId))
      ensures Valid() ==> u == if |users.users| > 0 && keyId in authkeys.keys then users.users[0] else null
    {
      for i := 0 to |users.users|
        invariant forall j :: 0 <= j < i ==> !users.users[j].HasAuthkey(keyId)
      {
        if users.users[i].HasAuthkey(keyId) {
          return users.users[i];
        }
      }
      u := null;
    }

    /**
     * `authenticate` on one of the manager's users: since every user files
     * keys in the one class-level dict, a key issued through that user is
     * held by every user of the list.
     */
    method AuthenticateUser(u: User, passwd: string, checkPw: (string, string) -> bool, newId: string, now: int)
      returns (k: Keys.Key?)
      requires Valid() && u in users.users
      requires newId !in authkeys.keys
      modifies authkeys`keys
      ensures k == null <==> !checkPw(passwd, u.phash)
      ensures k != null ==> k.keyId == newId && forall v :: v in users.users ==> v.HasAuthkey(newId)
      ensures k == null ==> forall v :: v in users.users ==> (v.HasAuthkey(newId) <==> newId in old(authkeys.keys))
      ensures k != null ==> fresh(k) && k.timestamp == now && authkeys.keys == old(authkeys.keys)[newId := k]
      ensures k == null ==> authkeys.keys == old(authkeys.keys)
    {
      k := u.Authenticate(passwd, checkPw, newId, now);
    }

    /** `revoke_authkey`: the holder of the key after the key is removed, or `None` when no user holds it. */
    method RevokeAuthkey(keyId: string) returns (u: User?)
      requires Valid()
      modifies authkeys`keys
      ensures u == if |users.users| > 0 && keyId in old(authkeys.keys) then users.users[0] else null
      ensures authkeys.keys == if u == null then old(authkeys.keys) else old(authkeys.keys) - {keyId}
    {
      u := GetKeyUser(keyId);
      if u == null {
        return null;
      }
      var revoked := u.RevokeAuthkey(keyId);
      if !revoked {
        return null;
      }
    }

    /**
     * `add_user`: refuses a name already present and changes nothing;
     * otherwise appends the new user and rewrites the user file.
     */
    method AddUser(username: string, password: string, hash: string -> string, fs: FileSystem) returns (ok: bool)
      requires Valid()
      modifies users, fs
      ensures Valid()
      ensures ok <==> forall v :: v in old(users.users) ==> v.name != username
      ensures !ok ==> users.users == old(users.users) && fs.files == old(fs.files)
      ensures ok ==>
        && |users.users| == |old(users.users)| + 1
        && users.users[..|old(users.users)|] == old(users.users)
        && fresh(users.users[|old(users.users)|])
        && users.users[|old(users.users)|].name == username
        && users.users[|old(users.users)|].phash == hash(password)
      ensures ok ==> fs.files == old(fs.files)[userfile := Serialize(Entries(users.users))]
    {
      for i := 0 to |users.users|
        invariant forall j :: 0 <= j < i ==> users.users[j].name != username
      {
        if users.users[i].name == username {
          return false;
        }
      }
      var u := new User(username, password, hash, authkeys);
      users.users := users.users + [u];
      WriteFile(userfile, fs);
      ok := true;
    }

    /** `write_file`: truncates the file and writes one line per user, in list order. */
    method WriteFile(path: string, fs: FileSystem)
      modifies fs
      ensures fs.files == old(fs.files)[(if path == "" then userfile else path) := Serialize(Entries(users.users))]
    {
      var target := if path == "" then userfile else path;
      var us := users.users;
      ghost var before := fs.files;
      fs.files := fs.files[target := ""];
      for i := 0 to |us|
        invariant target in fs.files && fs.files == before[target := fs.files[target]]
        invariant fs.files[target] == Serialize(Entries(us[..i]))
      {
        var line := us[i].name + "=" + us[i].phash + "\n";
        WriteStep(us, i);
        fs.files := fs.files[target := fs.files[target] + line];
      }
      assert us[..|us|] == us;
    }

    /**
     * `read_file`: creates the file with a root user if it is missing, then
     * appends one user per `name=hash` line after the users already listed.
     * A line without `=` raises, leaving the users read before it appended.
     */
    method ReadFile(path: string, fs: FileSystem, rootPassword: string, hash: string -> string) returns (ok: bool)
      requires Valid()
      modifies users, fs
      ensures Valid()
      ensures fs.files == old(fs.files)[path := TextAt(old(fs.files), path, hash(rootPassword))]
      ensures old(users.users) <= users.users
      ensures Entries(users.users) ==
        old(Entries(users.users)) + ParseUserFile(TextAt(old(fs.files), path, hash(rootPassword))).entries
      ensures ok <==> !ParseUserFile(TextAt(old(fs.files), path, hash(rootPassword))).failed
    {
      if path !in fs.files {
        CreateUserfile(path, fs, rootPassword, hash);
      }
      var text := fs.files[path];
      ok := AppendUsers(Split(text, '\n'), hash);
    }

    /** The loop of `read_file` over the lines of the file's text. */
    method AppendUsers(lines: seq<string>, hash: string -> string) returns (ok: bool)
      requires Valid()
      modifies users
      ensures Valid()
      ensures old(users.users) <= users.users
      ensures Entries(users.users) == old(Entries(users.users)) + ReadLines(lines).entries
      ensures ok <==> !ReadLines(lines).failed
    {
      ghost var before := Entries(users.users);
      ghost var added: seq<Entry> := [];
      var i := 0;
      while i < |lines|
        invariant 0 <= i <= |lines|
        invariant Valid()
        invariant old(users.users) <= users.users
        invariant Entries(users.users) == before + added
        invariant ReadLines(lines).entries == added + ReadLines(lines[i..]).entries
        invariant ReadLines(lines).failed == ReadLines(lines[i..]).failed
      {
        var line := lines[i];
        ReadLinesFrom(lines, i);
        if |line| == 0 || line[0] == '#' {
          i := i + 1;
        } else {
          var parts := Split(line, '=');
          if |parts| < 2 {
            return false;
          }
          AppendStored(parts[0], parts[1], hash);
          added := added + [(parts[0], parts[1])];
          i := i + 1;
        }
      }
      assert lines[i..] == [];
      ok := true;
    }

    /** `self.users.append(user.from_pw_hash(name, phash))`: one stored user joins the list. */
    method AppendStored(name: string, phash: string, hash: string -> string)
      requires Valid()
      modifies users
      ensures Valid()
      ensures |users.users| == |old(users.users)| + 1 && old(users.users) <= users.users
      ensures Entries(users.users) == old(Entries(users.users)) + [(name, phash)]
    {
      var u := User.FromPwHash(name, phash, hash, authkeys);
      EntriesAppend(users.users, u);
      users.users := users.users + [u];
    }

    /** `create_userfile`: a file with one `root` user whose password is `rootPassword` (random in the source). */
    method CreateUserfile(path: string, fs: FileSystem, rootPassword: string, hash: string -> string)
      modifies fs
      ensures fs.files == old(fs.files)[path := RootFile(hash(rootPassword))]
    {
      fs.files := fs.files[path := "root" + "=" + hash(rootPassword) + "\n"];
    }
  }

  /** After a successful registration of storable users, the file reads back as the current user list. */
  lemma WrittenFileReadsBack(us: seq<User>, files: map<string, string>, path: string)
    requires forall i :: 0 <= i < |us| ==> Storable((us[i].name, us[i].phash))
    requires path in files && files[path] == Serialize(Entries(us))
    ensures ParseUserFile(files[path]) == ReadResult(Entries(us), false)
  {
    RoundTrip(Entries(us));
  }
}
