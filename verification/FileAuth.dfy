/** The file-based authentication backend: the user map, the file behind it, and the admin
    operations, each of which changes the map and then writes the file. */
module FileAuth {
  import opened Wrappers
  import opened Text
  import opened Base64
  import opened PasswordFile

  datatype AdminError = AlreadyExists | NoSuchUser | HashFailed | SaveFailed

  type Reply = Result<(), AdminError>

  datatype Store = Store(users: Users, file: string)

  /** An admin operation. `hash` is the new password's hash, or `None` if hashing failed; `saved`
      says whether the atomic replacement of the file succeeds. */
  datatype Operation =
    | Create(name: string, hash: Option<string>, saved: bool)
    | Delete(name: string, saved: bool)
    | ChangePassword(name: string, hash: Option<string>, saved: bool)
    | SetScram(name: string, credentials: Credentials, saved: bool)

  /** The map is replaced even if the write then fails. */
  ghost function Saving(s: Store, users: Users, saved: bool): (Store, Reply) {
    if saved then (Store(users, SaveText(users)), Ok(())) else (Store(users, s.file), Err(SaveFailed))
  }

  function Rehashed(field: string, hash: string): string {
    var scram := ScramCredentials(field);
    if scram.Some? then WithScram(hash, scram.value) else hash
  }

  ghost function Apply(s: Store, op: Operation): (Store, Reply) {
    match op
    case Create(name, hash, saved) =>
      if name in s.users then (s, Err(AlreadyExists))
      else if hash.None? then (s, Err(HashFailed))
      else Saving(s, s.users[name := hash.value], saved)
    case Delete(name, saved) =>
      if name !in s.users then (s, Err(NoSuchUser))
      else Saving(s, s.users - {name}, saved)
    case ChangePassword(name, hash, saved) =>
      if name !in s.users then (s, Err(NoSuchUser))
      else if hash.None? then (s, Err(HashFailed))
      else Saving(s, s.users[name := Rehashed(s.users[name], hash.value)], saved)
    case SetScram(name, credentials, saved) =>
      if name !in s.users then (s, Err(NoSuchUser))
      else Saving(s, s.users[name := WithScram(PasswordHash(s.users[name]), credentials)], saved)
  }

  class FileAuthBackend {
    var users: Users
    var file: string

    ghost function View(): Store
      reads this
    {
      Store(users, file)
    }

    constructor (loaded: Users, contents: string)
      ensures View() == Store(loaded, contents)
    {
      users, file := loaded, contents;
    }

    /** Opens the backend on a password file. A missing file is created empty; a file that does not
        load gives its error, and no backend. */
    static method Open(existing: Option<string>) returns (r: Result<FileAuthBackend, LoadError>)
      ensures var contents := if existing.Some? then existing.value else "";
              match Load(contents)
              case Ok(loaded) => r.Ok? && fresh(r.value) && r.value.View() == Store(loaded, contents)
              case Err(error) => r == Err(error)
    {
      var contents, loaded := "", map[];
      if existing.Some? {
        contents := existing.value;
        var result := LoadUsers(contents);
        if result.Err? {
          return Err(result.error);
        }
        loaded := result.value;
      }
      var backend := new FileAuthBackend(loaded, contents);
      return Ok(backend);
    }

    method Save(saved: bool) returns (r: Reply)
      modifies this`file
      ensures (View(), r) == Saving(old(View()), users, saved)
    {
      var contents := SaveUsers(users);
      if !saved {
        return Err(SaveFailed);
      }
      file := contents;
      return Ok(());
    }

    method CreateUser(name: string, hash: Option<string>, saved: bool) returns (r: Reply)
      modifies this
      ensures (View(), r) == Apply(old(View()), Create(name, hash, saved))
    {
      if name in users {
        return Err(AlreadyExists);
      }
      if hash.None? {
        return Err(HashFailed);
      }
      users := users[name := hash.value];
      r := Save(saved);
    }

    method DeleteUser(name: string, saved: bool) returns (r: Reply)
      modifies this
      ensures (View(), r) == Apply(old(View()), Delete(name, saved))
    {
      if name !in users {
        return Err(NoSuchUser);
      }
      users := users - {name};
      r := Save(saved);
    }

    method ChangeUserPassword(name: string, hash: Option<string>, saved: bool) returns (r: Reply)
      modifies this
      ensures (View(), r) == Apply(old(View()), ChangePassword(name, hash, saved))
    {
      if name !in users {
        return Err(NoSuchUser);
      }
      var existing := ScramCredentials(users[name]);
      if hash.None? {
        return Err(HashFailed);
      }
      users := users[name := if existing.Some? then WithScram(hash.value, existing.value) else hash.value];
      r := Save(saved);
    }

    method SetScramCredentials(name: string, credentials: Credentials, saved: bool) returns (r: Reply)
      modifies this
      ensures (View(), r) == Apply(old(View()), SetScram(name, credentials, saved))
    {
      if name !in users {
        return Err(NoSuchUser);
      }
      users := users[name := WithScram(PasswordHash(users[name]), credentials)];
      r := Save(saved);
    }
  }

  // ---- What each operation does ---------------------------------------------------------

  /** A user is created exactly if the name is new, the password could be hashed and the file was
      written. An existing user is refused and keeps every entry; otherwise the map gains exactly
      the new name with the hash, even if the write then fails. */
  lemma CreateSucceedsIff(s: Store, name: string, hash: Option<string>, saved: bool)
    ensures var (after, reply) := Apply(s, Create(name, hash, saved));
            && (reply == Ok(()) <==> name !in s.users && hash.Some? && saved)
            && (reply == Err(AlreadyExists) <==> name in s.users)
            && (reply == Err(HashFailed) <==> name !in s.users && hash.None?)
            && (reply == Err(AlreadyExists) || reply == Err(HashFailed) ==> after == s)
            && (forall x :: x in s.users ==> x in after.users && after.users[x] == s.users[x])
            && (name !in s.users && hash.Some? ==>
                  after.users.Keys == s.users.Keys + {name} && after.users[name] == hash.value)
  {
  }

  /** A user is deleted exactly if there is one and the file was written; exactly its entry goes. */
  lemma DeleteSucceedsIff(s: Store, name: string, saved: bool)
    ensures var (after, reply) := Apply(s, Delete(name, saved));
            && (reply == Ok(()) <==> name in s.users && saved)
            && (reply == Err(NoSuchUser) <==> name !in s.users)
            && (name !in s.users ==> after == s)
            && after.users.Keys == s.users.Keys - {name}
            && forall x :: x in after.users ==> after.users[x] == s.users[x]
  {
  }

  /** A password is changed exactly if the user exists, the password could be hashed and the file was
      written; nobody comes, goes, or has another entry changed. */
  lemma ChangeSucceedsIff(s: Store, name: string, hash: Option<string>, saved: bool)
    ensures var (after, reply) := Apply(s, ChangePassword(name, hash, saved));
            && (reply == Ok(()) <==> name in s.users && hash.Some? && saved)
            && (reply == Err(NoSuchUser) <==> name !in s.users)
            && (reply == Err(HashFailed) <==> name in s.users && hash.None?)
            && (reply == Err(NoSuchUser) || reply == Err(HashFailed) ==> after == s)
            && after.users.Keys == s.users.Keys
            && forall x :: x in s.users && x != name ==> after.users[x] == s.users[x]
  {
    hide Rehashed;
  }

  /** Likewise for enrolment, which hashes nothing. */
  lemma EnrolSucceedsIff(s: Store, name: string, credentials: Credentials, saved: bool)
    ensures var (after, reply) := Apply(s, SetScram(name, credentials, saved));
            && (reply == Ok(()) <==> name in s.users && saved)
            && (reply == Err(NoSuchUser) <==> name !in s.users)
            && (name !in s.users ==> after == s)
            && after.users.Keys == s.users.Keys
            && forall x :: x in s.users && x != name ==> after.users[x] == s.users[x]
  {
    hide WithScram, PasswordHash;
  }

  /** Over any run, the entry of a user whom no operation names is as it was, present or absent. */
  lemma {:induction false} OthersAreLeftAlone(s: Store, ops: seq<Operation>, x: string)
    requires forall i :: 0 <= i < |ops| ==> ops[i].name != x
    ensures x in Run(s, ops).users <==> x in s.users
    ensures x in s.users ==> Run(s, ops).users[x] == s.users[x]
    decreases |ops|
  {
    if ops != [] {
      var op := ops[0];
      match op {
        case Create(name, hash, saved) => CreateSucceedsIff(s, name, hash, saved);
        case Delete(name, saved) => DeleteSucceedsIff(s, name, saved);
        case ChangePassword(name, hash, saved) => ChangeSucceedsIff(s, name, hash, saved);
        case SetScram(name, credentials, saved) => EnrolSucceedsIff(s, name, credentials, saved);
      }
      OthersAreLeftAlone(Apply(s, op).0, ops[1..], x);
    }
  }

  /** Creating cannot take over an account: an existing user's entry stays through any run of
      creations, whatever names they have. */
  lemma {:induction false} CreatingNeverReplaces(s: Store, ops: seq<Operation>, x: string)
    requires x in s.users && forall i :: 0 <= i < |ops| ==> ops[i].Create?
    ensures x in Run(s, ops).users && Run(s, ops).users[x] == s.users[x]
    decreases |ops|
  {
    if ops != [] {
      CreateSucceedsIff(s, ops[0].name, ops[0].hash, ops[0].saved);
      CreatingNeverReplaces(Apply(s, ops[0]).0, ops[1..], x);
    }
  }

  // ---- Well-formed operations keep entries well-formed ---------------------------------

  predicate SafeName(name: string) {
    name != "" && name[0] != '#' && !IsWhitespace(name[0]) && ':' !in name && '\n' !in name
  }

  /** What the hash functions produce: a known prefix, and no tab, line feed or trailing blank. */
  predicate SafeHash(hash: string) {
    IsPasswordHash(hash) && '\t' !in hash && '\n' !in hash && !IsWhitespace(hash[|hash| - 1])
  }

  predicate Safe(op: Operation) {
    match op
    case Create(name, hash, _) => SafeName(name) && (hash.Some? ==> SafeHash(hash.value))
    case Delete(_, _) => true
    case ChangePassword(_, hash, _) => hash.Some? ==> SafeHash(hash.value)
    case SetScram(_, c, _) => c.serverKey != []
  }

  lemma HashHasNoTab(field: string)
    ensures '\t' !in PasswordHash(field)
  {
  }

  lemma HashIsEntry(name: string, hash: string)
    requires SafeName(name) && SafeHash(hash)
    ensures WellFormedEntry(name, hash)
  {
    IndexOfUnique(hash, '\t', |hash|);
    assert hash[..|hash|] == hash;
  }

  lemma ScramIsEntry(name: string, hash: string, c: Credentials)
    requires SafeName(name) && IsPasswordHash(hash) && '\t' !in hash && '\n' !in hash && c.serverKey != []
    ensures WellFormedEntry(name, WithScram(hash, c))
  {
    ScramUndoesWithScramIff(hash, c);
    hide IsPasswordHash, PasswordHash, ScramCredentials, Decimal;
    NoTabsInColumns(c);
    var field, last := WithScram(hash, c), Encode(c.serverKey);
    assert last != "";
    assert field[|field| - 1] == last[|last| - 1];
    NoBlankInEncoding(c.serverKey);
    hide Encode;
    assert last[|last| - 1] in last;
  }

  lemma NoBlankInEncoding(b: seq<byte>)
    ensures forall c :: c in Encode(b) ==> !IsWhitespace(c)
  {
    forall c | IsWhitespace(c) ensures c !in Encode(b) {
      EncodingAlphabet(b, c);
    }
  }

  lemma EntryParts(name: string, field: string)
    requires WellFormedEntry(name, field)
    ensures SafeName(name) && IsPasswordHash(PasswordHash(field)) && '\n' !in PasswordHash(field)
  {
  }

  lemma DecodedKeys(field: string)
    ensures ScramCredentials(field).Some? ==> ValidCredentials(ScramCredentials(field).value)
  {
  }

  lemma OperationKeepsEntries(s: Store, op: Operation)
    requires AllWellFormed(s.users) && Safe(op)
    ensures AllWellFormed(Apply(s, op).0.users)
  {
    hide WellFormedEntry, SafeName, SafeHash, IsPasswordHash, PasswordHash, ScramCredentials, WithScram;
    match op
    case Create(name, hash, _) =>
      if hash.Some? {
        HashIsEntry(name, hash.value);
      }
    case Delete(_, _) =>
    case ChangePassword(name, hash, _) =>
      if name in s.users && hash.Some? {
        EntryParts(name, s.users[name]);
        RehashedIsEntry(name, s.users[name], hash.value);
      }
    case SetScram(name, c, _) =>
      if name in s.users {
        var field := s.users[name];
        EntryParts(name, field);
        HashHasNoTab(field);
        ScramIsEntry(name, PasswordHash(field), c);
      }
  }

  lemma RehashedIsEntry(name: string, field: string, hash: string)
    requires SafeName(name) && SafeHash(hash)
    ensures WellFormedEntry(name, Rehashed(field, hash))
  {
    hide WellFormedEntry, IsPasswordHash, ScramCredentials, WithScram;
    DecodedKeys(field);
    if ScramCredentials(field).Some? {
      ScramIsEntry(name, hash, ScramCredentials(field).value);
    } else {
      HashIsEntry(name, hash);
    }
  }

  // ---- Restarts -------------------------------------------------------------------------

  ghost function Run(s: Store, ops: seq<Operation>): Store
    decreases |ops|
  {
    if ops == [] then s else Run(Apply(s, ops[0]).0, ops[1..])
  }

  /** The user map as of the last operation that succeeded. */
  ghost function Committed(s: Store, ops: seq<Operation>, committed: Users): Users
    decreases |ops|
  {
    if ops == [] then committed
    else
      var (after, reply) := Apply(s, ops[0]);
      Committed(after, ops[1..], if reply.Ok? then after.users else committed)
  }

  /** After any run of safe operations, whether or not their writes succeed, the file loads, and
      what it loads is the user map as of the last operation that succeeded. */
  lemma {:induction false} RestartRestoresCommitted(s: Store, ops: seq<Operation>, committed: Users)
    requires AllWellFormed(s.users) && Load(s.file) == Ok(committed)
    requires forall i :: 0 <= i < |ops| ==> Safe(ops[i])
    ensures Load(Run(s, ops).file) == Ok(Committed(s, ops, committed))
    ensures AllWellFormed(Run(s, ops).users)
    decreases |ops|
  {
    if ops != [] {
      var (after, reply) := Apply(s, ops[0]);
      OperationKeepsEntries(s, ops[0]);
      OperationCommits(s, ops[0]);
      hide Load, Apply, Safe, AllWellFormed;
      if reply.Ok? {
        LoadUndoesSaveIff(after.users);
      }
      RestartRestoresCommitted(after, ops[1..], if reply.Ok? then after.users else committed);
    }
  }

  /** An operation writes its whole result or leaves the file alone; only a failed write leaves the
      map ahead of the file. */
  lemma OperationCommits(s: Store, op: Operation)
    ensures var (after, reply) := Apply(s, op);
            && (reply.Ok? ==> after.file == SaveText(after.users))
            && (reply.Err? ==> after.file == s.file)
            && (reply.Err? && reply.error != SaveFailed ==> after == s)
  {
  }

  ghost predicate NoWriteFails(s: Store, ops: seq<Operation>)
    decreases |ops|
  {
    ops == [] || (Apply(s, ops[0]).1 != Err(SaveFailed) && NoWriteFails(Apply(s, ops[0]).0, ops[1..]))
  }

  /** If no write fails, a restart at any point changes nothing. */
  lemma {:induction false} RestartIsTransparent(s: Store, ops: seq<Operation>)
    requires AllWellFormed(s.users) && Load(s.file) == Ok(s.users)
    requires (forall i :: 0 <= i < |ops| ==> Safe(ops[i])) && NoWriteFails(s, ops)
    ensures Load(Run(s, ops).file) == Ok(Run(s, ops).users)
    decreases |ops|
  {
    if ops != [] {
      var (after, reply) := Apply(s, ops[0]);
      OperationKeepsEntries(s, ops[0]);
      OperationCommits(s, ops[0]);
      hide Load, Apply, Safe, AllWellFormed;
      if reply.Ok? {
        LoadUndoesSaveIff(after.users);
      }
      RestartIsTransparent(after, ops[1..]);
    }
  }

  /** A loaded store meets the hypotheses of the two results above. */
  lemma LoadedStoresAreWellFormed(file: string)
    ensures Load(file).Ok? ==> AllWellFormed(Load(file).value)
  {
    LoadedEntriesAreWellFormed(TextLines(file), 1, map[]);
  }

  // ---- Passwords and SCRAM credentials do not disturb each other ---------------------------

  /** Enrolling changes the credentials and nothing else. */
  lemma EnrollingKeepsPassword(s: Store, name: string, c: Credentials)
    requires name in s.users && ValidCredentials(c)
    ensures var after := Apply(s, SetScram(name, c, true)).0.users;
            && after.Keys == s.users.Keys
            && PasswordHash(after[name]) == PasswordHash(s.users[name])
            && ScramCredentials(after[name]) == Some(c)
            && forall other :: other in s.users && other != name ==> after[other] == s.users[other]
  {
    HashHasNoTab(s.users[name]);
    hide PasswordHash, ScramCredentials, WithScram, SaveText;
    ScramUndoesWithScramIff(PasswordHash(s.users[name]), c);
  }

  /** Changing the password keeps the credentials, and nobody else's entry changes. */
  lemma PasswordChangeKeepsScram(s: Store, name: string, hash: string)
    requires name in s.users && SafeHash(hash)
    ensures var after := Apply(s, ChangePassword(name, Some(hash), true)).0.users;
            && after.Keys == s.users.Keys
            && PasswordHash(after[name]) == hash
            && ScramCredentials(after[name]) == ScramCredentials(s.users[name])
            && forall other :: other in s.users && other != name ==> after[other] == s.users[other]
  {
    var field := s.users[name];
    DecodedKeys(field);
    BareHashHasNoScram(hash);
    hide PasswordHash, ScramCredentials, WithScram, SaveText, IsPasswordHash;
    if ScramCredentials(field).Some? {
      ScramUndoesWithScramIff(hash, ScramCredentials(field).value);
    }
  }

  lemma BareHashHasNoScram(hash: string)
    requires '\t' !in hash
    ensures PasswordHash(hash) == hash && ScramCredentials(hash).None?
  {
    IndexOfUnique(hash, '\t', |hash|);
    assert SplitN(hash, 5, '\t') == [hash];
  }

  // ---- Columns that the backend does not read ---------------------------------------------

  /** Everything after the password hash, from the first tab on. */
  function Tail(field: string): string { field[IndexOf(field, '\t')..] }

  function Columns(c: Credentials): string {
    ['\t'] + (Encode(c.salt) + ['\t'] + (Decimal(c.iterations) + ['\t']
                 + (Encode(c.storedKey) + ['\t'] + Encode(c.serverKey))))
  }

  lemma TailOfAppend(hash: string, columns: string)
    requires '\t' !in hash && columns != "" && columns[0] == '\t'
    ensures Tail(hash + columns) == columns
  {
    IndexOfUnique(hash + columns, '\t', |hash|);
    hide IndexOf;
    assert (hash + columns)[|hash|..] == columns;
  }

  lemma TailOfWithScram(hash: string, c: Credentials)
    requires '\t' !in hash
    ensures WithScram(hash, c) == hash + Columns(c) && Tail(WithScram(hash, c)) == Columns(c)
  {
    WithScramShape(hash, c);
    hide Encode, Decimal, WithScram, Tail;
    TailOfAppend(hash, Columns(c));
  }

  lemma HashAndTail(field: string)
    ensures field == PasswordHash(field) + Tail(field) && '\t' !in PasswordHash(field)
    ensures Tail(field) == "" <==> '\t' !in field
  {
  }

  /** A password change keeps what follows the password hash exactly when nothing does, or when it
      is readable credentials and nothing else, printed as the backend prints them. */
  lemma OtherColumnsSurviveIff(field: string, hash: string)
    requires '\t' !in hash
    ensures Tail(Rehashed(field, hash)) == Tail(field)
       <==> || '\t' !in field
            || (ScramCredentials(field).Some?
                && field == WithScram(PasswordHash(field), ScramCredentials(field).value))
  {
    HashAndTail(field);
    HashAndTail(hash);
    BareHashHasNoScram(hash);
    if '\t' !in field {
      BareHashHasNoScram(field);
    }
    hide ScramCredentials, WithScram, Tail, PasswordHash;
    if ScramCredentials(field).Some? {
      var c, oldHash := ScramCredentials(field).value, PasswordHash(field);
      TailOfWithScram(hash, c);
      TailOfWithScram(oldHash, c);
      TailIsCut(oldHash, Columns(c), Tail(field));
    }
  }

  lemma TailIsCut(front: string, a: string, b: string)
    ensures front + a == front + b <==> a == b
  {
    assert (front + a)[|front|..] == a && (front + b)[|front|..] == b;
  }

  /** One extra column is lost. */
  lemma ExtraColumnIsLost(oldHash: string, note: string, hash: string)
    requires '\t' !in oldHash && '\t' !in note && '\t' !in hash
    ensures var field := oldHash + "\t" + note;
            Tail(field) == "\t" + note && Rehashed(field, hash) == hash && Tail(Rehashed(field, hash)) == ""
  {
    var field := oldHash + ['\t'] + note;
    IndexOfUnique(field, '\t', |oldHash|);
    assert field[|oldHash|..] == "\t" + note;
    SplitNPiece(oldHash, note, 5, '\t');
    IndexOfUnique(note, '\t', |note|);
    assert SplitN(note, 4, '\t') == [note];
    BareHashHasNoScram(hash);
    HashAndTail(hash);
  }

  lemma NoteIsLost()
    ensures Tail("$2b$old\tnote") == "\tnote" && Rehashed("$2b$old\tnote", "$2b$new") == "$2b$new"
  {
    hide *;
    assert "$2b$old" + "\t" + "note" == "$2b$old\tnote" && "\t" + "note" == "\tnote";
    ExtraColumnIsLost("$2b$old", "note", "$2b$new");
  }

  /** A column after the credentials makes these unreadable, and a password change drops both. */
  lemma SixthColumnLosesCredentials(oldHash: string, c: Credentials, note: string, hash: string)
    requires '\t' !in oldHash && '\t' !in hash
    ensures var field := WithScram(oldHash, c) + "\t" + note;
            ScramCredentials(field).None? && Rehashed(field, hash) == hash
  {
    hide *;
    var salt, n, stored, server := Encode(c.salt), Decimal(c.iterations), Encode(c.storedKey), Encode(c.serverKey);
    var last := server + ['\t'] + note;
    NoTabsInColumns(c);
    SplitNFive(oldHash, salt, n, stored, last, '\t');
    WithScramShape(oldHash, c);
    OneMoreColumn(oldHash, salt, n, stored, server, note);
    TabIsNotBase64(last);
    UnreadableServerKey(WithScram(oldHash, c) + "\t" + note, hash);
  }

  lemma OneMoreColumn(a: string, b: string, c: string, d: string, e: string, note: string)
    ensures (a + ['\t'] + (b + ['\t'] + (c + ['\t'] + (d + ['\t'] + e)))) + "\t" + note
            == a + ['\t'] + (b + ['\t'] + (c + ['\t'] + (d + ['\t'] + (e + ['\t'] + note))))
  {
  }

  lemma UnreadableServerKey(field: string, hash: string)
    requires |SplitN(field, 5, '\t')| == 5 && Decode(SplitN(field, 5, '\t')[4]).None?
    ensures ScramCredentials(field).None? && Rehashed(field, hash) == hash
  {
    hide SplitN, Decode, ParseUnsigned;
  }

  lemma TabIsNotBase64(s: string)
    requires '\t' in s
    ensures Decode(s).None?
  {
    if Decode(s).Some? {
      EncodeOfDecode(s);
      EncodingAlphabet(Decode(s).value, '\t');
    }
  }

  /** Deleting a user that was just created restores the map. */
  lemma DeleteUndoesCreate(s: Store, name: string, hash: string)
    requires name !in s.users
    ensures var created := Apply(s, Create(name, Some(hash), true)).0;
            Apply(created, Delete(name, true)) == (Store(s.users, SaveText(s.users)), Ok(()))
  {
    assert s.users[name := hash] - {name} == s.users;
  }
}
