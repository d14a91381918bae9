/** The password file and the admin operations on it. Password hashing and the file system are not
    modelled: a hash is given, or its absence, and so is whether a write succeeds. */
module PasswordFile {
  import opened Basics
  import opened Wrappers
  import opened Text
  import opened Base64

  type Users = map<string, string>

  // ---- Reading ------------------------------------------------------------------

  function StripCr(line: string): string {
    if line != "" && line[|line| - 1] == '\r' then line[..|line| - 1] else line
  }

  /** `contents.lines()`. */
  function TextLines(s: string): (lines: seq<string>)
    ensures forall i :: 0 <= i < |lines| ==> '\n' !in lines[i]
    decreases |s|
  {
    var k := IndexOf(s, '\n');
    if s == "" then []
    else if k == |s| then [s]
    else [StripCr(s[..k])] + TextLines(s[k + 1..])
  }

  predicate IsBcryptHash(hash: string) { "$2a$" <= hash || "$2b$" <= hash || "$2y$" <= hash }

  predicate IsArgon2Hash(hash: string) { "$argon2id$" <= hash || "$argon2i$" <= hash || "$argon2d$" <= hash }

  predicate IsPasswordHash(hash: string) { IsBcryptHash(hash) || IsArgon2Hash(hash) }

  /** The hash field up to its first tab. */
  function PasswordHash(field: string): string { field[..IndexOf(field, '\t')] }

  datatype Problem = NoColon | EmptyUsername | UnknownHash

  datatype LoadError = LoadError(line: nat, problem: Problem)

  datatype Line = Ignored | Entry(name: string, field: string) | Malformed(problem: Problem)

  function ReadLine(raw: string): Line {
    var line := Trim(raw);
    if line == "" || line[0] == '#' then Ignored
    else
      var colon := IndexOf(line, ':');
      if colon == |line| then Malformed(NoColon)
      else if colon == 0 then Malformed(EmptyUsername)
      else if !IsPasswordHash(PasswordHash(line[colon + 1..])) then Malformed(UnknownHash)
      else Entry(line[..colon], line[colon + 1..])
  }

  /** Reads `lines`, of which the first has number `n`; a later entry replaces an earlier one. */
  function LoadLines(lines: seq<string>, n: nat, users: Users): Result<Users, LoadError> {
    if lines == [] then Ok(users)
    else
      match ReadLine(lines[0])
      case Ignored => LoadLines(lines[1..], n + 1, users)
      case Malformed(problem) => Err(LoadError(n, problem))
      case Entry(name, field) => LoadLines(lines[1..], n + 1, users[name := field])
  }

  function Load(contents: string): Result<Users, LoadError> { LoadLines(TextLines(contents), 1, map[]) }

  method LoadUsers(contents: string) returns (r: Result<Users, LoadError>)
    ensures r == Load(contents)
  {
    var users: Users := map[];
    var lines := TextLines(contents);
    for i := 0 to |lines|
      invariant Load(contents) == LoadLines(lines[i..], i + 1, users)
    {
      hide Trim, IsPasswordHash, PasswordHash, TextLines, IndexOf;
      assert lines[i..][0] == lines[i] && lines[i..][1..] == lines[i + 1..];
      var line := Trim(lines[i]);
      if line == "" || line[0] == '#' {
        continue;
      }
      var colon := IndexOf(line, ':');
      if colon == |line| {
        return Err(LoadError(i + 1, NoColon));
      }
      var name, field := line[..colon], line[colon + 1..];
      if name == "" {
        return Err(LoadError(i + 1, EmptyUsername));
      }
      if !IsPasswordHash(PasswordHash(field)) {
        return Err(LoadError(i + 1, UnknownHash));
      }
      users := users[name := field];
    }
    return Ok(users);
  }

  // ---- Writing --------------------------------------------------------------------

  /** Order of strings: lexicographic by code point, which is also the order of their UTF-8 bytes. */
  predicate Less(a: string, b: string) {
    b != "" && (a == "" || a[0] < b[0] || (a[0] == b[0] && Less(a[1..], b[1..])))
  }

  /** Lexicographic: a proper prefix, or the smaller character at the first difference. */
  lemma {:induction false} LessMeans(a: string, b: string)
    ensures Less(a, b)
       <==> || (a <= b && |a| < |b|)
            || (exists k :: 0 <= k < |a| && k < |b| && a[..k] == b[..k] && a[k] < b[k])
  {
    if a != "" && b != "" && a[0] == b[0] {
      var x, y := a[1..], b[1..];
      LessMeans(x, y);
      assert a == [a[0]] + x && b == [a[0]] + y;
      if k :| 0 <= k < |x| && k < |y| && x[..k] == y[..k] && x[k] < y[k] {
        assert a[..k + 1] == [a[0]] + x[..k] && b[..k + 1] == [a[0]] + y[..k];
        assert a[k + 1] < b[k + 1];
      }
      if k :| 0 <= k < |a| && k < |b| && a[..k] == b[..k] && a[k] < b[k] {
        assert x[..k - 1] == a[..k][1..] && y[..k - 1] == b[..k][1..];
        assert x[k - 1] < y[k - 1];
      }
    } else if a != "" && b != "" && a[0] < b[0] {
      assert a[..0] == b[..0];
    } else if a != "" && b != "" {
      assert forall k :: 0 < k < |a| && k < |b| ==> a[..k][0] == a[0] && b[..k][0] == b[0];
    }
  }

  lemma {:induction false} LessIsTotal(a: string, b: string)
    ensures Less(a, b) || a == b || Less(b, a)
  {
    if a != "" && b != "" && a[0] == b[0] {
      LessIsTotal(a[1..], b[1..]);
      assert a == [a[0]] + a[1..] && b == [b[0]] + b[1..];
    }
  }

  lemma {:induction false} LessIsTransitive(a: string, b: string, c: string)
    requires Less(a, b) && Less(b, c)
    ensures Less(a, c)
  {
    if a != "" && a[0] == b[0] == c[0] {
      LessIsTransitive(a[1..], b[1..], c[1..]);
    }
  }

  lemma {:induction false} LessIsIrreflexive(a: string)
    ensures !Less(a, a)
  {
    if a != "" {
      LessIsIrreflexive(a[1..]);
    }
  }

  ghost predicate Increasing(names: seq<string>) {
    forall i, j :: 0 <= i < j < |names| ==> Less(names[i], names[j])
  }

  function Insert(name: string, names: seq<string>): (r: seq<string>)
    ensures forall x :: x in r <==> x == name || x in names
  {
    if names == [] then [name]
    else if Less(name, names[0]) then [name] + names
    else [names[0]] + Insert(name, names[1..])
  }

  lemma {:induction false} InsertKeepsOrder(name: string, names: seq<string>)
    requires Increasing(names) && name !in names
    ensures Increasing(Insert(name, names))
  {
    if names != [] {
      if Less(name, names[0]) {
        forall j | 0 < j < |names| ensures Less(name, names[j]) {
          LessIsTransitive(name, names[0], names[j]);
        }
      } else {
        LessIsTotal(name, names[0]);
        var rest := Insert(name, names[1..]);
        InsertKeepsOrder(name, names[1..]);
        forall j | 0 <= j < |rest| ensures Less(names[0], rest[j]) {
          assert rest[j] in rest;
        }
      }
    }
  }

  /** An increasing listing of a set is unique. */
  lemma {:induction false} ListingIsUnique(a: seq<string>, b: seq<string>)
    requires Increasing(a) && Increasing(b)
    requires forall x :: x in a <==> x in b
    ensures a == b
  {
    assert (|a| > 0 ==> a[0] in a) && (|b| > 0 ==> b[0] in b);
    if a != [] && b != [] {
      FirstIsLeast(a, b[0]);
      FirstIsLeast(b, a[0]);
      if a[0] != b[0] {
        LessIsTransitive(a[0], b[0], a[0]);
        LessIsIrreflexive(a[0]);
      }
      forall x ensures x in a[1..] <==> x in b[1..] {
        TailMembers(a, x);
        TailMembers(b, x);
      }
      ListingIsUnique(a[1..], b[1..]);
      assert a == [a[0]] + a[1..] && b == [b[0]] + b[1..];
    }
  }

  lemma FirstIsLeast(a: seq<string>, x: string)
    requires Increasing(a) && x in a
    ensures x == a[0] || Less(a[0], x)
  {
  }

  lemma TailMembers(a: seq<string>, x: string)
    requires Increasing(a) && a != []
    ensures x in a[1..] <==> x in a && x != a[0]
  {
    LessIsIrreflexive(a[0]);
    if x in a && x != a[0] {
      var i :| 0 <= i < |a| && a[i] == x;
      assert a[1..][i - 1] == x;
    }
  }

  ghost function SortedNames(keys: set<string>): (names: seq<string>)
    ensures Increasing(names) && forall x :: x in names <==> x in keys
  {
    if keys == {} then []
    else
      var name :| name in keys;
      var rest := SortedNames(keys - {name});
      InsertKeepsOrder(name, rest);
      Insert(name, rest)
  }

  /** Stands for collecting the keys of the map and sorting them. */
  method SortNames(keys: set<string>) returns (names: seq<string>)
    ensures names == SortedNames(keys)
  {
    names := [];
    var remaining := keys;
    while remaining != {}
      invariant remaining <= keys
      invariant Increasing(names) && forall x :: x in names <==> x in keys - remaining
      decreases |remaining|
    {
      var name :| name in remaining;
      InsertKeepsOrder(name, names);
      names := Insert(name, names);
      remaining := remaining - {name};
    }
    ListingIsUnique(names, SortedNames(keys));
  }

  function Render(names: seq<string>, users: Users): string
    requires forall x :: x in names ==> x in users
  {
    if names == [] then ""
    else Render(names[..|names| - 1], users) + RenderLine(names[|names| - 1], users[names[|names| - 1]])
  }

  function RenderLine(name: string, field: string): string { name + ":" + field + "\n" }

  /** The file contents for a user map. */
  ghost function SaveText(users: Users): string { Render(SortedNames(users.Keys), users) }

  method SaveUsers(users: Users) returns (contents: string)
    ensures contents == SaveText(users)
  {
    contents := "";
    var names := SortNames(users.Keys);
    for i := 0 to |names|
      invariant contents == Render(names[..i], users)
    {
      assert names[..i + 1][..i] == names[..i];
      contents := contents + (names[i] + ":" + users[names[i]] + "\n");
    }
    assert names[..|names|] == names;
  }

  // ---- Writing and reading back -------------------------------------------------------

  /** What an entry must look like to survive a restart. */
  predicate WellFormedEntry(name: string, field: string) {
    && name != "" && name[0] != '#' && !IsWhitespace(name[0]) && ':' !in name && '\n' !in name
    && '\n' !in field && IsPasswordHash(PasswordHash(field)) && !IsWhitespace(field[|field| - 1])
  }

  ghost predicate AllWellFormed(users: Users) {
    forall name :: name in users ==> WellFormedEntry(name, users[name])
  }

  function EntryText(name: string, field: string): string { name + ":" + field }

  lemma {:induction false} RenderFirst(names: seq<string>, users: Users)
    requires names != [] && forall x :: x in names ==> x in users
    ensures Render(names, users) == RenderLine(names[0], users[names[0]]) + Render(names[1..], users)
  {
    hide RenderLine;
    var last := |names| - 1;
    if last > 0 {
      RenderFirst(names[..last], users);
      assert names[..last][1..] == names[1..][..last - 1];
    } else {
      assert names[..0] == [] && names[1..] == [];
    }
  }

  lemma LineOfText(line: string, rest: string)
    requires '\n' !in line && line != "" && !IsWhitespace(line[|line| - 1])
    ensures TextLines(line + "\n" + rest) == [line] + TextLines(rest)
  {
    var s := line + "\n" + rest;
    IndexOfUnique(s, '\n', |line|);
    hide IndexOf;
    assert s[..|line|] == line;
    assert s[|line| + 1..] == rest;
  }

  lemma EntryTextParts(name: string, field: string)
    requires name != "" && field != "" && ':' !in name
    ensures var line := EntryText(name, field);
            && line[..|name|] == name && line[|name| + 1..] == field && IndexOf(line, ':') == |name| < |line|
            && line[0] == name[0] && line[|line| - 1] == field[|field| - 1]
  {
    IndexOfUnique(EntryText(name, field), ':', |name|);
    hide IndexOf;
  }

  lemma ReadOfEntry(name: string, field: string)
    requires WellFormedEntry(name, field)
    ensures ReadLine(EntryText(name, field)) == Entry(name, field)
  {
    PasswordHashIsNotEmpty(field);
    EntryTextParts(name, field);
    hide IndexOf, IsPasswordHash, PasswordHash, Trim, EntryText;
  }

  lemma EntryOfRead(raw: string)
    requires '\n' !in raw && ReadLine(raw).Entry?
    ensures WellFormedEntry(ReadLine(raw).name, ReadLine(raw).field)
  {
    hide Trim, IsPasswordHash, PasswordHash;
    var line := Trim(raw);
    var name, field := ReadLine(raw).name, ReadLine(raw).field;
    PasswordHashIsNotEmpty(field);
    assert '\n' !in line;
    assert line == EntryText(name, field);
    assert line[0] == name[0] && line[|line| - 1] == field[|field| - 1];
    assert forall c :: c in name || c in field ==> c in line;
  }

  lemma PasswordHashIsNotEmpty(field: string)
    requires IsPasswordHash(PasswordHash(field))
    ensures field != ""
  {
  }

  lemma {:induction false} LoadedEntriesAreWellFormed(lines: seq<string>, n: nat, users: Users)
    requires AllWellFormed(users) && forall i :: 0 <= i < |lines| ==> '\n' !in lines[i]
    ensures LoadLines(lines, n, users).Ok? ==> AllWellFormed(LoadLines(lines, n, users).value)
    decreases |lines|
  {
    if lines != [] {
      hide ReadLine, WellFormedEntry;
      match ReadLine(lines[0])
      case Ignored => LoadedEntriesAreWellFormed(lines[1..], n + 1, users);
      case Malformed(_) =>
      case Entry(name, field) =>
        EntryOfRead(lines[0]);
        LoadedEntriesAreWellFormed(lines[1..], n + 1, users[name := field]);
    }
  }

  // ---- Lines of a file ------------------------------------------------------------------

  /** What each of the six hashes that the server knows starts with. */
  lemma KnownHashes(hash: string)
    ensures IsPasswordHash(hash)
       <==> || "$2a$" <= hash || "$2b$" <= hash || "$2y$" <= hash
            || "$argon2id$" <= hash || "$argon2i$" <= hash || "$argon2d$" <= hash
  {
  }

  /** Blanks around an entry do not matter, nor do lines of blanks and lines that start with a number
      sign. */
  lemma PaddedLines(before: string, name: string, field: string, after: string, comment: string)
    requires AllWhitespace(before) && AllWhitespace(after)
    ensures WellFormedEntry(name, field) ==> ReadLine(before + EntryText(name, field) + after) == Entry(name, field)
    ensures ReadLine(before) == Ignored
    ensures comment != "" && comment[0] == '#' && !Untrimmed(comment) ==> ReadLine(before + comment + after) == Ignored
  {
    hide IsPasswordHash, PasswordHash, IndexOf, Trim;
    BlankIsTrimmed(before);
    if comment != "" && comment[0] == '#' && !Untrimmed(comment) {
      TrimOfPadded(before, comment, after);
    }
    if WellFormedEntry(name, field) {
      EntryIsPadded(before, name, field, after);
    }
  }

  lemma EntryIsPadded(before: string, name: string, field: string, after: string)
    requires AllWhitespace(before) && AllWhitespace(after) && WellFormedEntry(name, field)
    ensures ReadLine(before + EntryText(name, field) + after) == Entry(name, field)
  {
    var line := EntryText(name, field);
    PasswordHashIsNotEmpty(field);
    EntryTextParts(name, field);
    ReadOfEntry(name, field);
    hide *;
    assert !Untrimmed(line) by { EntryIsTrim(name, field); }
    TrimOfPadded(before, line, after);
    SameTrimSameLine(before + line + after, line);
  }

  lemma EntryIsTrim(name: string, field: string)
    requires WellFormedEntry(name, field)
    ensures !Untrimmed(EntryText(name, field))
  {
    PasswordHashIsNotEmpty(field);
    EntryTextParts(name, field);
    hide IsPasswordHash, PasswordHash, IsWhitespace, EntryText;
  }

  lemma SameTrimSameLine(raw: string, line: string)
    requires Trim(raw) == line && !Untrimmed(line)
    ensures ReadLine(raw) == ReadLine(line)
  {
    hide IsPasswordHash, PasswordHash, IndexOf, IsWhitespace;
  }

  /** What is wrong with a line that is neither ignored nor an entry. */
  lemma LineIsMalformedIff(line: string)
    requires line != "" && !Untrimmed(line) && line[0] != '#'
    ensures ReadLine(line) == Malformed(NoColon) <==> ':' !in line
    ensures ReadLine(line) == Malformed(EmptyUsername) <==> line[0] == ':'
    ensures forall name, field | line == name + [':'] + field && ':' !in name && name != "" ::
              if IsPasswordHash(PasswordHash(field)) then ReadLine(line) == Entry(name, field)
              else ReadLine(line) == Malformed(UnknownHash)
  {
    hide IsPasswordHash, PasswordHash, Trim;
    forall name, field | line == name + [':'] + field && ':' !in name && name != ""
      ensures IndexOf(line, ':') == |name| && line[..|name|] == name && line[|name| + 1..] == field
    {
      IndexOfUnique(line, ':', |name|);
    }
  }

  /** A file is read line after line: what follows some lines is read into their result, and its
      errors are counted on. So a later entry of a name replaces an earlier one. */
  lemma {:induction false} LoadAppend(a: seq<string>, b: seq<string>, n: nat, users: Users)
    ensures var front := LoadLines(a, n, users);
            LoadLines(a + b, n, users) == if front.Ok? then LoadLines(b, n + |a|, front.value) else front
    decreases |a|
  {
    LoadUnfolds(a, n, users);
    LoadUnfolds(a + b, n, users);
    hide ReadLine, LoadLines;
    if a == [] {
      assert a + b == b;
    } else {
      assert (a + b)[0] == a[0] && (a + b)[1..] == a[1..] + b && n + 1 + |a[1..]| == n + |a|;
      match ReadLine(a[0])
      case Ignored => LoadAppend(a[1..], b, n + 1, users);
      case Malformed(_) =>
      case Entry(name, field) => LoadAppend(a[1..], b, n + 1, users[name := field]);
    }
  }

  lemma LoadUnfolds(lines: seq<string>, n: nat, users: Users)
    ensures lines == [] ==> LoadLines(lines, n, users) == Ok(users)
    ensures lines != [] ==>
              LoadLines(lines, n, users)
              == match ReadLine(lines[0])
                 case Ignored => LoadLines(lines[1..], n + 1, users)
                 case Malformed(problem) => Err(LoadError(n, problem))
                 case Entry(name, field) => LoadLines(lines[1..], n + 1, users[name := field])
  {
    hide ReadLine;
  }

  lemma LastEntryWins(lines: seq<string>, name: string, field: string)
    requires WellFormedEntry(name, field) && LoadLines(lines, 1, map[]).Ok?
    ensures LoadLines(lines + [EntryText(name, field)], 1, map[])
            == Ok(LoadLines(lines, 1, map[]).value[name := field])
  {
    ReadOfEntry(name, field);
    LoadAppend(lines, [EntryText(name, field)], 1, map[]);
    hide ReadLine;
    assert [EntryText(name, field)][1..] == [];
  }

  /** The file of a single user is one line. */
  lemma FileOfOne(name: string, field: string)
    ensures SaveText(map[name := field]) == name + ":" + field + "\n"
  {
    var users: Users := map[name := field];
    assert Increasing([name]);
    ListingIsUnique(SortedNames(users.Keys), [name]);
    RenderFirst([name], users);
    assert [name][1..] == [];
  }

  /** `users`, with the entries of `names` taken from `source`. */
  function Merge(users: Users, names: seq<string>, source: Users): (r: Users)
    requires forall x :: x in names ==> x in source
    ensures r.Keys == users.Keys + set x | x in names
    ensures forall x :: x in r ==> r[x] == if x in names then source[x] else users[x]
    decreases |names|
  {
    if names == [] then users else Merge(users[names[0] := source[names[0]]], names[1..], source)
  }

  lemma {:induction false} LoadOfRender(names: seq<string>, source: Users, n: nat, users: Users)
    requires forall x :: x in names ==> x in source && WellFormedEntry(x, source[x])
    ensures LoadLines(TextLines(Render(names, source)), n, users) == Ok(Merge(users, names, source))
    decreases |names|
  {
    if names != [] {
      hide WellFormedEntry, ReadLine, TextLines, Render;
      var name := names[0];
      var field, rest := source[name], Render(names[1..], source);
      var line := EntryText(name, field);
      RenderFirst(names, source);
      assert RenderLine(name, field) + rest == line + "\n" + rest;
      WellFormedLine(name, field);
      LineOfText(line, rest);
      ReadOfEntry(name, field);
      assert ([line] + TextLines(rest))[1..] == TextLines(rest);
      LoadOfRender(names[1..], source, n + 1, users[name := field]);
    }
  }

  lemma WellFormedLine(name: string, field: string)
    requires WellFormedEntry(name, field)
    ensures var line := EntryText(name, field); '\n' !in line && line != "" && !IsWhitespace(line[|line| - 1])
  {
    var line := EntryText(name, field);
    assert line[|line| - 1] == field[|field| - 1];
  }

  /** Reading back what was written gives the same map exactly when every entry is well-formed. */
  lemma LoadUndoesSaveIff(users: Users)
    ensures Load(SaveText(users)) == Ok(users) <==> AllWellFormed(users)
  {
    hide WellFormedEntry, Render;
    if AllWellFormed(users) {
      LoadOfRender(SortedNames(users.Keys), users, 1, map[]);
      assert Merge(map[], SortedNames(users.Keys), users) == users;
    }
    LoadedEntriesAreWellFormed(TextLines(SaveText(users)), 1, map[]);
  }

  lemma TextOfOne(name: string, field: string)
    requires '\n' !in name && '\n' !in field && field != "" && !IsWhitespace(field[|field| - 1])
    ensures TextLines(SaveText(map[name := field])) == [EntryText(name, field)]
  {
    var users: Users := map[name := field];
    assert Increasing([name]);
    ListingIsUnique(SortedNames(users.Keys), [name]);
    RenderFirst([name], users);
    assert [name][1..] == [];
    var line := EntryText(name, field);
    assert SaveText(users) == line + "\n" + "";
    assert line[|line| - 1] == field[|field| - 1];
    LineOfText(line, "");
  }

  /** An entry that is written to one line but read as a comment. */
  predicate Commented(name: string, field: string) {
    && '\n' !in name && '\n' !in field && field != "" && !IsWhitespace(field[|field| - 1])
    && name != "" && name[0] == '#'
  }

  lemma CommentIsIgnored(name: string, field: string)
    requires Commented(name, field)
    ensures ReadLine(EntryText(name, field)) == Ignored
    ensures var line := EntryText(name, field); '\n' !in line && line != "" && !IsWhitespace(line[|line| - 1])
  {
    var line := EntryText(name, field);
    assert line[0] == '#' && line[|line| - 1] == field[|field| - 1];
  }

  predicate IsComment(name: string) { name != "" && name[0] == '#' }

  /** The names that are not read as comments. */
  function Uncommented(names: seq<string>): (r: seq<string>)
    ensures forall x :: x in r <==> x in names && !IsComment(x)
  {
    if names == [] then []
    else if IsComment(names[0]) then Uncommented(names[1..])
    else [names[0]] + Uncommented(names[1..])
  }

  lemma {:induction false} LoadSkipsComments(names: seq<string>, source: Users, n: nat, users: Users)
    requires forall x :: x in names ==> x in source && (WellFormedEntry(x, source[x]) || Commented(x, source[x]))
    ensures LoadLines(TextLines(Render(names, source)), n, users) == Ok(Merge(users, Uncommented(names), source))
    decreases |names|
  {
    if names != [] {
      hide WellFormedEntry, Commented, ReadLine, TextLines, Render;
      var name := names[0];
      var field, rest := source[name], Render(names[1..], source);
      var line := EntryText(name, field);
      RenderFirst(names, source);
      assert RenderLine(name, field) + rest == line + "\n" + rest;
      assert ([line] + TextLines(rest))[1..] == TextLines(rest);
      if Commented(name, field) {
        CommentIsIgnored(name, field);
        CommentedIsComment(name, field);
        LineOfText(line, rest);
        LoadSkipsComments(names[1..], source, n + 1, users);
      } else {
        WellFormedLine(name, field);
        NotAComment(name, field);
        LineOfText(line, rest);
        ReadOfEntry(name, field);
        LoadSkipsComments(names[1..], source, n + 1, users[name := field]);
        assert ([name] + Uncommented(names[1..]))[1..] == Uncommented(names[1..]);
      }
    }
  }

  lemma CommentedIsComment(name: string, field: string)
    requires Commented(name, field)
    ensures IsComment(name)
  {
  }

  lemma NotAComment(name: string, field: string)
    requires WellFormedEntry(name, field)
    ensures !IsComment(name)
  {
  }

  lemma MergedNames(names: seq<string>, users: Users)
    requires forall x :: x in names <==> x in users
    ensures Merge(map[], Uncommented(names), users) == map x | x in users && !IsComment(x) :: users[x]
  {
    hide Merge, Uncommented, IsComment;
    var r := Merge(map[], Uncommented(names), users);
    assert forall x :: x in r <==> x in users && !IsComment(x);
  }

  /** Users whose names start with a number sign are gone after a restart, and nobody else is. */
  lemma CommentedNamesAreDropped(users: Users)
    requires forall x :: x in users ==> WellFormedEntry(x, users[x]) || Commented(x, users[x])
    ensures Load(SaveText(users)) == Ok(map x | x in users && !IsComment(x) :: users[x])
  {
    hide WellFormedEntry, Commented, Render, TextLines, Merge, Uncommented, LoadLines, IsComment;
    var names := SortedNames(users.Keys);
    LoadSkipsComments(names, users, 1, map[]);
    MergedNames(names, users);
  }

  lemma FirstLine(s: string, k: nat)
    requires k < |s| && s[k] == '\n' && forall i :: 0 <= i < k ==> s[i] != '\n'
    ensures TextLines(s) == [StripCr(s[..k])] + TextLines(s[k + 1..])
  {
    IndexOfUnique(s, '\n', k);
    hide IndexOf, StripCr;
  }

  lemma CutAppend(a: string, b: string, k: nat)
    requires k < |a|
    ensures (a + b)[k] == a[k] && (forall i :: 0 <= i < k ==> (a + b)[i] == a[i])
    ensures (a + b)[k + 1..] == a[k + 1..] + b && (a + b)[..k] == a[..k]
    ensures a[k + 1..] != "" ==> a[k + 1..][|a| - k - 2] == a[|a| - 1]
  {
  }

  lemma {:induction false} TextLinesAppend(a: string, b: string)
    requires a == "" || a[|a| - 1] == '\n'
    ensures TextLines(a + b) == TextLines(a) + TextLines(b)
    decreases |a|
  {
    if a == "" {
      assert a + b == b && TextLines(a) == [];
    } else {
      hide *;
      var k := IndexOf(a, '\n');
      FirstLine(a, k);
      FirstLine(a + b, k);
      var rest := a[k + 1..];
      CutAppend(a, b, k);
      TextLinesAppend(rest, b);
      Regroup([StripCr(a[..k])], TextLines(rest), TextLines(b));
    }
  }

  lemma RenderEndsLines(names: seq<string>, users: Users)
    requires forall x :: x in names ==> x in users
    ensures var s := Render(names, users); s == "" || s[|s| - 1] == '\n'
  {
  }

  /** An entry that has no line feed is a line of the file, whatever the other entries are. */
  lemma {:induction false} EntryIsALine(names: seq<string>, users: Users, name: string)
    requires (forall x :: x in names ==> x in users) && name in names
    requires var line := EntryText(name, users[name]);
             '\n' !in line && line != "" && !IsWhitespace(line[|line| - 1])
    ensures EntryText(name, users[name]) in TextLines(Render(names, users))
  {
    var front, last := names[..|names| - 1], names[|names| - 1];
    assert names == front + [last];
    var before, line := Render(front, users), RenderLine(last, users[last]);
    RenderEndsLines(front, users);
    TextLinesAppend(before, line);
    hide TextLines, Render;
    if last == name {
      LineOfText(EntryText(name, users[name]), "");
      assert line == EntryText(name, users[name]) + "\n" + "";
    } else {
      EntryIsALine(front, users, name);
    }
  }

  lemma {:induction false} MalformedLineFails(lines: seq<string>, n: nat, users: Users, line: string)
    requires line in lines && ReadLine(line).Malformed?
    ensures LoadLines(lines, n, users).Err?
    decreases |lines|
  {
    hide ReadLine;
    match ReadLine(lines[0])
    case Ignored => MalformedLineFails(lines[1..], n + 1, users, line);
    case Malformed(_) =>
    case Entry(name, field) => MalformedLineFails(lines[1..], n + 1, users[name := field], line);
  }

  /** A name with a colon makes the whole file unreadable, whoever else is in it, unless what
      follows the colon looks like a password hash itself. */
  lemma ColonNameBreaksTheFile(users: Users, before: string, after: string)
    requires before + ":" + after in users
    requires var field := users[before + ":" + after];
             && '\n' !in before && '\n' !in after && '\n' !in field && field != "" && !IsWhitespace(field[|field| - 1])
             && !IsPasswordHash(PasswordHash(after + ":" + field))
    requires before != "" && before[0] != '#' && !IsWhitespace(before[0]) && ':' !in before
    ensures Load(SaveText(users)).Err?
  {
    var name := before + ":" + after;
    var field := users[name];
    hide SaveText, TextLines, ReadLine, IsPasswordHash, PasswordHash, EntryText, LoadLines, IsWhitespace;
    ColonText(before, after, field);
    ColonLineIsMalformed(before, after + ":" + field);
    SavedEntryIsALine(users, name);
    MalformedLineFails(TextLines(SaveText(users)), 1, map[], EntryText(name, field));
  }

  lemma ColonText(before: string, after: string, field: string)
    requires '\n' !in before && '\n' !in after && '\n' !in field && field != "" && !IsWhitespace(field[|field| - 1])
    ensures var line, rest := EntryText(before + ":" + after, field), after + ":" + field;
            && line == EntryText(before, rest) && '\n' !in line && line != "" && !IsWhitespace(line[|line| - 1])
            && rest != "" && !IsWhitespace(rest[|rest| - 1])
  {
    var line, rest := EntryText(before + ":" + after, field), after + ":" + field;
    assert line[|line| - 1] == field[|field| - 1] && rest[|rest| - 1] == field[|field| - 1];
  }

  lemma SavedEntryIsALine(users: Users, name: string)
    requires name in users
    requires var line := EntryText(name, users[name]);
             '\n' !in line && line != "" && !IsWhitespace(line[|line| - 1])
    ensures EntryText(name, users[name]) in TextLines(SaveText(users))
  {
    hide TextLines, Render;
    EntryIsALine(SortedNames(users.Keys), users, name);
  }

  /** For a single user the error is known. */
  lemma ColonNameIsReported(before: string, after: string, field: string)
    requires '\n' !in before && '\n' !in after && '\n' !in field && field != "" && !IsWhitespace(field[|field| - 1])
    requires before != "" && before[0] != '#' && !IsWhitespace(before[0]) && ':' !in before
    requires !IsPasswordHash(PasswordHash(after + ":" + field))
    ensures Load(SaveText(map[before + ":" + after := field])) == Err(LoadError(1, UnknownHash))
  {
    TextOfOne(before + ":" + after, field);
    hide SaveText, TextLines, ReadLine, IsPasswordHash, PasswordHash, EntryText;
    ColonText(before, after, field);
    ColonLineIsMalformed(before, after + ":" + field);
  }

  lemma ColonLineIsMalformed(before: string, rest: string)
    requires before != "" && before[0] != '#' && !IsWhitespace(before[0]) && ':' !in before
    requires rest != "" && !IsWhitespace(rest[|rest| - 1]) && !IsPasswordHash(PasswordHash(rest))
    ensures ReadLine(EntryText(before, rest)) == Malformed(UnknownHash)
  {
    hide IsPasswordHash, PasswordHash, IndexOf, Trim;
    var line := EntryText(before, rest);
    assert line[0] == before[0] && line[|line| - 1] == rest[|rest| - 1];
    IndexOfUnique(line, ':', |before|);
    assert line[|before| + 1..] == rest;
  }

  // ---- SCRAM columns -----------------------------------------------------------------------

  type u32 = x: nat | x <= U32_MAX

  datatype Credentials = Credentials(salt: seq<byte>, iterations: u32, storedKey: seq<byte>, serverKey: seq<byte>)

  /** `s.splitn(n, sep)`: the last piece keeps its separators. */
  function SplitN(s: string, n: nat, sep: char): (parts: seq<string>)
    requires n >= 1
    ensures 1 <= |parts| <= n
    decreases n
  {
    var k := IndexOf(s, sep);
    if n == 1 || k == |s| then [s] else [s[..k]] + SplitN(s[k + 1..], n - 1, sep)
  }

  function ScramCredentials(field: string): Option<Credentials> {
    var parts := SplitN(field, 5, '\t');
    if |parts| < 5 then None
    else
      var salt, iterations := Decode(parts[1]), ParseUnsigned(parts[2], U32_MAX);
      var storedKey, serverKey := Decode(parts[3]), Decode(parts[4]);
      if salt.None? || iterations.None? || storedKey.None? || serverKey.None? then None
      else if |storedKey.value| != 32 || |serverKey.value| != 32 || salt.value == [] then None
      else Some(Credentials(salt.value, iterations.value, storedKey.value, serverKey.value))
  }

  function WithScram(hash: string, c: Credentials): string {
    hash + "\t" + Encode(c.salt) + "\t" + Decimal(c.iterations)
    + "\t" + Encode(c.storedKey) + "\t" + Encode(c.serverKey)
  }

  predicate ValidCredentials(c: Credentials) { |c.storedKey| == 32 && |c.serverKey| == 32 && c.salt != [] }

  lemma SplitNPiece(head: string, rest: string, n: nat, sep: char)
    requires sep !in head && n > 1
    ensures SplitN(head + [sep] + rest, n, sep) == [head] + SplitN(rest, n - 1, sep)
  {
    var s := head + [sep] + rest;
    IndexOfUnique(s, sep, |head|);
    hide IndexOf;
    assert s[..|head|] == head && s[|head| + 1..] == rest;
  }

  lemma SplitNFive(a: string, b: string, c: string, d: string, e: string, sep: char)
    requires sep !in a && sep !in b && sep !in c && sep !in d
    ensures SplitN(a + [sep] + (b + [sep] + (c + [sep] + (d + [sep] + e))), 5, sep) == [a, b, c, d, e]
  {
    var s3 := d + [sep] + e;
    var s2 := c + [sep] + s3;
    var s1 := b + [sep] + s2;
    assert SplitN(e, 1, sep) == [e];
    hide SplitN;
    assert [a] + ([b] + ([c] + ([d] + [e]))) == [a, b, c, d, e];
    SplitNPiece(a, s1, 5, sep);
    SplitNPiece(b, s2, 4, sep);
    SplitNPiece(c, s3, 3, sep);
    SplitNPiece(d, e, 2, sep);
  }

  lemma ScramColumns(hash: string, c: Credentials)
    requires '\t' !in hash
    ensures SplitN(WithScram(hash, c), 5, '\t')
            == [hash, Encode(c.salt), Decimal(c.iterations), Encode(c.storedKey), Encode(c.serverKey)]
  {
    hide *;
    var salt, n, stored, server := Encode(c.salt), Decimal(c.iterations), Encode(c.storedKey), Encode(c.serverKey);
    NoTabsInColumns(c);
    SplitNFive(hash, salt, n, stored, server, '\t');
    WithScramShape(hash, c);
  }

  lemma NoTabsInColumns(c: Credentials)
    ensures '\t' !in Encode(c.salt) && '\t' !in Decimal(c.iterations) && '\t' !in Encode(c.storedKey)
    ensures '\n' !in Encode(c.salt) && '\n' !in Decimal(c.iterations) && '\n' !in Encode(c.storedKey)
    ensures '\n' !in Encode(c.serverKey)
  {
    hide Encode, Decimal;
    EncodingAlphabet(c.salt, '\t');
    EncodingAlphabet(c.storedKey, '\t');
    DecimalHasOnlyDigits(c.iterations, '\t');
    EncodingAlphabet(c.salt, '\n');
    EncodingAlphabet(c.storedKey, '\n');
    EncodingAlphabet(c.serverKey, '\n');
    DecimalHasOnlyDigits(c.iterations, '\n');
  }

  lemma WithScramShape(hash: string, c: Credentials)
    ensures WithScram(hash, c)
            == hash + ['\t'] + (Encode(c.salt) + ['\t'] + (Decimal(c.iterations) + ['\t']
                                  + (Encode(c.storedKey) + ['\t'] + Encode(c.serverKey))))
  {
    hide Encode, Decimal;
  }

  /** Stored credentials are read back, and the password hash stays, exactly when the keys have 32
      bytes and the salt is not empty. */
  lemma ScramUndoesWithScramIff(hash: string, c: Credentials)
    requires '\t' !in hash
    ensures ScramCredentials(WithScram(hash, c)) == Some(c) <==> ValidCredentials(c)
    ensures !ValidCredentials(c) ==> ScramCredentials(WithScram(hash, c)).None?
    ensures PasswordHash(WithScram(hash, c)) == hash
  {
    ScramColumns(hash, c);
    WithScramShape(hash, c);
    var field := WithScram(hash, c);
    IndexOfUnique(field, '\t', |hash|);
    hide Encode, Decode, Decimal, ParseUnsigned, SplitN, IndexOf, WithScram;
    assert field[..|hash|] == hash;
    DecodeOfEncode(c.salt);
    DecodeOfEncode(c.storedKey);
    DecodeOfEncode(c.serverKey);
    ParseOfDecimal(c.iterations, U32_MAX);
  }
}
