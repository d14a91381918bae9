/** Splitting an appended message into header lines and body. The text is the decoded form of
    valid UTF-8 data, so positions are character positions. */
module MessageData {
  import opened Wrappers
  import opened Text

  const CRLF: string := ['\U{000D}', '\n']
  const BLANK_LINE: string := ['\U{000D}', '\n', '\U{000D}', '\n']

  /** `s.split("\r\n")`. */
  function Lines(s: string): (lines: seq<string>)
    ensures |lines| >= 1
    decreases |s|
  {
    match Find(s, CRLF)
    case None => [s]
    case Some(k) => [s[..k]] + Lines(s[k + 2..])
  }

  function Header(line: string): seq<(string, string)> {
    var k := IndexOf(line, ':');
    if k < |line| then [(Trim(line[..k]), Trim(line[k + 1..]))] else []
  }

  /** The name and value of every line that has a colon, in order. */
  function Headers(lines: seq<string>): seq<(string, string)> {
    if lines == [] then [] else Headers(lines[..|lines| - 1]) + Header(lines[|lines| - 1])
  }

  predicate StartsWithCrlf(s: string) { OccursAt(s, CRLF, 0) }

  predicate EndsWithCrlf(s: string) { OccursAt(s, CRLF, |s| - 2) }

  /** Where the body starts once an empty line was seen. */
  function BodyStart(data: string): (k: nat)
    ensures k <= |data|
  {
    match Find(data, BLANK_LINE)
    case Some(k) => k + 4
    case None => |data|
  }

  /** The loop over lines and the search for the blank line, as the server performs them. */
  method ParseMessageData(data: string) returns (headers: seq<(string, string)>, body: string)
    ensures (headers, body) == Parsed(data)
  {
    hide Find, Lines, Header, Parsed, StopsAt, BodyStart;
    var bodyStart := 0;
    var lines := Lines(data);
    headers := [];
    var i := 0;
    while i < |lines|
      invariant 0 <= i <= |lines| && bodyStart == 0
      invariant headers == Headers(lines[..i])
      invariant forall j :: 0 <= j < i ==> lines[j] != ""
    {
      var line := lines[i];
      if line == "" {
        bodyStart := BodyStart(data);
        break;
      }
      headers := headers + Header(line);
      assert lines[..i + 1][..i] == lines[..i];
      i := i + 1;
    }
    body := if bodyStart < |data| then data[bodyStart..] else "";
    LoopMeetsParsed(data, i);
  }

  lemma LoopMeetsParsed(data: string, i: nat)
    requires i <= |Lines(data)|
    requires forall j :: 0 <= j < i ==> Lines(data)[j] != ""
    requires i < |Lines(data)| ==> Lines(data)[i] == ""
    ensures Parsed(data).0 == Headers(Lines(data)[..i])
    ensures var start := if i < |Lines(data)| then BodyStart(data) else 0;
            Parsed(data).1 == if start < |data| then data[start..] else ""
  {
    hide Find, Lines, Header;
    var k := LocateFirstEmptyLine(data);
    var lines := Lines(data);
    assert i == k && lines[..0] == [] && lines[..|lines|] == lines;
    assert data[0..] == data && data[|data|..] == "";
  }

  /** What the parser returns, by the position of the first blank line. */
  ghost function Parsed(data: string): (seq<(string, string)>, string) {
    var blank := Find(data, BLANK_LINE);
    if StartsWithCrlf(data) || data == "" then
      ([], if blank.Some? then data[blank.value + 4..] else "")
    else if blank.Some? then
      (Headers(Lines(data[..blank.value])), data[blank.value + 4..])
    else if EndsWithCrlf(data) then
      (Headers(Lines(data[..|data| - 2])), "")
    else
      (Headers(Lines(data)), data)
  }

  /** Where the loop stops: at the first empty line, which these four cases locate. */
  ghost predicate StopsAt(data: string, i: nat) {
    var lines := Lines(data);
    var blank := Find(data, BLANK_LINE);
    && i <= |lines|
    && (if StartsWithCrlf(data) || data == "" then i == 0
        else if blank.Some? then i < |lines| && lines[..i] == Lines(data[..blank.value])
        else if EndsWithCrlf(data) then i < |lines| && lines[..i] == Lines(data[..|data| - 2])
        else i == |lines|)
    && (i < |lines| ==> lines[i] == "")
    && forall j :: 0 <= j < i ==> lines[j] != ""
  }

  lemma OccurrenceOfCrlf(s: string, k: int)
    ensures OccursAt(s, CRLF, k) <==> 0 <= k && k + 2 <= |s| && s[k] == '\U{000D}' && s[k + 1] == '\n'
    ensures OccursAt(s, BLANK_LINE, k) <==> OccursAt(s, CRLF, k) && OccursAt(s, CRLF, k + 2)
  {
    if 0 <= k && k + 4 <= |s| {
      assert s[k..k + 4] == s[k..k + 2] + s[k + 2..k + 4];
      assert BLANK_LINE == CRLF + CRLF;
      assert s[k..k + 4] == BLANK_LINE ==> s[k..k + 2] == s[k..k + 4][..2] && s[k + 2..k + 4] == s[k..k + 4][2..];
    }
    if 0 <= k && k + 2 <= |s| {
      assert s[k..k + 2] == [s[k], s[k + 1]];
    }
  }

  /** Occurrences move with the text: into what follows position `d`, and into a longer prefix. */
  lemma OccurrencesMove(s: string, d: nat, n: nat)
    requires d <= |s| && n <= |s|
    ensures forall k :: d <= k ==> (OccursAt(s, CRLF, k) <==> OccursAt(s[d..], CRLF, k - d))
    ensures forall k :: k + 2 <= n ==> (OccursAt(s, CRLF, k) <==> OccursAt(s[..n], CRLF, k))
  {
    forall k
      ensures d <= k ==> (OccursAt(s, CRLF, k) <==> OccursAt(s[d..], CRLF, k - d))
      ensures k + 2 <= n ==> (OccursAt(s, CRLF, k) <==> OccursAt(s[..n], CRLF, k))
    {
      OccurrenceOfCrlf(s, k);
      OccurrenceOfCrlf(s[d..], k - d);
      OccurrenceOfCrlf(s[..n], k);
    }
  }

  ghost predicate FirstCrlf(s: string, k: nat) {
    OccursAt(s, CRLF, k) && forall j :: 0 <= j < k ==> !OccursAt(s, CRLF, j)
  }

  lemma PrefixKeepsFirst(s: string, k: nat, n: nat)
    requires FirstCrlf(s, k) && k + 2 <= n <= |s|
    ensures FirstCrlf(s[..n], k)
    ensures forall j :: !OccursAt(s[..k], CRLF, j)
  {
    OccurrencesMove(s, 0, n);
    OccurrencesMove(s, 0, k);
    forall j
      ensures !OccursAt(s[..k], CRLF, j)
    {
      OccurrenceOfCrlf(s[..k], j);
    }
  }

  lemma LinesAfterFirst(s: string, k: nat, n: nat)
    requires FirstCrlf(s, k) && k + 2 <= n <= |s|
    ensures Lines(s[..n]) == [s[..k]] + Lines(s[k + 2..n])
    ensures Lines(s[..k]) == [s[..k]]
  {
    PrefixKeepsFirst(s, k, n);
    hide OccursAt;
    assert Find(s[..n], CRLF) == Some(k);
    assert s[..n][..k] == s[..k] && s[..n][k + 2..] == s[k + 2..n];
  }

  /** The blank line and the trailing CRLF of the text are those of what follows its first line. */
  lemma AfterFirstLine(s: string, k: nat)
    requires FirstCrlf(s, k) && k + 2 <= |s| && s[k + 2..] != "" && !StartsWithCrlf(s[k + 2..])
    ensures var rest := s[k + 2..];
            && EndsWithCrlf(s) == EndsWithCrlf(rest)
            && Find(s, BLANK_LINE) == match Find(rest, BLANK_LINE)
                                      case Some(b) => Some(b + k + 2)
                                      case None => None
  {
    var rest := s[k + 2..];
    forall j
      ensures OccursAt(s, BLANK_LINE, j) <==> OccursAt(rest, BLANK_LINE, j - (k + 2))
    {
      BlankMoves(s, k, j);
    }
    SameFirst(s, rest, k + 2);
    EndMoves(s, k);
  }

  lemma EndMoves(s: string, k: nat)
    requires OccursAt(s, CRLF, k) && s[k + 2..] != ""
    ensures EndsWithCrlf(s) == EndsWithCrlf(s[k + 2..])
  {
    var rest := s[k + 2..];
    OccurrenceOfCrlf(s, k);
    OccurrenceOfCrlf(s, |s| - 2);
    OccurrenceOfCrlf(rest, |rest| - 2);
  }

  lemma BlankMoves(s: string, k: nat, j: int)
    requires FirstCrlf(s, k) && k + 2 <= |s| && !StartsWithCrlf(s[k + 2..])
    ensures OccursAt(s, BLANK_LINE, j) <==> OccursAt(s[k + 2..], BLANK_LINE, j - (k + 2))
  {
    var rest := s[k + 2..];
    OccurrencesMove(s, k + 2, 0);
    OccurrenceOfCrlf(s, k);
    OccurrenceOfCrlf(s, j);
    OccurrenceOfCrlf(rest, j - (k + 2));
    hide OccursAt;
    assert OccursAt(s, CRLF, k + 2) ==> OccursAt(rest, CRLF, 0);
    if j >= k + 2 {
      assert OccursAt(s, CRLF, j) <==> OccursAt(rest, CRLF, j - (k + 2));
      assert OccursAt(s, CRLF, j + 2) <==> OccursAt(rest, CRLF, j + 2 - (k + 2));
    }
  }

  lemma SameFirst(s: string, rest: string, d: nat)
    requires forall j :: OccursAt(s, BLANK_LINE, j) <==> OccursAt(rest, BLANK_LINE, j - d)
    ensures Find(s, BLANK_LINE) == match Find(rest, BLANK_LINE)
                                   case Some(b) => Some(b + d)
                                   case None => None
  {
    var f, g := Find(s, BLANK_LINE), Find(rest, BLANK_LINE);
    if f.Some? {
      assert OccursAt(rest, BLANK_LINE, f.value - d);
    }
    if g.Some? {
      assert OccursAt(s, BLANK_LINE, g.value + d);
    }
  }

  /** The search for the blank line and the loop over the lines agree on where headers end. */
  lemma {:induction false} LocateFirstEmptyLine(data: string) returns (i: nat)
    ensures StopsAt(data, i)
    decreases |data|
  {
    var first := Find(data, CRLF);
    if first.None? || first.value == 0 {
      i := if data == "" || first.Some? then 0 else 1;
      BlankNeedsCrlf(data);
    } else {
      var k := first.value;
      var rest := data[k + 2..];
      NotAtStart(data, k);
      LinesAfterFirst(data, k, |data|);
      assert data[..|data|] == data;
      i := LocateFirstEmptyLine(rest);
      i := i + 1;
      StepBack(data, k, i - 1);
    }
  }

  lemma BlankNeedsCrlf(data: string)
    ensures Find(data, CRLF).None? ==> Find(data, BLANK_LINE).None? && !EndsWithCrlf(data) && !StartsWithCrlf(data)
    ensures Find(data, CRLF) == Some(0) <==> StartsWithCrlf(data)
  {
    var blank := Find(data, BLANK_LINE);
    if blank.Some? {
      OccurrenceOfCrlf(data, blank.value);
    }
  }

  lemma NotAtStart(data: string, k: nat)
    requires FirstCrlf(data, k) && k > 0
    ensures !StartsWithCrlf(data) && data != "" && k + 2 <= |data|
  {
  }

  lemma StepBack(data: string, k: nat, i: nat)
    requires FirstCrlf(data, k) && k > 0 && k + 2 <= |data|
    requires Lines(data) == [data[..k]] + Lines(data[k + 2..])
    requires StopsAt(data[k + 2..], i)
    ensures StopsAt(data, i + 1)
  {
    hide Lines, Find, OccursAt, FirstCrlf, StartsWithCrlf, EndsWithCrlf;
    NotAtStart(data, k);
    var rest := data[k + 2..];
    assert Lines(data)[..i + 1] == [data[..k]] + Lines(rest)[..i];
    if rest == "" || StartsWithCrlf(rest) {
      FirstLineThenBlank(data, k);
    } else {
      AfterFirstLine(data, k);
      var blank := Find(rest, BLANK_LINE);
      MarksAreInside(rest);
      if blank.Some? {
        StepBackPrefix(data, k, blank.value);
      } else if EndsWithCrlf(rest) {
        StepBackPrefix(data, k, |rest| - 2);
      }
    }
  }

  lemma MarksAreInside(s: string)
    ensures Find(s, BLANK_LINE).Some? ==> Find(s, BLANK_LINE).value + 4 <= |s|
    ensures EndsWithCrlf(s) ==> 2 <= |s|
  {
  }

  /** A prefix of the text is its first line and a prefix of what follows. */
  lemma StepBackPrefix(data: string, k: nat, n: nat)
    requires FirstCrlf(data, k) && k + 2 + n <= |data|
    ensures Lines(data[..n + k + 2]) == [data[..k]] + Lines(data[k + 2..][..n])
  {
    LinesAfterFirst(data, k, n + k + 2);
    assert data[k + 2..n + k + 2] == data[k + 2..][..n];
  }

  lemma FirstLineThenBlank(data: string, k: nat)
    requires FirstCrlf(data, k) && k > 0 && k + 2 <= |data|
    requires data[k + 2..] == "" || StartsWithCrlf(data[k + 2..])
    ensures StartsWithCrlf(data[k + 2..]) ==> Find(data, BLANK_LINE) == Some(k)
    ensures data[k + 2..] == "" ==> Find(data, BLANK_LINE) == None && EndsWithCrlf(data) && |data| - 2 == k
    ensures Lines(data[..k]) == [data[..k]]
  {
    LinesAfterFirst(data, k, k + 2);
    OccurrencesMove(data, k + 2, 0);
    OccurrenceOfCrlf(data, k);
    var blank := Find(data, BLANK_LINE);
    if blank.Some? {
      OccurrenceOfCrlf(data, blank.value);
    }
  }

  // ---- Lines and headers -------------------------------------------------------------

  function JoinLines(lines: seq<string>): string
    requires |lines| >= 1
  {
    if |lines| == 1 then lines[0] else lines[0] + CRLF + JoinLines(lines[1..])
  }

  /** The lines are what is between the line ends: none contains one, and joined they are the text. */
  lemma {:induction false} LinesMakeUpText(s: string)
    ensures JoinLines(Lines(s)) == s
    ensures forall i, k :: 0 <= i < |Lines(s)| ==> !OccursAt(Lines(s)[i], CRLF, k)
    decreases |s|
  {
    var found := Find(s, CRLF);
    if found.Some? {
      var k := found.value;
      var rest := Lines(s[k + 2..]);
      LinesMakeUpText(s[k + 2..]);
      PrefixKeepsFirst(s, k, |s|);
      hide OccursAt, Find;
      assert ([s[..k]] + rest)[1..] == rest;
      assert s == s[..k] + s[k..k + 2] + s[k + 2..] && s[k..k + 2] == CRLF by { OccurrenceOfCrlf(s, k); }
    }
  }

  /** A header is what is before the first colon and what is after it, in this order, each without
      the blanks around it; a line without a colon is none. */
  lemma HeaderOfLine(name: string, value: string, line: string)
    requires ':' !in name
    ensures Header(name + [':'] + value) == [(Trim(name), Trim(value))]
    ensures ':' !in line ==> Header(line) == []
  {
    var whole := name + [':'] + value;
    IndexOfUnique(whole, ':', |name|);
    hide IndexOf, Trim;
    assert whole[..|name|] == name && whole[|name| + 1..] == value;
  }

  lemma {:induction false} HeadersAppend(a: seq<string>, b: seq<string>)
    ensures Headers(a + b) == Headers(a) + Headers(b)
  {
    hide Headers, Header;
    if b == [] {
      assert a + b == a;
      NoHeaders();
      assert Headers(a) + [] == Headers(a);
    } else {
      var front, last := b[..|b| - 1], b[|b| - 1];
      HeadersAppend(a, front);
      HeadersSnoc(a + front, last);
      HeadersSnoc(front, last);
      assert a + b == (a + front) + [last] && b == front + [last];
    }
  }

  lemma NoHeaders()
    ensures Headers([]) == []
  {
  }

  lemma HeadersSnoc(lines: seq<string>, last: string)
    ensures Headers(lines + [last]) == Headers(lines) + Header(last)
  {
    hide Header;
    assert (lines + [last])[..|lines|] == lines;
  }

  // ---- Against the intended reading ----------------------------------------------

  /** A message is its header lines, an empty line, and the body; the header may be empty, and
      without an empty line there is no body. */
  ghost function IntendedBody(data: string): string {
    var blank := Find(data, BLANK_LINE);
    if StartsWithCrlf(data) then data[2..]
    else if blank.Some? then data[blank.value + 4..]
    else ""
  }

  /** The returned body is the intended one exactly when the text does not start with an empty
      line (unless that is all there is) and, if it has no blank line, ends with CRLF. */
  lemma BodyIsIntendedIff(data: string)
    ensures Parsed(data).1 == IntendedBody(data)
       <==> if StartsWithCrlf(data) then data == CRLF
            else Find(data, BLANK_LINE).Some? || data == "" || EndsWithCrlf(data)
  {
    BlankNeedsCrlf(data);
    var blank := Find(data, BLANK_LINE);
    if StartsWithCrlf(data) {
      OccurrenceOfCrlf(data, 0);
      if blank.Some? {
        assert |data[blank.value + 4..]| < |data[2..]|;
      } else if data[2..] == "" {
        assert data == data[..2] + data[2..];
      }
    }
  }
}
