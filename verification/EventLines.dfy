/** What a client reads from the untagged lines: a reader of them, which inverts the formatter. */
module EventLines {
  import opened Wrappers
  import opened Text
  import opened Registry
  import opened Session
  import Runs = SessionRuns
  import Delivery = SessionDelivery

  function ReadNumber(word: string): Option<nat> {
    if word != "" && AllDigits(word) then Some(DigitsValue(word)) else None
  }

  /** The flags between parentheses, of a response whose own parenthesis closes last. */
  function ReadFlags(text: string): Option<seq<string>> {
    if |text| < 3 || text[0] != '(' || text[|text| - 1] != ')' || text[|text| - 2] != ')' then None
    else
      var inner := text[1..|text| - 2];
      Some(if inner == "" then [] else Split(inner, ' '))
  }

  function ReadCount(n: nat, keyword: string): Option<MailboxEvent> {
    if keyword == "EXISTS" then Some(Exists(n))
    else if keyword == "RECENT" then Some(Recent(n))
    else if keyword == "EXPUNGE" then Some(MailboxEvent.Expunge(n))
    else None
  }

  /** The words after the number; the UID is the number again. */
  function ReadFetch(n: nat, words: seq<string>): Option<MailboxEvent> {
    if |words| < 5 || words[..4] != ["FETCH", "(UID", words[2], "FLAGS"] || ReadNumber(words[2]) != Some(n) then None
    else
      var flags := ReadFlags(Join(words[4..], ' '));
      if flags.None? then None else Some(FlagsChanged(n, flags.value))
  }

  /** `* n EXISTS`, `* n RECENT`, `* n EXPUNGE`, or `* n FETCH (UID n FLAGS (f1 f2))`. */
  function ReadEvent(line: string): Option<MailboxEvent> {
    var words := Split(line, ' ');
    if |words| < 3 || words[0] != "*" || ReadNumber(words[1]).None? then None
    else
      var n := ReadNumber(words[1]).value;
      if |words| == 3 then ReadCount(n, words[2]) else ReadFetch(n, words[2..])
  }

  /** Flags that can be told apart in a list separated by blanks. */
  ghost predicate Legible(e: MailboxEvent) {
    e.FlagsChanged? ==> forall k :: 0 <= k < |e.flags| ==> e.flags[k] != "" && ' ' !in e.flags[k]
  }

  lemma DecimalIsRead(n: nat)
    ensures ReadNumber(Decimal(n)) == Some(n) && ' ' !in Decimal(n)
  {
    DecimalValue(n);
  }

  lemma WordsOfThree(a: string, b: string, c: string)
    requires ' ' !in a && ' ' !in b && ' ' !in c
    ensures Split(a + " " + b + " " + c, ' ') == [a, b, c]
  {
    assert [a, b, c][1..] == [b, c] && [b, c][1..] == [c];
    assert Join([b, c], ' ') == b + [' '] + c;
    assert Join([a, b, c], ' ') == a + [' '] + (b + [' '] + c) == a + " " + b + " " + c;
    SplitOfJoin([a, b, c], ' ');
  }

  lemma CountIsRead(n: nat, keyword: string)
    requires ' ' !in keyword
    ensures ReadEvent("* " + Decimal(n) + " " + keyword) == ReadCount(n, keyword)
  {
    DecimalIsRead(n);
    var d := Decimal(n);
    assert "* " + d == "*" + " " + d;
    hide Split, Decimal, ReadNumber, ReadCount;
    WordsOfThree("*", d, keyword);
  }

  lemma KeywordsAreRead(n: nat)
    ensures ReadCount(n, "EXISTS") == Some(Exists(n))
    ensures ReadCount(n, "RECENT") == Some(Recent(n))
    ensures ReadCount(n, "EXPUNGE") == Some(MailboxEvent.Expunge(n))
  {
    assert "EXISTS"[0] == 'E' && "RECENT"[0] == 'R' && |"EXPUNGE"| == 7;
  }

  lemma WordsOfFetch(d: string, rest: string)
    requires ' ' !in d
    ensures Split("* " + d + " FETCH (UID " + d + " FLAGS " + rest, ' ')
            == ["*", d, "FETCH", "(UID", d, "FLAGS"] + Split(rest, ' ')
  {
    hide Split;
    var s5 := "FLAGS" + [' '] + rest;
    var s4 := d + [' '] + s5;
    var s3 := "(UID" + [' '] + s4;
    var s2 := "FETCH" + [' '] + s3;
    var s1 := d + [' '] + s2;
    SplitOfPiece("FLAGS", rest, ' ');
    SplitOfPiece(d, s5, ' ');
    SplitOfPiece("(UID", s4, ' ');
    SplitOfPiece("FETCH", s3, ' ');
    SplitOfPiece(d, s2, ' ');
    SplitOfPiece("*", s1, ' ');
    assert "* " + d + " FETCH (UID " + d + " FLAGS " + rest == "*" + [' '] + s1;
  }

  lemma FlagsAreRead(flags: seq<string>)
    requires forall k :: 0 <= k < |flags| ==> flags[k] != "" && ' ' !in flags[k]
    ensures ReadFlags("(" + FlagList(flags) + "))") == Some(flags)
  {
    var inner, text := FlagList(flags), "(" + FlagList(flags) + "))";
    assert text[1..|text| - 2] == inner;
    if flags != [] {
      SplitOfJoin(flags, ' ');
      assert |inner| >= |flags[0]|;
    }
  }

  lemma FetchIsRead(uid: nat, flags: seq<string>)
    requires forall k :: 0 <= k < |flags| ==> flags[k] != "" && ' ' !in flags[k]
    ensures ReadEvent("* " + Decimal(uid) + " FETCH (UID " + Decimal(uid) + " FLAGS (" + FlagList(flags) + "))")
            == Some(FlagsChanged(uid, flags))
  {
    DecimalIsRead(uid);
    FlagsAreRead(flags);
    hide *;
    var d, list := Decimal(uid), FlagList(flags);
    var rest := "(" + list + "))";
    WordsOfFetch(d, rest);
    JoinOfSplit(rest, ' ');
    SameLine(d, list);
    FetchWords("* " + d + " FETCH (UID " + d + " FLAGS " + rest, uid, d, Split(rest, ' '));
    FetchFlags(uid, d, Split(rest, ' '), flags);
  }

  lemma FetchWords(line: string, uid: nat, d: string, tail: seq<string>)
    requires Split(line, ' ') == ["*", d, "FETCH", "(UID", d, "FLAGS"] + tail && ReadNumber(d) == Some(uid)
    ensures ReadEvent(line) == ReadFetch(uid, ["FETCH", "(UID", d, "FLAGS"] + tail)
  {
    hide Split, ReadNumber, ReadFetch, ReadCount;
    assert Split(line, ' ')[2..] == ["FETCH", "(UID", d, "FLAGS"] + tail;
  }

  lemma FetchFlags(uid: nat, d: string, tail: seq<string>, flags: seq<string>)
    requires tail != [] && ReadNumber(d) == Some(uid) && ReadFlags(Join(tail, ' ')) == Some(flags)
    ensures ReadFetch(uid, ["FETCH", "(UID", d, "FLAGS"] + tail) == Some(FlagsChanged(uid, flags))
  {
    hide ReadNumber, ReadFlags, Join;
    var words := ["FETCH", "(UID", d, "FLAGS"] + tail;
    assert words[..4] == ["FETCH", "(UID", d, "FLAGS"] && words[4..] == tail;
  }

  lemma SameLine(d: string, list: string)
    ensures "* " + d + " FETCH (UID " + d + " FLAGS (" + list + "))"
            == "* " + d + " FETCH (UID " + d + " FLAGS " + ("(" + list + "))")
  {
    assert " FLAGS (" == " FLAGS " + "(";
  }

  /** The reader gives back every event whose flags are not empty and have no blanks: each of the
      four lines says which event it is, with its number, and in the last with both UIDs. */
  lemma EventIsRead(e: MailboxEvent)
    requires Legible(e)
    ensures ReadEvent(FormatMailboxEvent(e)) == Some(e)
  {
    hide ReadEvent, ReadCount, Decimal, FlagList;
    match e
    case Exists(n) =>
      CountIsRead(n, "EXISTS");
      KeywordsAreRead(n);
      assert " EXISTS" == " " + "EXISTS";
      CountLine(Decimal(n), "EXISTS");
    case Recent(n) =>
      CountIsRead(n, "RECENT");
      KeywordsAreRead(n);
      assert " RECENT" == " " + "RECENT";
      CountLine(Decimal(n), "RECENT");
    case Expunge(n) =>
      CountIsRead(n, "EXPUNGE");
      KeywordsAreRead(n);
      assert " EXPUNGE" == " " + "EXPUNGE";
      CountLine(Decimal(n), "EXPUNGE");
    case FlagsChanged(uid, flags) => FetchIsRead(uid, flags);
  }

  lemma CountLine(d: string, keyword: string)
    ensures "* " + d + (" " + keyword) == "* " + d + " " + keyword
  {
  }

  function ReadAll(lines: seq<string>): seq<Option<MailboxEvent>> {
    if lines == [] then [] else ReadAll(lines[..|lines| - 1]) + [ReadEvent(lines[|lines| - 1])]
  }

  function AllRead(events: seq<MailboxEvent>): (r: seq<Option<MailboxEvent>>)
    ensures |r| == |events| && forall k :: 0 <= k < |events| ==> r[k] == Some(events[k])
  {
    seq(|events|, k requires 0 <= k < |events| => Some(events[k]))
  }

  /** So a client that reads the lines of some events has exactly these events, in order. */
  lemma {:induction false} EventsAreRead(events: seq<MailboxEvent>)
    requires forall e :: e in events ==> Legible(e)
    ensures ReadAll(FormatAll(events)) == AllRead(events)
  {
    hide ReadEvent, FormatMailboxEvent, Legible;
    if events != [] {
      var front, last := events[..|events| - 1], events[|events| - 1];
      assert forall e :: e in front ==> e in events;
      EventsAreRead(front);
      EventIsRead(last);
      FormatAllSnoc(front, last);
      hide FormatAll;
      assert events == front + [last];
      assert AllRead(events) == AllRead(front) + [Some(last)];
    }
  }

  lemma FormatAllSnoc(front: seq<MailboxEvent>, last: MailboxEvent)
    ensures var lines := FormatAll(front + [last]);
            lines != [] && lines[..|lines| - 1] == FormatAll(front) && lines[|lines| - 1] == FormatMailboxEvent(last)
  {
    hide FormatMailboxEvent;
    assert (front + [last])[..|front|] == front;
  }

  /** A client that reads the lines of one whole selection has the events published to the mailbox,
      each once and in order, up to those that still wait. */
  lemma SelectionIsRead(before: seq<Step>, acts: seq<Runs.Act>, m: MailboxId, later: seq<Runs.Act>)
    requires Runs.Legal(Runs.Start(before), acts)
    requires var w := Runs.Run(Runs.Start(before), acts);
             && Runs.Selects(w.session, Runs.DoSelect(Found(m)))
             && var w1 := Runs.Next(w, Runs.DoSelect(Found(m)));
                Runs.Legal(w1, later) && Delivery.StaysOn(w1, later, m) && Delivery.NothingLags(w1, later, m)
    requires forall e :: e in Delivery.PublishedIn(later, m) ==> Legible(e)
    ensures var w1 := Runs.Next(Runs.Run(Runs.Start(before), acts), Runs.DoSelect(Found(m)));
            var lines, published := Delivery.SentLines(w1, later), Delivery.PublishedIn(later, m);
            && |lines| <= |published|
            && ReadAll(lines) == AllRead(published[..|lines|])
            && (later != [] && later[|later| - 1].DoDrainEvents? ==> ReadAll(lines) == AllRead(published))
  {
    hide *;
    Delivery.SelectionSendsThePublications(before, acts, m, later);
    var w1 := Runs.Next(Runs.Run(Runs.Start(before), acts), Runs.DoSelect(Found(m)));
    var lines, published := Delivery.SentLines(w1, later), Delivery.PublishedIn(later, m);
    EventsAreRead(published[..|lines|]);
    EventsAreRead(published);
  }

  /** Another session appends the third message: the line is `* 3 EXISTS`. */
  lemma ThirdMessageIsAnnounced()
    ensures FormatMailboxEvent(Exists(3)) == "* 3 EXISTS"
  {
  }
}
