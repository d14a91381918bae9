/** What one connection carries for EXPUNGE, UID EXPUNGE and CLOSE: the handler's reply comes after
    the events that the session's own receiver has waiting, and EXPUNGE publishes to it as well. */
module ExpungeTranscript {
  import opened Wrappers
  import opened Registry
  import opened Session
  import E = Expunge
  import Runs = SessionRuns
  import SequenceSet
  import SequenceRfc

  /** What is written for one command; an error of the handler ends the connection instead. */
  datatype Served =
    | Refused(drained: seq<string>)
    | ConnectionEnds
    | Sent(lines: seq<string>)

  // ---- Serving ------------------------------------------------------------------------

  lemma {:induction false} PublishAllKeepsReceivers(s: State, m: MailboxId, events: seq<MailboxEvent>)
    requires WellFormed(s)
    ensures E.PublishAll(s, m, events).receivers == s.receivers
  {
    if events != [] {
      hide WellFormed, AfterPublish;
      PublishAllKeepsReceivers(s, m, events[..|events| - 1]);
    }
  }

  lemma PublishAllKeepsOwner(w: World, m: MailboxId, events: seq<MailboxEvent>)
    requires Owns(w)
    ensures Owns(w.(registry := E.PublishAll(w.registry, m, events)))
  {
    hide WellFormed;
    PublishAllKeepsReceivers(w.registry, m, events);
  }

  /** The world once the chosen messages are announced to all receivers of the mailbox. */
  function Announced(w: World, numbers: seq<nat>): (w1: World)
    requires Owns(w) && w.session.state.Selected?
    ensures Owns(w1) && w1.session == w.session
  {
    PublishAllKeepsOwner(w, w.session.state.mailbox, E.ExpungeEvents(numbers));
    w.(registry := E.PublishAll(w.registry, w.session.state.mailbox, E.ExpungeEvents(numbers)))
  }

  /** EXPUNGE of the messages that `uids` leaves, on the connection of `w.session`. */
  function AfterExpunge(w: World, messages: seq<E.Message>, uids: Option<set<nat>>, storeAccepts: bool)
    : (World, Served)
    requires Owns(w)
  {
    var numbers := E.Positions(messages, uids);
    if !w.session.state.Selected? then
      var (w1, drained) := AfterDrain(w);
      (w1, Refused(drained))
    else if numbers != [] && !storeAccepts then (w, ConnectionEnds)
    else
      var (w1, drained) := AfterDrain(Announced(w, numbers));
      (w1, Sent(drained + E.ExpungeLines(numbers)))
  }

  method ServeExpunge(
      session: ImapSession, registry: MailboxRegistry, messages: seq<E.Message>, storeAccepts: bool)
    returns (served: Served)
    requires Owns(World(session.View(), registry.Current()))
    modifies session, registry
    ensures registry.Valid()
    ensures (World(session.View(), registry.Current()), served)
            == AfterExpunge(old(World(session.View(), registry.Current())), messages, None, storeAccepts)
  {
    hide WellFormed, Drain, AfterDrain, E.PublishAll, E.Positions, E.ChosenIds;
    ghost var w := World(session.View(), registry.Current());
    if !session.state.Selected? {
      var drained := session.DrainMailboxEvents(registry);
      return Refused(drained);
    }
    PublishAllKeepsOwner(w, session.state.mailbox, E.ExpungeEvents(E.Positions(messages, None)));
    EmptyAnnouncement(w);
    var reply := E.HandleExpunge(registry, session.state.mailbox, messages, storeAccepts);
    if reply.Err? {
      return ConnectionEnds;
    }
    var drained := session.DrainMailboxEvents(registry);
    return Sent(drained + reply.value.untagged);
  }

  lemma EmptyAnnouncement(w: World)
    requires Owns(w) && w.session.state.Selected?
    ensures E.ExpungeEvents([]) == [] && Announced(w, []) == w
  {
    hide WellFormed;
  }

  /** UID EXPUNGE: an unreadable sequence set is an error of the handler. */
  ghost function AfterUidExpunge(w: World, messages: seq<E.Message>, sequence: string, storeAccepts: bool)
    : (World, Served)
    requires Owns(w)
  {
    var maxUid := SequenceSet.MaxUid(E.Uids(messages));
    var parts := SequenceSet.Parts(sequence);
    if !w.session.state.Selected? then AfterExpunge(w, messages, None, storeAccepts)
    else if !SequenceSet.AllReadable(parts, maxUid) then (w, ConnectionEnds)
    else AfterExpunge(w, messages, Some(SequenceSet.CodeUids(parts, maxUid)), storeAccepts)
  }

  method ServeUidExpunge(
      session: ImapSession, registry: MailboxRegistry, messages: seq<E.Message>, sequence: string,
      storeAccepts: bool)
    returns (served: Served)
    requires Owns(World(session.View(), registry.Current()))
    modifies session, registry
    ensures registry.Valid()
    ensures (World(session.View(), registry.Current()), served)
            == AfterUidExpunge(old(World(session.View(), registry.Current())), messages, sequence, storeAccepts)
  {
    hide WellFormed, Drain, AfterDrain, E.PublishAll, E.Positions, E.ChosenIds, SequenceSet.CodeUids,
      SequenceSet.AllReadable, SequenceSet.Parts;
    ghost var w := World(session.View(), registry.Current());
    if !session.state.Selected? {
      var drained := session.DrainMailboxEvents(registry);
      return Refused(drained);
    }
    ghost var maxUid := SequenceSet.MaxUid(E.Uids(messages));
    ghost var parts := SequenceSet.Parts(sequence);
    if SequenceSet.AllReadable(parts, maxUid) {
      ghost var uids := Some(SequenceSet.CodeUids(parts, maxUid));
      PublishAllKeepsOwner(w, session.state.mailbox, E.ExpungeEvents(E.Positions(messages, uids)));
    }
    EmptyAnnouncement(w);
    var reply := E.HandleUidExpunge(registry, session.state.mailbox, messages, sequence, storeAccepts);
    if reply.Err? {
      return ConnectionEnds;
    }
    var drained := session.DrainMailboxEvents(registry);
    return Sent(drained + reply.value.untagged);
  }

  /** CLOSE deletes exactly the marked messages and tells nobody: no event is published, and the
      registry only loses the session's receiver. A refused deletion changes nothing. */
  method ServeClose(
      session: ImapSession, registry: MailboxRegistry, messages: seq<E.Message>, storeAccepts: bool)
    returns (reply: Session.Reply, deletedIds: seq<nat>)
    requires registry.Valid()
    modifies session, registry
    ensures registry.Valid()
    ensures var ids, w := E.ChosenIds(messages, None), old(World(session.View(), registry.Current()));
            && (World(session.View(), registry.Current()), reply) == AfterClose(w, ids == [] || storeAccepts)
            && deletedIds == if w.session.state.Selected? && storeAccepts then ids else []
  {
    var ids, lines, numbers := E.Collect(messages, None);
    deletedIds := if session.state.Selected? && storeAccepts then ids else [];
    reply := session.HandleClose(registry, ids == [] || storeAccepts);
  }

  /** Some message is marked and, for UID EXPUNGE, selected. */
  ghost predicate AnythingToExpunge(messages: seq<E.Message>, uids: Option<set<nat>>) {
    exists m :: m in messages && m.deleted && (uids.Some? ==> m.uid in uids.value)
  }

  /** Nobody hears of a deletion that the store refuses: the connection ends and nothing has changed.
      Otherwise the command is answered in a selected mailbox, and refused elsewhere. */
  lemma RefusedDeletionTellsNobody(w: World, messages: seq<E.Message>, uids: Option<set<nat>>, storeAccepts: bool)
    requires Owns(w)
    ensures var (w1, served) := AfterExpunge(w, messages, uids, storeAccepts);
            && (served.ConnectionEnds?
                <==> w.session.state.Selected? && AnythingToExpunge(messages, uids) && !storeAccepts)
            && (served.ConnectionEnds? ==> w1 == w)
            && (served.Refused? <==> !w.session.state.Selected?)
            && (served.Refused? ==> w1 == AfterDrain(w).0 && served.drained == AfterDrain(w).1)
  {
    hide AfterDrain, E.Positions, E.PublishAll, WellFormed;
    var p := E.Positions(messages, uids);
    if p != [] {
      assert p[0] in p;
      E.ExpungedExactly(messages, uids, p[0], messages[0]);
      assert messages[p[0] - 1] in messages;
    }
    if AnythingToExpunge(messages, uids) {
      var m :| m in messages && m.deleted && (uids.Some? ==> m.uid in uids.value);
      var k :| 0 <= k < |messages| && messages[k] == m;
      E.ExpungedExactly(messages, uids, k + 1, m);
    }
  }

  /** In a selected mailbox, a set with a part that is not a UID or a range of two ends the connection
      and changes nothing; any other set is expunged. */
  lemma UnreadableSetEndsConnection(w: World, messages: seq<E.Message>, sequence: string, storeAccepts: bool)
    requires Owns(w) && w.session.state.Selected?
    ensures var parts, maxUid := SequenceSet.Parts(sequence), SequenceSet.MaxUid(E.Uids(messages));
            if exists i :: 0 <= i < |parts| && !SequenceRfc.IsUidPart(parts[i]) then
              AfterUidExpunge(w, messages, sequence, storeAccepts) == (w, ConnectionEnds)
            else
              && SequenceSet.AllReadable(parts, maxUid)
              && AfterUidExpunge(w, messages, sequence, storeAccepts)
                 == AfterExpunge(w, messages, Some(SequenceSet.CodeUids(parts, maxUid)), storeAccepts)
  {
    hide AfterExpunge, SequenceSet.Parts, SequenceSet.CodeUids, SequenceSet.UidRange, SequenceRfc.IsUidPart, WellFormed;
    var parts, maxUid := SequenceSet.Parts(sequence), SequenceSet.MaxUid(E.Uids(messages));
    forall i | 0 <= i < |parts|
      ensures SequenceSet.UidRange(parts[i], maxUid).Ok? <==> SequenceRfc.IsUidPart(parts[i])
    {
      SequenceRfc.UidPartReadableIff(parts[i], maxUid);
    }
  }

  // ---- The issuing session hears itself ------------------------------------------------

  lemma EventLines(numbers: seq<nat>)
    ensures FormatAll(E.ExpungeEvents(numbers)) == E.ExpungeLines(numbers)
  {
    var events, lines := E.ExpungeEvents(numbers), E.ExpungeLines(numbers);
    forall k | 0 <= k < |numbers| ensures FormatAll(events)[k] == lines[k] {
      assert FormatMailboxEvent(events[k]) == lines[k];
    }
  }

  /** A session as other sessions have left it since it last drained. */
  ghost predicate Since(
    before: seq<Step>, acts: seq<Runs.Act>, others: seq<Step>, m: MailboxId, w: World)
  {
    && Runs.Legal(Runs.Start(before), acts)
    && var w0 := Runs.Run(Runs.Start(before), acts);
       && w0.session.state == Selected(m) && w0.session.rx.Some?
       && (forall k :: 0 <= k < |others| ==> !Touches(others[k], w0.session.rx.value))
       && Owns(w0)
       && var drained := AfterDrain(w0).0;
          WellFormed(drained.registry) && w == World(drained.session, Registry.Run(drained.registry, others).0)
  }

  /** The connection that issues EXPUNGE carries the newest 256 of the events published since its
      last drain, which end with its own, and then the reply's lines, which repeat them. */
  lemma IssuerHearsItself(
      before: seq<Step>, acts: seq<Runs.Act>, others: seq<Step>, m: MailboxId, w: World,
      messages: seq<E.Message>, uids: Option<set<nat>>)
    requires Since(before, acts, others, m, w)
    ensures var p := E.Positions(messages, uids);
            && Owns(w) && w.session.state.Selected?
            && AfterExpunge(w, messages, uids, true).1
               == Sent(FormatAll(Suffix(PublishedTo(others, m) + E.ExpungeEvents(p), CHANNEL_CAPACITY))
                       + E.ExpungeLines(p))
  {
    var w0 := Runs.Run(Runs.Start(before), acts);
    var events := E.ExpungeEvents(E.Positions(messages, uids));
    var steps := others + E.PublishSteps(m, events);
    hide *;
    SinceParts(before, acts, others, m, w);
    Runs.DrainsSendWhatWasPublished(before, acts, others);
    AnnouncementIsForeign(others, m, events, w0.session.rx.value);
    Runs.DrainsSendWhatWasPublished(before, acts, steps);
    var drained := AfterDrain(w0).0;
    RunOfAppend(drained.registry, others, E.PublishSteps(m, events));
    E.PublishAllIsRun(w.registry, m, events);
    E.PublishedToAppend(others, E.PublishSteps(m, events), m);
    ExpungeUnfolds(w, messages, uids);
  }

  lemma SinceParts(before: seq<Step>, acts: seq<Runs.Act>, others: seq<Step>, m: MailboxId, w: World)
    requires Since(before, acts, others, m, w)
    ensures Runs.Legal(Runs.Start(before), acts)
    ensures var w0 := Runs.Run(Runs.Start(before), acts);
            && w0.session.state == Selected(m) && w0.session.rx.Some?
            && (forall k :: 0 <= k < |others| ==> !Touches(others[k], w0.session.rx.value))
            && Owns(w0)
            && var drained := AfterDrain(w0).0;
               && drained.session.state == Selected(m) && WellFormed(drained.registry)
               && w == World(drained.session, Registry.Run(drained.registry, others).0)
  {
    hide Runs.Legal, Runs.Start, Runs.Run, WellFormed, Drain, Registry.Run, FormatAll;
  }

  lemma AnnouncementIsForeign(others: seq<Step>, m: MailboxId, events: seq<MailboxEvent>, r: ReceiverId)
    requires forall k :: 0 <= k < |others| ==> !Touches(others[k], r)
    ensures var steps := others + E.PublishSteps(m, events);
            forall k :: 0 <= k < |steps| ==> !Touches(steps[k], r)
  {
  }

  lemma ExpungeUnfolds(w: World, messages: seq<E.Message>, uids: Option<set<nat>>)
    requires Owns(w) && w.session.state.Selected?
    ensures var p := E.Positions(messages, uids);
            var w1 := w.(registry := E.PublishAll(w.registry, w.session.state.mailbox, E.ExpungeEvents(p)));
            && Owns(w1)
            && AfterExpunge(w, messages, uids, true).1 == Sent(AfterDrain(w1).1 + E.ExpungeLines(p))
  {
    hide WellFormed, AfterDrain, E.PublishAll, E.Positions;
    PublishAllKeepsOwner(w, w.session.state.mailbox, E.ExpungeEvents(E.Positions(messages, uids)));
  }

  /** With nothing else to hear, every number of the reply is sent twice. */
  lemma IssuerSeesEveryNumberTwice(
      before: seq<Step>, acts: seq<Runs.Act>, others: seq<Step>, m: MailboxId, w: World,
      messages: seq<E.Message>, uids: Option<set<nat>>)
    requires Since(before, acts, others, m, w) && PublishedTo(others, m) == []
    ensures var p := E.Positions(messages, uids);
            && Owns(w)
            && AfterExpunge(w, messages, uids, true).1
               == Sent(E.ExpungeLines(Suffix(p, CHANNEL_CAPACITY) + p))
            && (|p| <= CHANNEL_CAPACITY ==> Suffix(p, CHANNEL_CAPACITY) == p)
  {
    hide *;
    IssuerHearsItself(before, acts, others, m, w, messages, uids);
    DoubledLines(E.Positions(messages, uids));
  }

  lemma DoubledLines(p: seq<nat>)
    ensures FormatAll(Suffix([] + E.ExpungeEvents(p), CHANNEL_CAPACITY)) + E.ExpungeLines(p)
            == E.ExpungeLines(Suffix(p, CHANNEL_CAPACITY) + p)
    ensures |p| <= CHANNEL_CAPACITY ==> Suffix(p, CHANNEL_CAPACITY) == p
  {
    hide *;
    var tail := Suffix(p, CHANNEL_CAPACITY);
    NothingBefore(E.ExpungeEvents(p));
    SuffixOfEvents(p);
    EventLines(tail);
    LinesAppend(tail, p);
  }

  lemma NothingBefore<T>(s: seq<T>)
    ensures [] + s == s
  {
  }

  lemma SuffixOfEvents(p: seq<nat>)
    ensures Suffix(E.ExpungeEvents(p), CHANNEL_CAPACITY) == E.ExpungeEvents(Suffix(p, CHANNEL_CAPACITY))
    ensures |p| <= CHANNEL_CAPACITY ==> Suffix(p, CHANNEL_CAPACITY) == p
  {
  }

  lemma LinesAppend(p: seq<nat>, q: seq<nat>)
    ensures E.ExpungeLines(p + q) == E.ExpungeLines(p) + E.ExpungeLines(q)
  {
    var whole, x, y := E.ExpungeLines(p + q), E.ExpungeLines(p), E.ExpungeLines(q);
    forall i | 0 <= i < |p| + |q| ensures whole[i] == (x + y)[i] {
      if i < |p| {
        assert (p + q)[i] == p[i];
      } else {
        assert (p + q)[i] == q[i - |p|];
      }
    }
  }

  // ---- What the issuing client is left with ----------------------------------------------

  lemma {:induction false} ReplayLength<T>(s: seq<T>, numbers: seq<nat>)
    requires E.InRange(|s|, numbers)
    ensures |E.Replay(s, numbers)| == |s| - |numbers|
  {
    if numbers != [] {
      ReplayLength(E.Remove(s, numbers[0]), numbers[1..]);
    }
  }

  /** The transcript of the issuing session is one that a client can follow to the survivors exactly
      when nothing was expunged: every number that is sent must name a message at that moment. */
  lemma IssuerReplayIff(messages: seq<E.Message>, uids: Option<set<nat>>)
    ensures var p := E.Positions(messages, uids);
            var sent := Suffix(p, CHANNEL_CAPACITY) + p;
            E.InRange(|messages|, sent) && E.Replay(messages, sent) == E.Survivors(messages, uids) <==> p == []
  {
    hide E.Positions, E.Survivors, E.Replay;
    var p := E.Positions(messages, uids);
    var sent := Suffix(p, CHANNEL_CAPACITY) + p;
    if p == [] {
      E.ReplayAsEmitted(messages, uids);
      assert sent == p;
    } else if E.InRange(|messages|, sent) {
      ReplayLength(messages, sent);
    }
  }

  /** A client that ignores numbers out of range gets a single removal right exactly when it was the
      last message. */
  lemma LenientReplayOfOne(messages: seq<E.Message>, uids: Option<set<nat>>)
    requires |E.Positions(messages, uids)| == 1
    ensures var p := E.Positions(messages, uids);
            E.Replay(messages, p + p) == E.Survivors(messages, uids) <==> p[0] == |messages|
  {
    hide E.Survivors, E.Positions;
    var p := E.Positions(messages, uids);
    E.ReplayAsEmitted(messages, uids);
    E.NumbersAreSnapshotPositions(messages, uids);
    assert p[0] in p && p == [p[0]] && p + p == p + [p[0]];
    E.ReplaySnoc(messages, p, p[0]);
  }

  /** It can also get more than one right: the last two of three messages are gone after `2, 3, 2, 3`,
      of which the second and the last are out of range. */
  lemma LastTwoAreFollowed(kept: E.Message, x: E.Message, y: E.Message)
    requires !kept.deleted && x.deleted && y.deleted
    ensures var messages := [kept, x, y];
            var p := E.Positions(messages, None);
            p == [2, 3] && E.Survivors(messages, None) == [kept] && E.Replay(messages, p + p) == [kept]
  {
    hide E.Replay;
    var messages := [kept, x, y];
    assert messages[..2] == [kept, x] && messages[..2][..1] == [kept] && [kept][..0] == [];
    assert E.Positions([kept], None) == [] + [] && E.Survivors([kept], None) == [] + [kept];
    assert E.Positions([kept, x], None) == [] + [2] && E.Survivors([kept, x], None) == [kept] + [];
    assert E.Positions(messages, None) == [2] + [3] && E.Survivors(messages, None) == [kept] + [];
    assert [2, 3] + [2, 3] == [2, 3, 2, 3];
    TwoCopies(kept, x, y);
  }

  lemma TwoCopies<T>(a: T, b: T, c: T)
    ensures E.Replay([a, b, c], [2, 3, 2, 3]) == [a]
  {
    assert [2, 3, 2, 3][1..] == [3, 2, 3] && [3, 2, 3][1..] == [2, 3] && [2, 3][1..] == [3] && [3][1..] == [];
    assert E.Remove([a, b, c], 2) == [a, c] && E.Remove([a, c], 3) == [a, c];
    assert E.Remove([a, c], 2) == [a] && E.Remove([a], 3) == [a];
    assert E.Replay([a], [3]) == [a];
    assert E.Replay([a, c], [2, 3]) == E.Replay([a], [3]);
    assert E.Replay([a, c], [3, 2, 3]) == E.Replay([a, c], [2, 3]);
    assert E.Replay([a, b, c], [2, 3, 2, 3]) == E.Replay([a, c], [3, 2, 3]);
  }

  /** Two messages of which the first is expunged: the second copy of the number removes the
      message that was kept. */
  lemma KeptMessageIsLost(deleted: E.Message, kept: E.Message)
    requires deleted.deleted && !kept.deleted
    ensures var messages := [deleted, kept];
            var p := E.Positions(messages, None);
            p == [1] && E.Survivors(messages, None) == [kept] && E.Replay(messages, p + p) == []
  {
    var messages := [deleted, kept];
    assert messages[..1] == [deleted] && messages[..1][..0] == [];
    assert E.Positions(messages[..1], None) == [] + [1];
    assert E.Positions(messages, None) == [1] + [];
    assert E.Survivors(messages[..1], None) == [] + [];
    assert E.Survivors(messages, None) == [] + [kept];
    assert E.Remove(messages, 1) == [kept] && E.Remove([kept], 1) == [];
    assert [1] + [1] == [1, 1] && [1, 1][1..] == [1];
    assert E.Replay([kept], [1]) == E.Replay([], []);
  }
}
