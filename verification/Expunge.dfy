/** EXPUNGE and UID EXPUNGE: the numbers the server emits and broadcasts, and what a client that
    replays them is left with (section 7.4.1 of RFC 3501). */
module Expunge {
  import opened Wrappers
  import opened Registry
  import SequenceSet
  import Text

  datatype Message = Message(id: nat, uid: nat, deleted: bool)

  /** Marked deleted and, for UID EXPUNGE, among the listed UIDs. */
  predicate Chosen(m: Message, uids: Option<set<nat>>) {
    m.deleted && (uids.Some? ==> m.uid in uids.value)
  }

  /** The 1-based positions of the chosen messages in the snapshot. */
  function Positions(messages: seq<Message>, uids: Option<set<nat>>): (r: seq<nat>)
    ensures |r| <= |messages|
  {
    if messages == [] then []
    else
      var n := |messages|;
      Positions(messages[..n - 1], uids) + (if Chosen(messages[n - 1], uids) then [n] else [])
  }

  function ChosenIds(messages: seq<Message>, uids: Option<set<nat>>): seq<nat> {
    if messages == [] then []
    else
      var n := |messages|;
      ChosenIds(messages[..n - 1], uids) + (if Chosen(messages[n - 1], uids) then [messages[n - 1].id] else [])
  }

  function Survivors(messages: seq<Message>, uids: Option<set<nat>>): (r: seq<Message>)
    ensures forall k :: 0 <= k < |r| ==> !Chosen(r[k], uids)
    ensures |r| == |messages| - |Positions(messages, uids)|
  {
    if messages == [] then []
    else
      var n := |messages|;
      Survivors(messages[..n - 1], uids) + (if Chosen(messages[n - 1], uids) then [] else [messages[n - 1]])
  }

  /** What the store keeps when it is told to delete `ids`. */
  function DeleteMessages(messages: seq<Message>, ids: seq<nat>): seq<Message> {
    if messages == [] then []
    else
      var n := |messages|;
      DeleteMessages(messages[..n - 1], ids) + (if messages[n - 1].id in ids then [] else [messages[n - 1]])
  }

  function ExpungeEvents(numbers: seq<nat>): (events: seq<MailboxEvent>)
    ensures |events| == |numbers|
    ensures forall i :: 0 <= i < |numbers| ==> events[i] == MailboxEvent.Expunge(numbers[i])
  {
    seq(|numbers|, i requires 0 <= i < |numbers| => MailboxEvent.Expunge(numbers[i]))
  }

  function ExpungeLines(numbers: seq<nat>): (lines: seq<string>)
    ensures |lines| == |numbers|
    ensures forall i :: 0 <= i < |numbers| ==> lines[i] == "* " + Text.Decimal(numbers[i]) + " EXPUNGE"
  {
    seq(|numbers|, i requires 0 <= i < |numbers| => "* " + Text.Decimal(numbers[i]) + " EXPUNGE")
  }

  function PublishAll(s: State, m: MailboxId, events: seq<MailboxEvent>): (s1: State)
    requires WellFormed(s)
    ensures WellFormed(s1)
  {
    if events == [] then s
    else AfterPublish(PublishAll(s, m, events[..|events| - 1]), m, events[|events| - 1])
  }

  // ---- The handlers -----------------------------------------------------------

  datatype Reply = Reply(untagged: seq<string>, deletedIds: seq<nat>)

  datatype Error = BadSequence | StoreFailed

  method Collect(messages: seq<Message>, uids: Option<set<nat>>)
    returns (ids: seq<nat>, lines: seq<string>, numbers: seq<nat>)
    ensures numbers == Positions(messages, uids)
    ensures ids == ChosenIds(messages, uids) && lines == ExpungeLines(numbers)
    ensures numbers == [] <==> ids == []
  {
    ids, lines, numbers := [], [], [];
    for i := 0 to |messages|
      invariant numbers == Positions(messages[..i], uids)
      invariant ids == ChosenIds(messages[..i], uids) && lines == ExpungeLines(numbers)
      invariant numbers == [] <==> ids == []
    {
      var message := messages[i];
      assert messages[..i + 1][..i] == messages[..i];
      if Chosen(message, uids) {
        ids := ids + [message.id];
        lines := lines + ["* " + Text.Decimal(i + 1) + " EXPUNGE"];
        numbers := numbers + [i + 1];
      }
    }
    assert messages[..|messages|] == messages;
  }

  method Broadcast(registry: MailboxRegistry, m: MailboxId, numbers: seq<nat>)
    requires registry.Valid()
    modifies registry
    ensures registry.Valid()
    ensures registry.Current() == PublishAll(old(registry.Current()), m, ExpungeEvents(numbers))
  {
    hide WellFormed, AfterPublish;
    ghost var events := ExpungeEvents(numbers);
    for i := 0 to |numbers|
      invariant registry.Valid()
      invariant registry.Current() == PublishAll(old(registry.Current()), m, events[..i])
    {
      registry.Publish(m, MailboxEvent.Expunge(numbers[i]));
      assert events[..i + 1][..i] == events[..i];
    }
    assert events[..|events|] == events;
  }

  /** EXPUNGE on the selected mailbox `m`; `storeAccepts` is the storage layer's answer. The
      events go out only after the store has deleted, in the order of the untagged lines. */
  method HandleExpunge(
      registry: MailboxRegistry, m: MailboxId, messages: seq<Message>, storeAccepts: bool)
    returns (r: Result<Reply, Error>)
    requires registry.Valid()
    modifies registry
    ensures registry.Valid()
    ensures Answers(old(registry.Current()), registry.Current(), m, messages, None, storeAccepts, r)
    ensures r.Err? ==> registry.Current() == old(registry.Current())
  {
    var ids, lines, numbers := Collect(messages, None);
    if ids != [] {
      if !storeAccepts {
        return Err(StoreFailed);
      }
      Broadcast(registry, m, numbers);
    }
    return Ok(Reply(lines, ids));
  }

  /** UID EXPUNGE: only messages whose UID the sequence set selects. */
  method HandleUidExpunge(
      registry: MailboxRegistry, m: MailboxId, messages: seq<Message>, sequence: string,
      storeAccepts: bool)
    returns (r: Result<Reply, Error>)
    requires registry.Valid()
    modifies registry
    ensures registry.Valid()
    ensures var maxUid := SequenceSet.MaxUid(Uids(messages));
            var parts := SequenceSet.Parts(sequence);
            if SequenceSet.AllReadable(parts, maxUid) then
              var uids := Some(SequenceSet.CodeUids(parts, maxUid));
              Answers(old(registry.Current()), registry.Current(), m, messages, uids, storeAccepts, r)
            else r == Err(BadSequence)
    ensures r.Err? ==> registry.Current() == old(registry.Current())
  {
    var selection := SequenceSet.ParseUidSequenceSet(sequence, Uids(messages));
    if selection.Err? {
      return Err(BadSequence);
    }
    var ids, lines, numbers := Collect(messages, Some(selection.value));
    if ids != [] {
      if !storeAccepts {
        return Err(StoreFailed);
      }
      Broadcast(registry, m, numbers);
    }
    return Ok(Reply(lines, ids));
  }

  function Uids(messages: seq<Message>): (uids: seq<nat>)
    ensures |uids| == |messages| && forall i :: 0 <= i < |messages| ==> uids[i] == messages[i].uid
  {
    seq(|messages|, i requires 0 <= i < |messages| => messages[i].uid)
  }

  ghost predicate Answers(
    before: State, after: State, m: MailboxId, messages: seq<Message>, uids: Option<set<nat>>,
    storeAccepts: bool, r: Result<Reply, Error>)
  {
    var numbers := Positions(messages, uids);
    if numbers != [] && !storeAccepts then r == Err(StoreFailed) && after == before
    else
      && WellFormed(before)
      && r == Ok(Reply(ExpungeLines(numbers), ChosenIds(messages, uids)))
      && after == PublishAll(before, m, ExpungeEvents(numbers))
  }

  // ---- What the numbers are -----------------------------------------------------

  /** The emitted numbers increase and are exactly the snapshot positions of the chosen messages. */
  lemma {:induction false} NumbersAreSnapshotPositions(messages: seq<Message>, uids: Option<set<nat>>)
    ensures SequenceSet.StrictlyIncreasing(Positions(messages, uids))
    ensures forall k :: k in Positions(messages, uids) <==> 1 <= k <= |messages| && Chosen(messages[k - 1], uids)
  {
    if messages != [] {
      var n := |messages|;
      var front := messages[..n - 1];
      NumbersAreSnapshotPositions(front, uids);
      var p := Positions(front, uids);
      assert forall k :: 0 <= k < |p| ==> p[k] in p;
      assert forall k :: k in Positions(messages, uids) <==> k in p || (k == n && Chosen(messages[n - 1], uids));
    }
  }

  ghost predicate DistinctIds(messages: seq<Message>) {
    forall i, j :: 0 <= i < j < |messages| ==> messages[i].id != messages[j].id
  }

  lemma {:induction false} ChosenIdsHold(messages: seq<Message>, uids: Option<set<nat>>, id: nat)
    ensures id in ChosenIds(messages, uids)
       <==> exists i :: 0 <= i < |messages| && messages[i].id == id && Chosen(messages[i], uids)
  {
    if messages != [] {
      var front := messages[..|messages| - 1];
      ChosenIdsHold(front, uids, id);
      assert forall i :: 0 <= i < |front| ==> front[i] == messages[i];
    }
  }

  lemma {:induction false} DeletionKeeps(messages: seq<Message>, uids: Option<set<nat>>, ids: seq<nat>)
    requires forall i :: 0 <= i < |messages| ==> (messages[i].id in ids <==> Chosen(messages[i], uids))
    ensures DeleteMessages(messages, ids) == Survivors(messages, uids)
  {
    if messages != [] {
      DeletionKeeps(messages[..|messages| - 1], uids, ids);
    }
  }

  /** With distinct message ids, the store is left with exactly the messages not chosen. */
  lemma StoreKeepsSurvivors(messages: seq<Message>, uids: Option<set<nat>>)
    requires DistinctIds(messages)
    ensures DeleteMessages(messages, ChosenIds(messages, uids)) == Survivors(messages, uids)
  {
    forall i | 0 <= i < |messages|
      ensures messages[i].id in ChosenIds(messages, uids) <==> Chosen(messages[i], uids)
    {
      ChosenIdsHold(messages, uids, messages[i].id);
    }
    DeletionKeeps(messages, uids, ChosenIds(messages, uids));
  }

  lemma {:induction false} IdsFollowNumbers(messages: seq<Message>, uids: Option<set<nat>>)
    ensures var numbers, ids := Positions(messages, uids), ChosenIds(messages, uids);
            |ids| == |numbers|
            && forall i :: 0 <= i < |ids| ==> 1 <= numbers[i] <= |messages| && ids[i] == messages[numbers[i] - 1].id
  {
    if messages != [] {
      IdsFollowNumbers(messages[..|messages| - 1], uids);
    }
  }

  lemma {:induction false} SurvivorsHold(messages: seq<Message>, uids: Option<set<nat>>, m: Message)
    ensures m in Survivors(messages, uids) <==> m in messages && !Chosen(m, uids)
  {
    if messages != [] {
      var front, last := messages[..|messages| - 1], messages[|messages| - 1];
      assert messages == front + [last];
      SurvivorsHold(front, uids, m);
    }
  }

  /** Without UIDs the flag alone decides, with UIDs the flag and the UID: what is announced, what
      the store is told to delete, and what stays. */
  lemma ExpungedExactly(messages: seq<Message>, uids: Option<set<nat>>, k: nat, m: Message)
    ensures k in Positions(messages, uids)
       <==> && 1 <= k <= |messages| && messages[k - 1].deleted
            && (uids.Some? ==> messages[k - 1].uid in uids.value)
    ensures var numbers, ids := Positions(messages, uids), ChosenIds(messages, uids);
            |ids| == |numbers|
            && forall i :: 0 <= i < |ids| ==> 1 <= numbers[i] <= |messages| && ids[i] == messages[numbers[i] - 1].id
    ensures m in Survivors(messages, uids)
       <==> m in messages && (!m.deleted || (uids.Some? && m.uid !in uids.value))
  {
    NumbersAreSnapshotPositions(messages, uids);
    IdsFollowNumbers(messages, uids);
    SurvivorsHold(messages, uids, m);
    hide Positions, Survivors, ChosenIds;
  }

  // ---- The client's replay --------------------------------------------------------

  /** One EXPUNGE response: that number leaves, every later message moves down by one. */
  function Remove<T>(s: seq<T>, n: nat): seq<T> {
    if 1 <= n <= |s| then s[..n - 1] + s[n..] else s
  }

  function Replay<T>(s: seq<T>, numbers: seq<nat>): seq<T> {
    if numbers == [] then s else Replay(Remove(s, numbers[0]), numbers[1..])
  }

  function Reversed(s: seq<nat>): (r: seq<nat>)
    ensures |r| == |s| && forall i :: 0 <= i < |s| ==> r[i] == s[|s| - 1 - i]
  {
    if s == [] then [] else [s[|s| - 1]] + Reversed(s[..|s| - 1])
  }

  /** The numbers a server sends when each response already counts the earlier removals. */
  function Renumbered(numbers: seq<nat>): (r: seq<nat>)
    ensures |r| == |numbers|
    ensures forall i :: 0 <= i < |numbers| && numbers[i] >= i ==> r[i] == numbers[i] - i
  {
    seq(|numbers|, i requires 0 <= i < |numbers| => if numbers[i] >= i then numbers[i] - i else 0)
  }

  /** Every number names a message at the moment it is replayed. */
  ghost predicate InRange(size: int, numbers: seq<nat>) {
    forall i :: 0 <= i < |numbers| ==> 1 <= numbers[i] <= size - i
  }

  lemma {:induction false} ReplayAppend<T>(s: seq<T>, t: seq<T>, numbers: seq<nat>)
    requires InRange(|s|, numbers)
    ensures Replay(s + t, numbers) == Replay(s, numbers) + t
  {
    if numbers != [] {
      var n := numbers[0];
      assert Remove(s + t, n) == Remove(s, n) + t;
      ReplayAppend(Remove(s, n), t, numbers[1..]);
    }
  }

  lemma {:induction false} ReplaySnoc<T>(s: seq<T>, numbers: seq<nat>, n: nat)
    ensures Replay(s, numbers + [n]) == Remove(Replay(s, numbers), n)
  {
    if numbers == [] {
      assert Replay(s, [n]) == Replay(Remove(s, n), [n][1..]);
    } else {
      ReplaySnoc(Remove(s, numbers[0]), numbers[1..], n);
      assert (numbers + [n])[1..] == numbers[1..] + [n];
    }
  }

  // The results of this section are about one copy of the numbers: the text of the reply taken
  // alone, or what another session that watches the mailbox is sent. The session that issued the
  // command is sent both; `ExpungeTranscript` is about its connection.

  /** Replayed highest number first, the responses turn the snapshot into the survivors. */
  lemma {:induction false} ReplayHighestFirst(messages: seq<Message>, uids: Option<set<nat>>)
    ensures Replay(messages, Reversed(Positions(messages, uids))) == Survivors(messages, uids)
  {
    if messages != [] {
      var n := |messages|;
      var front, last := messages[..n - 1], messages[n - 1];
      var p := Positions(front, uids);
      ReplayHighestFirst(front, uids);
      assert messages == front + [last];
      if Chosen(last, uids) {
        assert (p + [n])[..|p|] == p;
        assert Reversed(p + [n])[1..] == Reversed(p);
        assert Remove(messages, n) == front;
      } else {
        assert p + [] == p;
        NumbersAreSnapshotPositions(front, uids);
        ReversedInRange(p, |front|);
        ReplayAppend(front, [last], Reversed(p));
      }
    }
  }

  lemma {:induction false} ReversedInRange(p: seq<nat>, size: nat)
    requires SequenceSet.StrictlyIncreasing(p)
    requires forall k :: k in p ==> 1 <= k <= size
    ensures InRange(size, Reversed(p))
  {
    forall i | 0 <= i < |p|
      ensures 1 <= Reversed(p)[i] <= size - i
    {
      IncreasesByOne(p, |p| - 1 - i, |p| - 1);
      assert p[|p| - 1 - i] in p && p[|p| - 1] in p;
    }
  }

  lemma {:induction false} IncreasesByOne(p: seq<nat>, i: nat, j: nat)
    requires SequenceSet.StrictlyIncreasing(p) && i <= j < |p|
    ensures p[i] + (j - i) <= p[j]
    decreases j - i
  {
    if i < j {
      IncreasesByOne(p, i, j - 1);
    }
  }

  lemma RenumberedSnoc(p: seq<nat>, n: nat, size: nat)
    requires |p| < n <= size + 1 && InRange(size, Renumbered(p))
    ensures Renumbered(p + [n]) == Renumbered(p) + [n - |p|]
    ensures InRange(size + 1, Renumbered(p + [n]))
  {
    assert forall i :: 0 <= i < |p| ==> (p + [n])[i] == p[i];
  }

  lemma RemoveLast<T>(s: seq<T>, x: T)
    ensures Remove(s + [x], |s| + 1) == s
  {
  }

  /** The renumbered replay of `p` on `front` leaves `kept`. */
  ghost predicate LeadsTo(front: seq<Message>, p: seq<nat>, kept: seq<Message>) {
    InRange(|front|, Renumbered(p)) && Replay(front, Renumbered(p)) == kept
  }

  lemma OneMoreRemoved(front: seq<Message>, p: seq<nat>, kept: seq<Message>, last: Message)
    requires LeadsTo(front, p, kept) && |kept| == |front| - |p|
    ensures LeadsTo(front + [last], p + [|front| + 1], kept)
  {
    var n := |front| + 1;
    ReplayAppend(front, [last], Renumbered(p));
    RenumberedSnoc(p, n, |front|);
    ReplaySnoc(front + [last], Renumbered(p), n - |p|);
    RemoveLast(kept, last);
  }

  lemma OneMoreKept(front: seq<Message>, p: seq<nat>, kept: seq<Message>, last: Message)
    requires LeadsTo(front, p, kept)
    ensures LeadsTo(front + [last], p, kept + [last])
  {
    ReplayAppend(front, [last], Renumbered(p));
  }

  /** Replayed in order with the i-th number (from 0) lowered by i, they do so too. */
  lemma {:induction false} ReplayRenumbered(messages: seq<Message>, uids: Option<set<nat>>)
    ensures LeadsTo(messages, Positions(messages, uids), Survivors(messages, uids))
  {
    hide LeadsTo, Chosen;
    if messages == [] {
      NothingToRemove();
    } else {
      var n := |messages|;
      var front, last := messages[..n - 1], messages[n - 1];
      var p, kept := Positions(front, uids), Survivors(front, uids);
      ReplayRenumbered(front, uids);
      assert messages == front + [last];
      assert Positions(messages, uids) == if Chosen(last, uids) then p + [n] else p;
      assert Survivors(messages, uids) == if Chosen(last, uids) then kept else kept + [last];
      if Chosen(last, uids) {
        OneMoreRemoved(front, p, kept, last);
      } else {
        OneMoreKept(front, p, kept, last);
      }
    }
  }

  lemma NothingToRemove()
    ensures LeadsTo([], [], [])
  {
    assert Renumbered([]) == [];
  }

  lemma {:induction false} LaterRemovalsKeep<T>(s: seq<T>, k: nat, numbers: seq<nat>)
    requires 1 <= k <= |s| && forall i :: 0 <= i < |numbers| ==> numbers[i] > k
    ensures s[k - 1] in Replay(s, numbers)
  {
    if numbers != [] {
      var t := Remove(s, numbers[0]);
      assert t[k - 1] == s[k - 1];
      LaterRemovalsKeep(t, k, numbers[1..]);
    }
  }

  /** After the first removal the second number no longer names the message it was meant for. */
  lemma SecondStays<T>(s: seq<T>, p: seq<nat>)
    requires |p| >= 2 && SequenceSet.StrictlyIncreasing(p) && 1 <= p[0] && p[1] <= |s|
    ensures s[p[1] - 1] in Replay(s, p)
  {
    var t := Remove(s, p[0]);
    assert t[p[1] - 2] == s[p[1] - 1];
    LaterRemovalsKeep(t, p[1] - 1, p[1..]);
  }

  /** Replayed as emitted, one copy leaves the survivors exactly when at most one message was
      deleted, and then it is in range: the numbers are not lowered for the removals announced
      before them. */
  lemma ReplayAsEmitted(messages: seq<Message>, uids: Option<set<nat>>)
    ensures Replay(messages, Positions(messages, uids)) == Survivors(messages, uids)
       <==> |Positions(messages, uids)| <= 1
    ensures |Positions(messages, uids)| <= 1 ==> InRange(|messages|, Positions(messages, uids))
  {
    hide Positions, Survivors, Chosen, Replay;
    var p := Positions(messages, uids);
    NumbersAreSnapshotPositions(messages, uids);
    if |p| <= 1 {
      ReplayHighestFirst(messages, uids);
      assert Reversed(p) == p;
      assert |p| == 1 ==> p[0] in p;
    } else {
      assert p[0] in p && p[1] in p;
      SecondStays(messages, p);
      assert Chosen(messages[p[1] - 1], uids);
    }
  }

  // ---- Watching sessions -----------------------------------------------------------

  function PublishSteps(m: MailboxId, events: seq<MailboxEvent>): (steps: seq<Step>)
    ensures |steps| == |events| && forall i :: 0 <= i < |events| ==> steps[i] == DoPublish(m, events[i])
  {
    seq(|events|, i requires 0 <= i < |events| => DoPublish(m, events[i]))
  }

  lemma RunOnePublish(s: State, m: MailboxId, e: MailboxEvent)
    requires WellFormed(s)
    ensures Run(s, [DoPublish(m, e)]).0 == AfterPublish(s, m, e)
    ensures PublishedTo([DoPublish(m, e)], m) == [e]
  {
    hide WellFormed, AfterPublish;
    assert [DoPublish(m, e)][1..] == [];
  }

  lemma {:induction false} PublishAllIsRun(s: State, m: MailboxId, events: seq<MailboxEvent>)
    requires WellFormed(s)
    ensures Run(s, PublishSteps(m, events)).0 == PublishAll(s, m, events)
    ensures PublishedTo(PublishSteps(m, events), m) == events
  {
    hide WellFormed, AfterPublish, Apply;
    if events != [] {
      var n := |events|;
      var front, last := events[..n - 1], events[n - 1];
      var steps := PublishSteps(m, front);
      PublishAllIsRun(s, m, front);
      assert PublishSteps(m, events) == steps + [DoPublish(m, last)];
      hide PublishedTo, Run;
      RunOfAppend(s, steps, [DoPublish(m, last)]);
      RunOnePublish(PublishAll(s, m, front), m, last);
      PublishedToAppend(steps, [DoPublish(m, last)], m);
      assert events == front + [last];
    }
  }

  lemma {:induction false} PublishedToAppend(a: seq<Step>, b: seq<Step>, m: MailboxId)
    ensures PublishedTo(a + b, m) == PublishedTo(a, m) + PublishedTo(b, m)
  {
    if a == [] {
      assert a + b == b;
    } else {
      hide PublishedAt;
      PublishedToAppend(a[1..], b, m);
      assert (a + b)[1..] == a[1..] + b;
      var x, y, z := PublishedAt(a[0], m), PublishedTo(a[1..], m), PublishedTo(b, m);
      assert x + (y + z) == (x + y) + z;
    }
  }

  /** A session that watches the mailbox and had nothing left to read drains exactly the emitted
      EXPUNGE events, in order, when at most 256 messages were expunged. */
  lemma WatchersSeeEveryExpunge(
      before: seq<Step>, r: ReceiverId, m: MailboxId, messages: seq<Message>, uids: Option<set<nat>>)
    requires CaughtUp(Run(INITIAL, before).0, r, m)
    requires |Positions(messages, uids)| <= CHANNEL_CAPACITY
    ensures var events := ExpungeEvents(Positions(messages, uids));
            var s := PublishAll(Run(INITIAL, before).0, m, events);
            r in s.receivers && Drain(s, r).1 == events
  {
    var s0 := Run(INITIAL, before).0;
    var events := ExpungeEvents(Positions(messages, uids));
    PublishAllIsRun(s0, m, events);
    RunOfAppend(INITIAL, before, PublishSteps(m, events));
    DrainDeliversNewest(before, PublishSteps(m, events), r, m);
  }
}
