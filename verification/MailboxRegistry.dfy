/** Cross-session mailbox notification: per-mailbox broadcast channels that keep the last 256
    events, receivers that may lag behind, and a sweep that removes channels without receivers.

    `State` is the value the registry object holds; the class updates it in place and each method
    is specified by the step function of the same name. The runs that the theorems range over are
    sequences of those steps in any order, for any number of mailboxes and receivers. */
module Registry {
  import opened Basics

  const CHANNEL_CAPACITY: nat := 256

  type MailboxId = nat
  type ChannelId = nat
  type ReceiverId = nat

  datatype MailboxEvent =
    | Exists(count: nat)
    | Recent(count: nat)
    | Expunge(seqNum: nat)
    | FlagsChanged(uid: nat, flags: seq<string>)

  /** A channel's shared part: the newest events, and how many were ever sent. */
  datatype Channel = Channel(retained: seq<MailboxEvent>, tail: nat)

  /** A receiver's position: the number of the next event it will read. */
  datatype Receiver = Receiver(channel: ChannelId, next: nat)

  datatype State = State(
    channels: map<MailboxId, ChannelId>,
    shared: map<ChannelId, Channel>,
    receivers: map<ReceiverId, Receiver>,
    nextChannel: ChannelId,
    nextReceiver: ReceiverId)

  datatype TryRecv = Received(event: MailboxEvent) | Empty | Lagged(missed: nat) | Closed

  /** The last `n` elements, or all of them. */
  function Suffix<T>(s: seq<T>, n: nat): (t: seq<T>)
    ensures |t| == Min(n, |s|)
    ensures forall k :: 0 <= k < |t| ==> t[k] == s[|s| - |t| + k]
  {
    if n <= |s| then s[|s| - n..] else s
  }

  const INITIAL: State := State(map[], map[], map[], 0, 0)

  /** What the channel library itself maintains about its buffers and receivers. */
  ghost predicate WellFormed(s: State) {
    && (forall c :: c in s.shared ==>
          c < s.nextChannel && |s.shared[c].retained| == Min(s.shared[c].tail, CHANNEL_CAPACITY))
    && (forall m :: m in s.channels ==> s.channels[m] in s.shared)
    && (forall r :: r in s.receivers ==>
          && r < s.nextReceiver
          && s.receivers[r].channel in s.shared
          && s.receivers[r].next <= s.shared[s.receivers[r].channel].tail)
  }

  function Watchers(s: State, c: ChannelId): set<ReceiverId> {
    set r | r in s.receivers && s.receivers[r].channel == c
  }

  // ---- Steps ---------------------------------------------------------------

  function AfterSubscribe(s: State, m: MailboxId): (r: (State, ReceiverId))
    requires WellFormed(s)
    ensures WellFormed(r.0)
  {
    (JoinChannel(if m in s.channels then s else CreateChannel(s, m), m), s.nextReceiver)
  }

  function CreateChannel(s: State, m: MailboxId): (s1: State)
    requires WellFormed(s) && m !in s.channels
    ensures WellFormed(s1) && m in s1.channels && s1.nextReceiver == s.nextReceiver
  {
    s.(channels := s.channels[m := s.nextChannel],
       shared := s.shared[s.nextChannel := Channel([], 0)],
       nextChannel := s.nextChannel + 1)
  }

  /** A new receiver starts at the end of the channel: it sees future events only. */
  function JoinChannel(s: State, m: MailboxId): (s1: State)
    requires WellFormed(s) && m in s.channels
    ensures WellFormed(s1)
  {
    var c := s.channels[m];
    s.(receivers := s.receivers[s.nextReceiver := Receiver(c, s.shared[c].tail)],
       nextReceiver := s.nextReceiver + 1)
  }

  function Send(ch: Channel, e: MailboxEvent): (ch1: Channel)
    ensures ch1.tail == ch.tail + 1
  {
    Channel(Suffix(ch.retained + [e], CHANNEL_CAPACITY), ch.tail + 1)
  }

  function AfterPublish(s: State, m: MailboxId, e: MailboxEvent): (s1: State)
    requires WellFormed(s)
    ensures WellFormed(s1) && s1.receivers == s.receivers && s1.channels == s.channels
  {
    if m in s.channels && Watchers(s, s.channels[m]) != {} then
      s.(shared := s.shared[s.channels[m] := Send(s.shared[s.channels[m]], e)])
    else s
  }

  function AfterTryReceive(s: State, r: ReceiverId): (res: (State, TryRecv))
    requires WellFormed(s) && r in s.receivers
    ensures WellFormed(res.0) && res.0.receivers.Keys == s.receivers.Keys
    ensures res.1.Received? || res.1.Lagged? ==> Backlog(res.0, r) < Backlog(s, r)
  {
    var rx := s.receivers[r];
    var ch := s.shared[rx.channel];
    var oldest := ch.tail - |ch.retained|;
    if rx.next == ch.tail then (s, if rx.channel in s.channels.Values then Empty else Closed)
    else if rx.next < oldest then (MoveReceiver(s, r, oldest), Lagged(oldest - rx.next))
    else (MoveReceiver(s, r, rx.next + 1), Received(ch.retained[rx.next - oldest]))
  }

  function MoveReceiver(s: State, r: ReceiverId, next: nat): (s1: State)
    requires WellFormed(s) && r in s.receivers && next <= s.shared[s.receivers[r].channel].tail
    ensures WellFormed(s1)
  {
    s.(receivers := s.receivers[r := s.receivers[r].(next := next)])
  }

  function AfterDropReceiver(s: State, r: ReceiverId): (s1: State)
    requires WellFormed(s)
    ensures WellFormed(s1)
  {
    s.(receivers := s.receivers - {r})
  }

  function AfterCleanupClosed(s: State): (s1: State)
    requires WellFormed(s)
    ensures WellFormed(s1)
  {
    s.(channels := map m | m in s.channels && Watchers(s, s.channels[m]) != {} :: s.channels[m])
  }

  /** Events between a receiver's position and the end of its channel. */
  function Backlog(s: State, r: ReceiverId): nat
    requires WellFormed(s) && r in s.receivers
  {
    s.shared[s.receivers[r].channel].tail - s.receivers[r].next
  }

  /** Repeats `TryReceive` until nothing is left; reports whether the channel was closed. */
  function Drain(s: State, r: ReceiverId): (res: (State, seq<MailboxEvent>, bool))
    requires WellFormed(s) && r in s.receivers
    ensures WellFormed(res.0)
    decreases Backlog(s, r)
  {
    var (s1, got) := AfterTryReceive(s, r);
    match got
    case Empty => (s1, [], false)
    case Closed => (s1, [], true)
    case Lagged(_) => Drain(s1, r)
    case Received(e) => var (s2, rest, closed) := Drain(s1, r); (s2, [e] + rest, closed)
  }

  // ---- The registry object -------------------------------------------------

  class MailboxRegistry {
    var channels: map<MailboxId, ChannelId>
    var shared: map<ChannelId, Channel>
    var receivers: map<ReceiverId, Receiver>
    var nextChannel: ChannelId
    var nextReceiver: ReceiverId

    function Current(): State
      reads this
    {
      State(channels, shared, receivers, nextChannel, nextReceiver)
    }

    ghost predicate Valid()
      reads this
    {
      WellFormed(Current())
    }

    constructor ()
      ensures Valid() && Current() == INITIAL
    {
      channels, shared, receivers, nextChannel, nextReceiver := map[], map[], map[], 0, 0;
    }

    /** Returns a receiver of future events, creating the channel for a first subscriber. */
    method Subscribe(m: MailboxId) returns (r: ReceiverId)
      requires Valid()
      modifies this
      ensures Valid() && (Current(), r) == AfterSubscribe(old(Current()), m)
    {
      if m !in channels {
        channels := channels[m := nextChannel];
        shared := shared[nextChannel := Channel([], 0)];
        nextChannel := nextChannel + 1;
      }
      r := nextReceiver;
      receivers := receivers[r := Receiver(channels[m], shared[channels[m]].tail)];
      nextReceiver := nextReceiver + 1;
    }

    /** Sends to all current receivers; without receivers the event is dropped silently. */
    method Publish(m: MailboxId, e: MailboxEvent)
      requires Valid()
      modifies this`shared
      ensures Valid() && Current() == AfterPublish(old(Current()), m, e)
    {
      if m in channels {
        var c := channels[m];
        if Watchers(Current(), c) != {} {
          shared := shared[c := Send(shared[c], e)];
        }
      }
    }

    method TryReceive(r: ReceiverId) returns (got: TryRecv)
      requires Valid() && r in receivers
      modifies this`receivers
      ensures Valid() && (Current(), got) == AfterTryReceive(old(Current()), r)
    {
      var rx := receivers[r];
      var ch := shared[rx.channel];
      var oldest := ch.tail - |ch.retained|;
      if rx.next == ch.tail {
        got := if rx.channel in channels.Values then Empty else Closed;
      } else if rx.next < oldest {
        got := Lagged(oldest - rx.next);
        receivers := receivers[r := rx.(next := oldest)];
      } else {
        got := Received(ch.retained[rx.next - oldest]);
        receivers := receivers[r := rx.(next := rx.next + 1)];
      }
    }

    method DropReceiver(r: ReceiverId)
      requires Valid()
      modifies this`receivers
      ensures Valid() && Current() == AfterDropReceiver(old(Current()), r)
    {
      receivers := receivers - {r};
    }

    /** Removes the channels that have no receiver left. */
    method CleanupClosed()
      requires Valid()
      modifies this`channels
      ensures Valid() && Current() == AfterCleanupClosed(old(Current()))
    {
      var s := Current();
      channels := map m | m in channels && Watchers(s, channels[m]) != {} :: channels[m];
    }
  }

  // ---- Runs ----------------------------------------------------------------

  datatype Step =
    | DoSubscribe(mailbox: MailboxId)
    | DoPublish(mailbox: MailboxId, event: MailboxEvent)
    | DoTryReceive(receiver: ReceiverId)
    | DoDrain(receiver: ReceiverId)
    | DoDrop(receiver: ReceiverId)
    | DoCleanup

  datatype Output =
    | Silent
    | NewReceiver(receiver: ReceiverId)
    | Polled(got: TryRecv)
    | Drained(events: seq<MailboxEvent>, closed: bool)

  /** One step; polling a receiver that does not exist (a session without one) yields nothing. */
  function Apply(s: State, step: Step): (r: (State, Output))
    requires WellFormed(s)
    ensures WellFormed(r.0)
  {
    match step
    case DoSubscribe(m) => var (s1, r) := AfterSubscribe(s, m); (s1, NewReceiver(r))
    case DoPublish(m, e) => (AfterPublish(s, m, e), Silent)
    case DoTryReceive(r) =>
      if r in s.receivers then var (s1, got) := AfterTryReceive(s, r); (s1, Polled(got)) else (s, Silent)
    case DoDrain(r) =>
      if r in s.receivers then var (s1, events, closed) := Drain(s, r); (s1, Drained(events, closed))
      else (s, Drained([], false))
    case DoDrop(r) => (AfterDropReceiver(s, r), Silent)
    case DoCleanup => (AfterCleanupClosed(s), Silent)
  }

  // ---- Channels without receivers ------------------------------------------

  ghost predicate Heard(s: State, c: ChannelId) {
    exists r :: r in s.receivers && s.receivers[r].channel == c
  }

  lemma HeardIffWatched(s: State, c: ChannelId)
    ensures Heard(s, c) <==> Watchers(s, c) != {}
  {
    if r :| r in s.receivers && s.receivers[r].channel == c {
      assert r in Watchers(s, c);
    }
    if r :| r in Watchers(s, c) {
      assert r in s.receivers && s.receivers[r].channel == c;
    }
  }

  /** A sweep removes exactly the mailboxes that no receiver hears, and touches nothing else. */
  lemma SweepRemovesUnheard(s: State, m: MailboxId)
    requires WellFormed(s)
    ensures var s1 := AfterCleanupClosed(s);
            && (m in s1.channels <==> m in s.channels && Heard(s, s.channels[m]))
            && (m in s1.channels ==> s1.channels[m] == s.channels[m])
            && s1 == s.(channels := s1.channels)
  {
    hide WellFormed, Watchers, Heard;
    if m in s.channels {
      HeardIffWatched(s, s.channels[m]);
    }
  }

  /** An event that nobody hears leaves no trace. */
  lemma UnheardEventIsDropped(s: State, m: MailboxId, e: MailboxEvent)
    requires WellFormed(s) && (m in s.channels ==> !Heard(s, s.channels[m]))
    ensures AfterPublish(s, m, e) == s
  {
    hide WellFormed, Watchers, Heard;
    if m in s.channels {
      HeardIffWatched(s, s.channels[m]);
    }
  }

  // ---- The reference: one unbounded queue per receiver ---------------------

  datatype Queue = Queue(mailbox: MailboxId, pending: seq<MailboxEvent>)

  datatype Ideal = Ideal(queues: map<ReceiverId, Queue>, nextReceiver: ReceiverId)

  /** The intended meaning: every receiver has its own queue of the events published to its
      mailbox; reading skips whatever is older than the newest 256; no queue ever closes. */
  function IdealApply(i: Ideal, step: Step): (Ideal, Output) {
    match step
    case DoSubscribe(m) =>
      (Ideal(i.queues[i.nextReceiver := Queue(m, [])], i.nextReceiver + 1), NewReceiver(i.nextReceiver))
    case DoPublish(m, e) => (IdealPublish(i, m, e), Silent)
    case DoTryReceive(r) =>
      if r !in i.queues then (i, Silent)
      else
        var (q, got) := IdealTryReceive(i.queues[r]);
        (i.(queues := i.queues[r := q]), Polled(got))
    case DoDrain(r) =>
      if r !in i.queues then (i, Drained([], false))
      else (i.(queues := i.queues[r := i.queues[r].(pending := [])]),
            Drained(Suffix(i.queues[r].pending, CHANNEL_CAPACITY), false))
    case DoDrop(r) => (i.(queues := i.queues - {r}), Silent)
    case DoCleanup => (i, Silent)
  }

  function IdealPublish(i: Ideal, m: MailboxId, e: MailboxEvent): (i1: Ideal)
    ensures i1.queues.Keys == i.queues.Keys && i1.nextReceiver == i.nextReceiver
  {
    i.(queues := map r | r in i.queues ::
         if i.queues[r].mailbox == m then i.queues[r].(pending := i.queues[r].pending + [e]) else i.queues[r])
  }

  function IdealTryReceive(q: Queue): (Queue, TryRecv) {
    if q.pending == [] then (q, Empty)
    else if |q.pending| > CHANNEL_CAPACITY then
      (q.(pending := Suffix(q.pending, CHANNEL_CAPACITY)), Lagged(|q.pending| - CHANNEL_CAPACITY))
    else (q.(pending := q.pending[1..]), Received(q.pending[0]))
  }

  /** How a registry represents the queues: positions count the pending events, and the newest
      of them are the newest retained ones. */
  ghost predicate Represents(s: State, i: Ideal) {
    && WellFormed(s)
    && s.receivers.Keys == i.queues.Keys
    && s.nextReceiver == i.nextReceiver
    && (forall m, n :: m in s.channels && n in s.channels && s.channels[m] == s.channels[n] ==> m == n)
    && (forall r :: r in s.receivers ==> Holds(s.channels, s.shared, s.receivers[r], i.queues[r]))
  }

  ghost predicate Holds(
    channels: map<MailboxId, ChannelId>, shared: map<ChannelId, Channel>, rx: Receiver, q: Queue)
  {
    && rx.channel in shared
    && var ch := shared[rx.channel];
    && q.mailbox in channels && channels[q.mailbox] == rx.channel
    && rx.next + |q.pending| == ch.tail
    && |ch.retained| == Min(ch.tail, CHANNEL_CAPACITY)
    && Suffix(q.pending, CHANNEL_CAPACITY) == Suffix(ch.retained, |q.pending|)
  }

  // ---- Refinement ----------------------------------------------------------

  lemma QueueOf(s: State, i: Ideal, r: ReceiverId)
    requires Represents(s, i) && r in s.receivers
    ensures WellFormed(s) && r in i.queues && Holds(s.channels, s.shared, s.receivers[r], i.queues[r])
  {
  }

  lemma SendKeepsSuffix(ch: Channel, pending: seq<MailboxEvent>, e: MailboxEvent)
    requires |pending| <= ch.tail && |ch.retained| == Min(ch.tail, CHANNEL_CAPACITY)
    requires Suffix(pending, CHANNEL_CAPACITY) == Suffix(ch.retained, |pending|)
    ensures var kept := Send(ch, e).retained;
            && |kept| == Min(ch.tail + 1, CHANNEL_CAPACITY)
            && Suffix(pending + [e], CHANNEL_CAPACITY) == Suffix(kept, |pending| + 1)
  {
    var n, kept := |pending|, Send(ch, e).retained;
    if n >= CHANNEL_CAPACITY {
      FullBuffer(ch.retained, pending, e);
    } else {
      assert Suffix(pending, CHANNEL_CAPACITY) == pending;
      assert Suffix(kept, n + 1) == Suffix(ch.retained, n) + [e];
    }
  }

  lemma FullBuffer(retained: seq<MailboxEvent>, pending: seq<MailboxEvent>, e: MailboxEvent)
    requires |retained| == CHANNEL_CAPACITY <= |pending|
    requires Suffix(pending, CHANNEL_CAPACITY) == retained
    ensures Suffix(pending + [e], CHANNEL_CAPACITY) == Suffix(retained + [e], CHANNEL_CAPACITY)
  {
    var n := |pending|;
    assert (pending + [e])[n + 1 - CHANNEL_CAPACITY..] == pending[n - CHANNEL_CAPACITY..][1..] + [e];
    assert (retained + [e])[1..] == retained[1..] + [e];
  }

  lemma PublishReaches(s: State, i: Ideal, m: MailboxId, e: MailboxEvent, r: ReceiverId)
    requires Represents(s, i) && r in s.receivers
    ensures Holds(s.channels, AfterPublish(s, m, e).shared, s.receivers[r], IdealPublish(i, m, e).queues[r])
  {
    hide Suffix, Send;
    QueueOf(s, i, r);
    var q, ch := i.queues[r], s.shared[s.receivers[r].channel];
    if q.mailbox == m {
      assert r in Watchers(s, s.channels[m]);
      SendKeepsSuffix(ch, q.pending, e);
    }
  }

  lemma PublishRefines(s: State, i: Ideal, m: MailboxId, e: MailboxEvent)
    requires Represents(s, i)
    ensures Represents(AfterPublish(s, m, e), IdealPublish(i, m, e))
  {
    hide Holds, Watchers, Send, WellFormed, IdealPublish;
    forall r | r in s.receivers
      ensures Holds(s.channels, AfterPublish(s, m, e).shared, s.receivers[r], IdealPublish(i, m, e).queues[r])
    {
      PublishReaches(s, i, m, e, r);
    }
  }

  /** A new channel changes nothing for existing receivers. */
  lemma CreateRefines(s: State, i: Ideal, m: MailboxId)
    requires Represents(s, i) && m !in s.channels
    ensures Represents(CreateChannel(s, m), i)
  {
    var s1 := CreateChannel(s, m);
    forall r | r in s1.receivers
      ensures Holds(s1.channels, s1.shared, s1.receivers[r], i.queues[r])
    {
      QueueOf(s, i, r);
    }
  }

  lemma JoinRefines(s: State, i: Ideal, m: MailboxId)
    requires Represents(s, i) && m in s.channels
    ensures Represents(JoinChannel(s, m), IdealApply(i, DoSubscribe(m)).0)
  {
    var s1, i1 := JoinChannel(s, m), IdealApply(i, DoSubscribe(m)).0;
    forall r | r in s1.receivers
      ensures Holds(s1.channels, s1.shared, s1.receivers[r], i1.queues[r])
    {
      if r != s.nextReceiver {
        QueueOf(s, i, r);
      }
    }
  }

  lemma SubscribeRefines(s: State, i: Ideal, m: MailboxId)
    requires Represents(s, i)
    ensures Represents(AfterSubscribe(s, m).0, IdealApply(i, DoSubscribe(m)).0)
    ensures s.nextReceiver == i.nextReceiver
  {
    hide WellFormed, Holds, JoinChannel, CreateChannel, IdealApply;
    if m in s.channels {
      JoinRefines(s, i, m);
    } else {
      CreateRefines(s, i, m);
      JoinRefines(CreateChannel(s, m), i, m);
    }
  }

  lemma SameReceivers(s: State, i: Ideal)
    requires Represents(s, i)
    ensures WellFormed(s) && s.receivers.Keys == i.queues.Keys
  {
  }

  lemma MoveRefines(s: State, i: Ideal, r: ReceiverId, next: nat, q: Queue)
    requires Represents(s, i) && r in s.receivers && next <= s.shared[s.receivers[r].channel].tail
    requires Holds(s.channels, s.shared, s.receivers[r].(next := next), q)
    ensures Represents(MoveReceiver(s, r, next), i.(queues := i.queues[r := q]))
  {
    hide Suffix, Holds;
  }

  /** One poll of a channel buffer against one poll of the queue it holds. */
  lemma PollAgrees(retained: seq<MailboxEvent>, pending: seq<MailboxEvent>, tail: nat)
    requires 0 < |pending| <= tail && |retained| == Min(tail, CHANNEL_CAPACITY)
    requires Suffix(pending, CHANNEL_CAPACITY) == Suffix(retained, |pending|)
    ensures |pending| > CHANNEL_CAPACITY ==>
              var p := Suffix(pending, CHANNEL_CAPACITY);
              Suffix(p, CHANNEL_CAPACITY) == Suffix(retained, |p|)
    ensures |pending| <= CHANNEL_CAPACITY ==>
              && |pending| <= |retained|
              && retained[|retained| - |pending|] == pending[0]
              && Suffix(pending[1..], CHANNEL_CAPACITY) == Suffix(retained, |pending| - 1)
  {
    if |pending| <= CHANNEL_CAPACITY {
      assert pending == retained[|retained| - |pending|..];
    }
  }

  lemma TryReceiveRefines(s: State, i: Ideal, r: ReceiverId)
    requires Represents(s, i) && r in s.receivers
    ensures var (s1, got) := AfterTryReceive(s, r);
            var (q, ideal) := IdealTryReceive(i.queues[r]);
            got == ideal && Represents(s1, i.(queues := i.queues[r := q]))
  {
    hide Represents, WellFormed, MoveReceiver, Suffix;
    QueueOf(s, i, r);
    var rx, q := s.receivers[r], i.queues[r];
    var ch := s.shared[rx.channel];
    var q1 := IdealTryReceive(q).0;
    if q.pending == [] {
      assert s.channels[q.mailbox] in s.channels.Values;
      assert i.queues[r := q] == i.queues;
    } else {
      PollAgrees(ch.retained, q.pending, ch.tail);
      MoveRefines(s, i, r, ch.tail - |q1.pending|, q1);
    }
  }

  lemma {:induction false} DrainRefines(s: State, i: Ideal, r: ReceiverId)
    requires Represents(s, i) && r in s.receivers
    ensures var (s1, events, closed) := Drain(s, r);
            && !closed
            && events == Suffix(i.queues[r].pending, CHANNEL_CAPACITY)
            && Represents(s1, i.(queues := i.queues[r := i.queues[r].(pending := [])]))
    decreases Backlog(s, r)
  {
    hide Represents, WellFormed, AfterTryReceive, Suffix, Holds;
    QueueOf(s, i, r);
    TryReceiveRefines(s, i, r);
    SuffixOfPoll(i.queues[r].pending);
    var q := i.queues[r];
    var (s1, got) := AfterTryReceive(s, r);
    var q1 := IdealTryReceive(q).0;
    var i1 := i.(queues := i.queues[r := q1]);
    if got.Empty? {
      assert i.queues[r := q.(pending := [])] == i.queues;
    } else {
      DrainRefines(s1, i1, r);
      assert i1.queues[r := q1.(pending := [])] == i.queues[r := q.(pending := [])];
    }
  }

  lemma SuffixOfPoll(p: seq<MailboxEvent>)
    ensures p == [] ==> Suffix(p, CHANNEL_CAPACITY) == []
    ensures Suffix(Suffix(p, CHANNEL_CAPACITY), CHANNEL_CAPACITY) == Suffix(p, CHANNEL_CAPACITY)
    ensures 0 < |p| <= CHANNEL_CAPACITY ==>
              Suffix(p, CHANNEL_CAPACITY) == [p[0]] + Suffix(p[1..], CHANNEL_CAPACITY)
  {
  }

  lemma CleanupRefines(s: State, i: Ideal)
    requires Represents(s, i)
    ensures Represents(AfterCleanupClosed(s), i)
  {
    var s1 := AfterCleanupClosed(s);
    forall r | r in s.receivers
      ensures Holds(s1.channels, s1.shared, s1.receivers[r], i.queues[r])
    {
      assert Holds(s.channels, s.shared, s.receivers[r], i.queues[r]);
      assert r in Watchers(s, s.receivers[r].channel);
    }
  }

  /** Each step of the registry does what it does to the queues, with the same output. */
  lemma StepRefines(s: State, i: Ideal, step: Step)
    requires Represents(s, i)
    ensures var (s1, out) := Apply(s, step);
            var (i1, ideal) := IdealApply(i, step);
            out == ideal && Represents(s1, i1)
  {
    match step
    case DoSubscribe(m) => SubscribeRefines(s, i, m);
    case DoPublish(m, e) => PublishRefines(s, i, m, e);
    case DoTryReceive(r) => if r in s.receivers { TryReceiveRefines(s, i, r); }
    case DoDrain(r) => if r in s.receivers { DrainRefines(s, i, r); }
    case DoDrop(r) =>
      var s1 := AfterDropReceiver(s, r);
      forall t | t in s1.receivers
        ensures Holds(s1.channels, s1.shared, s1.receivers[t], i.queues[t])
      {
        assert Holds(s.channels, s.shared, s.receivers[t], i.queues[t]);
      }
    case DoCleanup => CleanupRefines(s, i);
  }

  ghost function IdealRun(i: Ideal, steps: seq<Step>): (Ideal, seq<Output>)
    decreases steps
  {
    if steps == [] then (i, [])
    else
      var (i1, out) := IdealApply(i, steps[0]);
      var (i2, rest) := IdealRun(i1, steps[1..]);
      (i2, [out] + rest)
  }

  /** The final state and the outputs of a run. */
  ghost function Run(s: State, steps: seq<Step>): (r: (State, seq<Output>))
    requires WellFormed(s)
    ensures WellFormed(r.0) && |r.1| == |steps|
    decreases steps
  {
    if steps == [] then (s, [])
    else
      var (s1, out) := Apply(s, steps[0]);
      var (s2, rest) := Run(s1, steps[1..]);
      (s2, [out] + rest)
  }

  lemma {:induction false} RunFromRefines(s: State, i: Ideal, steps: seq<Step>)
    requires Represents(s, i)
    ensures Run(s, steps).1 == IdealRun(i, steps).1
    ensures Represents(Run(s, steps).0, IdealRun(i, steps).0)
    decreases steps
  {
    if steps != [] {
      StepRefines(s, i, steps[0]);
      RunFromRefines(Apply(s, steps[0]).0, IdealApply(i, steps[0]).0, steps[1..]);
    }
  }

  const NO_QUEUES: Ideal := Ideal(map[], 0)

  /** Main refinement theorem: from an empty registry, every interleaving of subscriptions,
      publications, polls, drains, drops and sweeps behaves like unbounded queues. */
  lemma RunRefines(steps: seq<Step>)
    ensures Run(INITIAL, steps).1 == IdealRun(NO_QUEUES, steps).1
    ensures Represents(Run(INITIAL, steps).0, IdealRun(NO_QUEUES, steps).0)
  {
    RunFromRefines(INITIAL, NO_QUEUES, steps);
  }

  ghost predicate ReportsClosed(out: Output) {
    (out.Polled? && out.got.Closed?) || (out.Drained? && out.closed)
  }

  lemma {:induction false} IdealNeverCloses(i: Ideal, steps: seq<Step>)
    ensures forall k :: 0 <= k < |IdealRun(i, steps).1| ==> !ReportsClosed(IdealRun(i, steps).1[k])
    decreases steps
  {
    if steps != [] {
      IdealNeverCloses(IdealApply(i, steps[0]).0, steps[1..]);
    }
  }

  /** A channel with a live receiver is never removed, so no poll or drain ever sees `Closed`. */
  lemma ClosedIsUnreachable(steps: seq<Step>)
    ensures forall k :: 0 <= k < |Run(INITIAL, steps).1| ==> !ReportsClosed(Run(INITIAL, steps).1[k])
    ensures var s := Run(INITIAL, steps).0;
            forall r :: r in s.receivers ==> s.receivers[r].channel in s.channels.Values
  {
    RunRefines(steps);
    IdealNeverCloses(NO_QUEUES, steps);
    var s, i := Run(INITIAL, steps).0, IdealRun(NO_QUEUES, steps).0;
    forall r | r in s.receivers
      ensures s.receivers[r].channel in s.channels.Values
    {
      assert Holds(s.channels, s.shared, s.receivers[r], i.queues[r]);
      assert s.channels[i.queues[r].mailbox] in s.channels.Values;
    }
  }

  // ---- What a receiver gets, in terms of the run alone ---------------------

  /** The events published to `m`, in publication order. */
  ghost function PublishedTo(steps: seq<Step>, m: MailboxId): seq<MailboxEvent> {
    if steps == [] then []
    else PublishedAt(steps[0], m) + PublishedTo(steps[1..], m)
  }

  ghost function PublishedAt(step: Step, m: MailboxId): seq<MailboxEvent> {
    if step.DoPublish? && step.mailbox == m then [step.event] else []
  }

  /** The step reads from or drops receiver `r`. */
  ghost predicate Touches(step: Step, r: ReceiverId) {
    (step.DoTryReceive? || step.DoDrain? || step.DoDrop?) && step.receiver == r
  }

  ghost predicate KeysBelow(i: Ideal) {
    forall r :: r in i.queues ==> r < i.nextReceiver
  }

  lemma {:induction false} PendingIsPublished(i: Ideal, r: ReceiverId, steps: seq<Step>)
    requires KeysBelow(i) && r in i.queues
    requires forall k :: 0 <= k < |steps| ==> !Touches(steps[k], r)
    ensures var i1 := IdealRun(i, steps).0;
            && r in i1.queues && KeysBelow(i1)
            && i1.queues[r] == i.queues[r].(pending := i.queues[r].pending + PublishedTo(steps, i.queues[r].mailbox))
    decreases steps
  {
    if steps != [] {
      var m := i.queues[r].mailbox;
      var i1 := IdealApply(i, steps[0]).0;
      assert !Touches(steps[0], r);
      PendingIsPublished(i1, r, steps[1..]);
      if steps[0].DoPublish? && steps[0].mailbox == m {
        assert i.queues[r].pending + [steps[0].event] + PublishedTo(steps[1..], m)
            == i.queues[r].pending + PublishedTo(steps, m);
      }
    } else {
      assert i.queues[r].pending + [] == i.queues[r].pending;
    }
  }

  lemma {:induction false} RunOfAppend(s: State, a: seq<Step>, b: seq<Step>)
    requires WellFormed(s)
    ensures Run(s, a + b).0 == Run(Run(s, a).0, b).0
    decreases a
  {
    hide Apply, WellFormed;
    if a == [] {
      assert a + b == b;
    } else {
      RunOfAppend(Apply(s, a[0]).0, a[1..], b);
      assert (a + b)[1..] == a[1..] + b;
    }
  }

  /** A receiver of mailbox `m` that has nothing left to read. */
  ghost predicate CaughtUp(s: State, r: ReceiverId, m: MailboxId) {
    && WellFormed(s) && r in s.receivers
    && m in s.channels && s.channels[m] == s.receivers[r].channel
    && Backlog(s, r) == 0
  }

  /** Subscribing and draining both leave the receiver caught up. */
  lemma SubscribingAndDrainingCatchUp(before: seq<Step>, m: MailboxId, r: ReceiverId)
    ensures var (s, r1) := AfterSubscribe(Run(INITIAL, before).0, m); CaughtUp(s, r1, m)
    ensures var s := Run(INITIAL, before).0;
            r in s.receivers && m in s.channels && s.channels[m] == s.receivers[r].channel
            ==> CaughtUp(Drain(s, r).0, r, m)
  {
    RunRefines(before);
    var s, i := Run(INITIAL, before).0, IdealRun(NO_QUEUES, before).0;
    SubscribeRefines(s, i, m);
    if r in s.receivers && m in s.channels && s.channels[m] == s.receivers[r].channel {
      assert Holds(s.channels, s.shared, s.receivers[r], i.queues[r]);
      DrainRefines(s, i, r);
      var s1, q1 := Drain(s, r).0, i.queues[r].(pending := []);
      assert Holds(s1.channels, s1.shared, s1.receivers[r], q1);
    }
  }

  /** Main delivery theorem: a drain returns, in publication order, exactly the most recent 256
      of the events published to the receiver's mailbox since it last had nothing to read,
      whatever else happened in between. */
  lemma DrainDeliversNewest(before: seq<Step>, between: seq<Step>, r: ReceiverId, m: MailboxId)
    requires CaughtUp(Run(INITIAL, before).0, r, m)
    requires forall k :: 0 <= k < |between| ==> !Touches(between[k], r)
    ensures var s := Run(INITIAL, before + between).0;
            && r in s.receivers
            && Drain(s, r).1 == Suffix(PublishedTo(between, m), 256)
            && !Drain(s, r).2
  {
    RunRefines(before);
    var s0, i0 := Run(INITIAL, before).0, IdealRun(NO_QUEUES, before).0;
    CaughtUpIsEmptyQueue(s0, i0, r, m);
    hide Represents, WellFormed, CaughtUp, Run, IdealRun, Drain, PublishedTo, Suffix;
    PendingIsPublished(i0, r, between);
    RunFromRefines(s0, i0, between);
    RunOfAppend(INITIAL, before, between);
    var s, i := Run(s0, between).0, IdealRun(i0, between).0;
    assert [] + PublishedTo(between, m) == PublishedTo(between, m);
    SameReceivers(s, i);
    DrainRefines(s, i, r);
  }

  lemma CaughtUpIsEmptyQueue(s: State, i: Ideal, r: ReceiverId, m: MailboxId)
    requires Represents(s, i) && CaughtUp(s, r, m)
    ensures KeysBelow(i) && r in i.queues && i.queues[r] == Queue(m, [])
  {
    QueueOf(s, i, r);
  }

  /** What the drains of `r` returned, in order. */
  ghost function DrainedBy(steps: seq<Step>, outs: seq<Output>, r: ReceiverId): seq<MailboxEvent>
    requires |steps| == |outs|
  {
    if steps == [] then []
    else DrainedAt(steps[0], outs[0], r) + DrainedBy(steps[1..], outs[1..], r)
  }

  ghost function DrainedAt(step: Step, out: Output, r: ReceiverId): seq<MailboxEvent> {
    if step == DoDrain(r) && out.Drained? then out.events else []
  }

  /** At most 256 events are waiting whenever `r` is drained. */
  ghost predicate NeverOverflows(i: Ideal, steps: seq<Step>, r: ReceiverId)
    decreases steps
  {
    steps != [] ==>
      && (steps[0] == DoDrain(r) && r in i.queues ==> |i.queues[r].pending| <= CHANNEL_CAPACITY)
      && NeverOverflows(IdealApply(i, steps[0]).0, steps[1..], r)
  }

  /** One step moves events from "published" to "pending" to "drained" and loses none. */
  lemma StepBalances(i: Ideal, r: ReceiverId, step: Step)
    requires KeysBelow(i) && r in i.queues
    requires step != DoDrop(r) && step != DoTryReceive(r)
    requires step == DoDrain(r) ==> |i.queues[r].pending| <= CHANNEL_CAPACITY
    ensures var (i1, out) := IdealApply(i, step);
            && KeysBelow(i1) && r in i1.queues && i1.queues[r].mailbox == i.queues[r].mailbox
            && DrainedAt(step, out, r) + i1.queues[r].pending
               == i.queues[r].pending + PublishedAt(step, i.queues[r].mailbox)
  {
  }

  lemma {:induction false} IdealDeliversEverything(i: Ideal, r: ReceiverId, steps: seq<Step>)
    requires KeysBelow(i) && r in i.queues
    requires forall k :: 0 <= k < |steps| ==> steps[k] != DoDrop(r) && steps[k] != DoTryReceive(r)
    requires NeverOverflows(i, steps, r)
    ensures var (i1, outs) := IdealRun(i, steps);
            && |outs| == |steps| && r in i1.queues
            && DrainedBy(steps, outs, r) + i1.queues[r].pending
               == i.queues[r].pending + PublishedTo(steps, i.queues[r].mailbox)
    decreases steps
  {
    hide IdealApply, KeysBelow, DrainedAt, PublishedAt;
    if steps != [] {
      var m := i.queues[r].mailbox;
      StepBalances(i, r, steps[0]);
      var (i1, out) := IdealApply(i, steps[0]);
      IdealDeliversEverything(i1, r, steps[1..]);
      var (i2, outs) := IdealRun(i, steps);
      assert outs == [out] + outs[1..];
      calc {
        DrainedBy(steps, outs, r) + i2.queues[r].pending;
        DrainedAt(steps[0], out, r) + (DrainedBy(steps[1..], outs[1..], r) + i2.queues[r].pending);
        DrainedAt(steps[0], out, r) + i1.queues[r].pending + PublishedTo(steps[1..], m);
        i.queues[r].pending + PublishedAt(steps[0], m) + PublishedTo(steps[1..], m);
        i.queues[r].pending + PublishedTo(steps, m);
      }
    }
  }

  /** Steps `j` to `k` end in a drain of `r` and contain no earlier one. */
  ghost predicate UpToDrain(steps: seq<Step>, j: nat, k: nat, r: ReceiverId) {
    j <= k < |steps| && steps[k] == DoDrain(r) && forall l :: j <= l < k ==> steps[l] != DoDrain(r)
  }

  /** At most 256 events are published to `m` before each drain of `r` since the one before it. */
  ghost predicate SpacedDrains(steps: seq<Step>, m: MailboxId, r: ReceiverId) {
    forall j: nat, k: nat :: UpToDrain(steps, j, k, r) ==> |PublishedTo(steps[j..k], m)| <= CHANNEL_CAPACITY
  }

  lemma SpacedTail(steps: seq<Step>, m: MailboxId, r: ReceiverId)
    requires steps != [] && SpacedDrains(steps, m, r)
    ensures SpacedDrains(steps[1..], m, r)
  {
    var tail := steps[1..];
    forall j: nat, k: nat | UpToDrain(tail, j, k, r)
      ensures |PublishedTo(tail[j..k], m)| <= CHANNEL_CAPACITY
    {
      assert forall l :: j + 1 <= l < k + 1 ==> steps[l] == tail[l - 1];
      assert UpToDrain(steps, j + 1, k + 1, r);
      assert tail[j..k] == steps[j + 1..k + 1];
    }
  }

  /** What waits, with what is published before the next drain, fits the channel. */
  ghost predicate NextDrainFits(waiting: nat, steps: seq<Step>, m: MailboxId, r: ReceiverId) {
    forall k: nat :: UpToDrain(steps, 0, k, r) ==> waiting + |PublishedTo(steps[..k], m)| <= CHANNEL_CAPACITY
  }

  lemma NextDrainTail(waiting: nat, later: nat, steps: seq<Step>, m: MailboxId, r: ReceiverId)
    requires steps != [] && NextDrainFits(waiting, steps, m, r) && SpacedDrains(steps, m, r)
    requires later == if steps[0] == DoDrain(r) then 0 else waiting + |PublishedAt(steps[0], m)|
    ensures NextDrainFits(later, steps[1..], m, r)
  {
    var tail := steps[1..];
    forall k: nat | UpToDrain(tail, 0, k, r) ensures later + |PublishedTo(tail[..k], m)| <= CHANNEL_CAPACITY {
      assert forall l :: 1 <= l < k + 1 ==> steps[l] == tail[l - 1];
      if steps[0] == DoDrain(r) {
        assert UpToDrain(steps, 1, k + 1, r);
        assert steps[1..k + 1] == tail[..k];
      } else {
        assert UpToDrain(steps, 0, k + 1, r);
        assert steps[..k + 1][1..] == tail[..k] && steps[..k + 1][0] == steps[0];
      }
    }
  }

  lemma {:induction false} SpacedDrainsNeverOverflow(i: Ideal, r: ReceiverId, steps: seq<Step>)
    requires KeysBelow(i) && r in i.queues
    requires forall k :: 0 <= k < |steps| ==> steps[k] != DoDrop(r) && steps[k] != DoTryReceive(r)
    requires SpacedDrains(steps, i.queues[r].mailbox, r)
    requires NextDrainFits(|i.queues[r].pending|, steps, i.queues[r].mailbox, r)
    ensures NeverOverflows(i, steps, r)
    decreases steps
  {
    if steps != [] {
      var q := i.queues[r];
      assert steps[0] == DoDrain(r) ==> UpToDrain(steps, 0, 0, r) && |PublishedTo(steps[..0], q.mailbox)| == 0;
      hide IdealApply, KeysBelow, SpacedDrains, NextDrainFits, PublishedTo;
      StepBalances(i, r, steps[0]);
      var (i1, out) := IdealApply(i, steps[0]);
      FirstPending(i, r, steps[0]);
      SpacedTail(steps, q.mailbox, r);
      NextDrainTail(|q.pending|, |i1.queues[r].pending|, steps, q.mailbox, r);
      SpacedDrainsNeverOverflow(i1, r, steps[1..]);
    }
  }

  lemma FirstPending(i: Ideal, r: ReceiverId, step: Step)
    requires KeysBelow(i) && r in i.queues && step != DoDrop(r) && step != DoTryReceive(r)
    ensures var i1 := IdealApply(i, step).0;
            && r in i1.queues
            && |i1.queues[r].pending|
               == if step == DoDrain(r) then 0
                  else |i.queues[r].pending| + |PublishedAt(step, i.queues[r].mailbox)|
  {
  }

  /** No loss, no duplicate, no reordering: if at most 256 events arrive between drains, the
      drains together with what is still waiting are exactly the events published to the mailbox
      since the subscription. */
  lemma DrainsAreExactlyThePublications(before: seq<Step>, m: MailboxId, after: seq<Step>)
    requires var r := AfterSubscribe(Run(INITIAL, before).0, m).1;
             && SpacedDrains(after, m, r)
             && forall k :: 0 <= k < |after| ==> after[k] != DoDrop(r) && after[k] != DoTryReceive(r)
    ensures var (s, r) := AfterSubscribe(Run(INITIAL, before).0, m);
            var (s1, outs) := Run(s, after);
            && r in s1.receivers
            && DrainedBy(after, outs, r) + Suffix(PublishedTo(after, m), Backlog(s1, r)) == PublishedTo(after, m)
  {
    RunRefines(before);
    var s0, i0 := Run(INITIAL, before).0, IdealRun(NO_QUEUES, before).0;
    SubscribeRefines(s0, i0, m);
    var (s, r) := AfterSubscribe(s0, m);
    var i := IdealApply(i0, DoSubscribe(m)).0;
    assert KeysBelow(i) && i.queues[r] == Queue(m, []);
    hide Represents, WellFormed, Holds, Run, IdealRun, IdealApply, KeysBelow, NeverOverflows, PublishedTo,
      AfterSubscribe;
    FirstDrainFits(after, m, r);
    SpacedDrainsNeverOverflow(i, r, after);
    DeliversEverything(s, i, r, m, after);
  }

  lemma FirstDrainFits(steps: seq<Step>, m: MailboxId, r: ReceiverId)
    requires SpacedDrains(steps, m, r)
    ensures NextDrainFits(0, steps, m, r)
  {
    forall k: nat | UpToDrain(steps, 0, k, r) ensures 0 + |PublishedTo(steps[..k], m)| <= CHANNEL_CAPACITY {
      assert steps[0..k] == steps[..k];
    }
  }

  lemma DeliversEverything(s: State, i: Ideal, r: ReceiverId, m: MailboxId, steps: seq<Step>)
    requires Represents(s, i) && KeysBelow(i) && r in i.queues && i.queues[r] == Queue(m, [])
    requires forall k :: 0 <= k < |steps| ==> steps[k] != DoDrop(r) && steps[k] != DoTryReceive(r)
    requires NeverOverflows(i, steps, r)
    ensures var (s1, outs) := Run(s, steps);
            && r in s1.receivers
            && DrainedBy(steps, outs, r) + Suffix(PublishedTo(steps, m), Backlog(s1, r)) == PublishedTo(steps, m)
  {
    hide Represents, WellFormed, Run, IdealRun, IdealApply, KeysBelow, NeverOverflows, DrainedBy, PublishedTo, Suffix;
    SameReceivers(s, i);
    RunFromRefines(s, i, steps);
    IdealDeliversEverything(i, r, steps);
    var (s1, outs) := Run(s, steps);
    SameReceivers(s1, IdealRun(i, steps).0);
    QueueOf(s1, IdealRun(i, steps).0, r);
    TakeSuffix(DrainedBy(steps, outs, r), IdealRun(i, steps).0.queues[r].pending, PublishedTo(steps, m));
  }

  lemma TakeSuffix(a: seq<MailboxEvent>, b: seq<MailboxEvent>, whole: seq<MailboxEvent>)
    requires a + b == [] + whole
    ensures a + Suffix(whole, |b|) == whole
  {
    assert whole == a + b;
  }
}
