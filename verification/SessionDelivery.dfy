/** What one selection delivers: over whole runs, the lines that a session sends from its drains and
    its IDLE polls against the events published to its mailbox. */
module SessionDelivery {
  import opened Wrappers
  import opened Registry
  import opened Session
  import opened SessionRuns

  // ---- Lines and publications of a run ---------------------------------------------------

  predicate Reads(act: Act) { act.DoDrainEvents? || act.DoIdlePoll? }

  /** The lines that an act sends. */
  ghost function SentBy(w: World, act: Act): seq<string>
    requires WellFormed(w.registry)
  {
    if !Owns(w) then []
    else if act.DoDrainEvents? then AfterDrain(w).1
    else if act.DoIdlePoll? then AfterIdlePoll(w).1
    else []
  }

  ghost function SentLines(w: World, acts: seq<Act>): seq<string>
    requires WellFormed(w.registry)
  {
    if acts == [] then []
    else
      var front, last := acts[..|acts| - 1], acts[|acts| - 1];
      SentLines(w, front) + SentBy(SessionRuns.Run(w, front), last)
  }

  function PublishedBy(act: Act, m: MailboxId): seq<MailboxEvent> {
    if act.Elsewhere? && act.step.DoPublish? && act.step.mailbox == m then [act.step.event] else []
  }

  /** The events published to `m`, in publication order. */
  ghost function PublishedIn(acts: seq<Act>, m: MailboxId): seq<MailboxEvent> {
    if acts == [] then []
    else PublishedIn(acts[..|acts| - 1], m) + PublishedBy(acts[|acts| - 1], m)
  }

  /** Whenever the session reads, at most 256 events have been published and not yet sent. */
  ghost predicate NothingLags(w: World, acts: seq<Act>, m: MailboxId)
    requires WellFormed(w.registry)
  {
    forall k :: 0 <= k < |acts| && Reads(acts[k]) ==>
      |PublishedIn(acts[..k], m)| <= |SentLines(w, acts[..k])| + CHANNEL_CAPACITY
  }

  predicate On(x: SessionView, m: MailboxId) { x.state == Selected(m) || x.state == Idle(m) }

  /** The act neither selects again nor loses the receiver in a failing IDLE loop. */
  predicate KeepsReceiver(x: SessionView, act: Act) {
    !Selects(x, act) && !(act.DoEndIdle? && act.end == LoopFailed)
  }

  /** One selection of `m`: the run stays on it. */
  ghost predicate StaysOn(w: World, acts: seq<Act>, m: MailboxId)
    requires WellFormed(w.registry)
  {
    && (forall k :: 0 <= k <= |acts| ==> On(SessionRuns.Run(w, acts[..k]).session, m))
    && (forall k :: 0 <= k < |acts| ==> KeepsReceiver(SessionRuns.Run(w, acts[..k]).session, acts[k]))
  }

  // ---- One act ---------------------------------------------------------------------------

  /** The session on `m` is served by receiver `r`, whose queue holds `pending`. */
  ghost predicate Served(x: SessionView, i: Ideal, m: MailboxId, r: ReceiverId, pending: seq<MailboxEvent>) {
    On(x, m) && Serving(x) == Some(r) && r in i.queues && i.queues[r] == Queue(m, pending)
  }

  lemma FormatAllAppend(a: seq<MailboxEvent>, b: seq<MailboxEvent>)
    ensures FormatAll(a + b) == FormatAll(a) + FormatAll(b)
  {
    var whole, x, y := FormatAll(a + b), FormatAll(a), FormatAll(b);
    hide FormatMailboxEvent;
    forall k | 0 <= k < |a| + |b| ensures whole[k] == (x + y)[k] {
      if k < |a| {
        assert (a + b)[k] == a[k];
      } else {
        assert (a + b)[k] == b[k - |a|];
      }
    }
  }

  lemma QueueAfterForeignStep(i: Ideal, step: Step, r: ReceiverId)
    requires KeysBelow(i) && r in i.queues && !Touches(step, r)
    ensures var i1 := IdealApply(i, step).0;
            && r in i1.queues
            && i1.queues[r] == i.queues[r].(pending := i.queues[r].pending + PublishedAt(step, i.queues[r].mailbox))
  {
    assert i.queues[r].pending + [] == i.queues[r].pending;
  }

  /** How many of the pending events an act of the served session sends. */
  function Taken(x: SessionView, act: Act, pending: seq<MailboxEvent>): (n: nat)
    ensures n <= |pending|
  {
    if act.DoDrainEvents? then |pending| else if act.DoIdlePoll? && x.held.Some? && pending != [] then 1 else 0
  }

  /** An act takes some events from the front of the queue and adds what it publishes at the end. */
  lemma QueueAfterAct(x: SessionView, i: Ideal, act: Act, m: MailboxId, r: ReceiverId, pending: seq<MailboxEvent>)
    requires Attached(x, i) && KeysBelow(i) && Allowed(x, act) && Served(x, i, m, r, pending)
    requires KeepsReceiver(x, act) && On(SessionAfter(x, act, i.nextReceiver), m)
    requires Reads(act) ==> |pending| <= CHANNEL_CAPACITY
    ensures Served(SessionAfter(x, act, i.nextReceiver), IdealAfter(x, i, act), m, r,
                   pending[Taken(x, act, pending)..] + PublishedBy(act, m))
  {
    assert pending[0..] == pending && pending + [] == pending;
    match act
    case Elsewhere(step) =>
      QueueAfterForeignStep(i, step, r);
      hide IdealApply;
    case DoIdlePoll =>
      IdealPolls(i, r);
      hide IdealApply;
      assert pending != [] ==> pending[1..] + [] == pending[1..];
    case DoDrainEvents =>
      IdealPolls(i, r);
      hide IdealApply;
    case _ =>
  }

  lemma LinesOfAct(w: World, i: Ideal, act: Act, m: MailboxId, r: ReceiverId, pending: seq<MailboxEvent>)
    requires Represents(w.registry, i) && Attached(w.session, i) && Allowed(w.session, act)
    requires Served(w.session, i, m, r, pending)
    requires Reads(act) ==> |pending| <= CHANNEL_CAPACITY
    ensures WellFormed(w.registry) && SentBy(w, act) == FormatAll(pending[..Taken(w.session, act, pending)])
  {
    hide Represents, WellFormed, Attached, FormatAll, AfterTryReceive, Drain, Suffix, IdealTryReceive;
    QueuesExist(w, i);
    match act
    case DoDrainEvents =>
      DrainEventsFollow(w, i);
      SuffixOfFew(pending);
      assert pending[..|pending|] == pending;
    case DoIdlePoll =>
      if w.session.held.Some? {
        PollLines(w, i, r, pending);
      } else {
        NoLines();
      }
    case _ => NoLines();
  }

  lemma SuffixOfFew(pending: seq<MailboxEvent>)
    ensures |pending| <= CHANNEL_CAPACITY ==> Suffix(pending, CHANNEL_CAPACITY) == pending
  {
  }

  lemma NoLines()
    ensures FormatAll([]) == []
  {
  }

  lemma OneLine(e: MailboxEvent)
    ensures FormatAll([e]) == [FormatMailboxEvent(e)]
  {
    hide FormatMailboxEvent;
    var lines := FormatAll([e]);
    assert lines[0] == FormatMailboxEvent([e][0]);
  }

  lemma PollLines(w: World, i: Ideal, r: ReceiverId, pending: seq<MailboxEvent>)
    requires Owns(w) && Represents(w.registry, i) && w.session.held == Some(r)
    requires r in i.queues && i.queues[r].pending == pending && |pending| <= CHANNEL_CAPACITY
    ensures AfterIdlePoll(w).1 == FormatAll(pending[..if pending == [] then 0 else 1])
  {
    hide Represents, WellFormed, FormatAll, FormatMailboxEvent, AfterTryReceive;
    TryReceiveRefines(w.registry, i, r);
    if pending == [] {
      NoLines();
    } else {
      OneLine(pending[0]);
      assert pending[..1] == [pending[0]];
    }
  }

  // ---- Whole selections --------------------------------------------------------------------

  /** The state of a delivery: what was sent, and what waits, is what was published. */
  ghost predicate Delivering(
    w: World, acts: seq<Act>, m: MailboxId, r: ReceiverId, i: Ideal, sent: nat)
  {
    && WellFormed(w.registry)
    && var published := PublishedIn(acts, m);
       && sent <= |published|
       && SentLines(w, acts) == FormatAll(published[..sent])
       && Served(SessionRuns.Run(w, acts).session, i, m, r, published[sent..])
  }

  lemma PrefixOfSelection(w: World, acts: seq<Act>, m: MailboxId)
    requires WellFormed(w.registry) && acts != []
    requires Legal(w, acts) && StaysOn(w, acts, m) && NothingLags(w, acts, m)
    ensures var n := |acts| - 1; var front, last := acts[..n], acts[n]; var x := SessionRuns.Run(w, front).session;
            && Legal(w, front) && StaysOn(w, front, m) && NothingLags(w, front, m)
            && Allowed(x, last) && KeepsReceiver(x, last) && On(SessionRuns.Run(w, acts).session, m)
            && (Reads(last) ==> |PublishedIn(front, m)| <= |SentLines(w, front)| + CHANNEL_CAPACITY)
  {
    hide WellFormed, SessionRuns.Run, Allowed, KeepsReceiver, On, PublishedIn, SentLines, Reads;
    var front := acts[..|acts| - 1];
    assert forall k :: 0 <= k <= |front| ==> front[..k] == acts[..k];
    assert acts[..|acts|] == acts;
  }

  lemma DeliversOneMore(
      w: World, acts: seq<Act>, act: Act, m: MailboxId, r: ReceiverId, i: Ideal, sent: nat)
    requires Delivering(w, acts, m, r, i, sent)
    requires var w1 := SessionRuns.Run(w, acts);
             && Represents(w1.registry, i) && Attached(w1.session, i) && Allowed(w1.session, act)
             && KeepsReceiver(w1.session, act) && On(Next(w1, act).session, m)
    requires Reads(act) ==> |PublishedIn(acts, m)| <= |SentLines(w, acts)| + CHANNEL_CAPACITY
    ensures var w1, waiting := SessionRuns.Run(w, acts), PublishedIn(acts, m)[sent..];
            Delivering(w, acts + [act], m, r, IdealAfter(w1.session, i, act), sent + Taken(w1.session, act, waiting))
  {
    hide WellFormed, Represents, Attached, Allowed, KeepsReceiver, On, Next, SessionAfter, IdealAfter, SentBy,
      FormatAll, Served, Reads, Taken, PublishedBy, SessionRuns.Run;
    var w1, published := SessionRuns.Run(w, acts), PublishedIn(acts, m);
    var waiting := published[sent..];
    var n := Taken(w1.session, act, waiting);
    var more := published + PublishedBy(act, m);
    QueuesExist(w1, i);
    WorldFollows(w1, i, act);
    QueueAfterAct(w1.session, i, act, m, r, waiting);
    LinesOfAct(w1, i, act, m, r, waiting);
    RunOfSnoc(w, acts, act);
    assert (acts + [act])[..|acts|] == acts;
    FormatAllAppend(published[..sent], waiting[..n]);
    assert more[..sent + n] == published[..sent] + waiting[..n];
    assert more[sent + n..] == waiting[n..] + PublishedBy(act, m);
  }

  lemma {:induction false} SelectionDelivers(
      w: World, i0: Ideal, acts: seq<Act>, m: MailboxId, r: ReceiverId)
    returns (i: Ideal, sent: nat)
    requires Represents(w.registry, i0) && Attached(w.session, i0) && Served(w.session, i0, m, r, [])
    requires WellFormed(w.registry) && Legal(w, acts) && StaysOn(w, acts, m)
    requires NothingLags(w, acts, m)
    ensures Delivering(w, acts, m, r, i, sent)
    ensures Represents(SessionRuns.Run(w, acts).registry, i) && Attached(SessionRuns.Run(w, acts).session, i)
    ensures acts != [] && acts[|acts| - 1].DoDrainEvents? ==> sent == |PublishedIn(acts, m)|
  {
    hide *;
    if acts == [] {
      i, sent := i0, 0;
      NothingSent(w, m, r, i0);
    } else {
      var front, last := acts[..|acts| - 1], acts[|acts| - 1];
      assert acts == front + [last];
      PrefixOfSelection(w, acts, m);
      RunOfSnoc(w, front, last);
      var i1, sent1 := SelectionDelivers(w, i0, front, m, r);
      var w1 := SessionRuns.Run(w, front);
      DeliversOneMore(w, front, last, m, r, i1, sent1);
      QueuesExist(w1, i1);
      WorldFollows(w1, i1, last);
      AttachedFollows(w1.session, i1, last);
      DrainTakesAll(w, front, last, m, r, i1, sent1);
      i, sent := IdealAfter(w1.session, i1, last), sent1 + Taken(w1.session, last, PublishedIn(front, m)[sent1..]);
    }
  }

  lemma NothingSent(w: World, m: MailboxId, r: ReceiverId, i: Ideal)
    requires WellFormed(w.registry) && Served(w.session, i, m, r, [])
    ensures Delivering(w, [], m, r, i, 0) && SessionRuns.Run(w, []) == w
  {
    hide WellFormed, Served;
    NoLines();
  }

  lemma DrainTakesAll(w: World, acts: seq<Act>, act: Act, m: MailboxId, r: ReceiverId, i: Ideal, sent: nat)
    requires Delivering(w, acts, m, r, i, sent)
    ensures sent <= |PublishedIn(acts, m)|
    ensures act.DoDrainEvents? ==>
              sent + Taken(SessionRuns.Run(w, acts).session, act, PublishedIn(acts, m)[sent..])
              == |PublishedIn(acts + [act], m)|
  {
    hide WellFormed, SessionRuns.Run, Served;
    assert (acts + [act])[..|acts|] == acts;
  }

  /** Over one whole selection, with its drains and IDLE loops: the lines sent are the formatted
      events published to the mailbox since the selection, in publication order and each once, up to
      the last ones that still wait; after a drain none waits. This holds as long as at most 256
      events wait whenever the session reads. */
  lemma SelectionSendsThePublications(
      before: seq<Step>, acts: seq<Act>, m: MailboxId, later: seq<Act>)
    requires Legal(Start(before), acts)
    requires var w := SessionRuns.Run(Start(before), acts);
             && Selects(w.session, DoSelect(Found(m)))
             && var w1 := Next(w, DoSelect(Found(m)));
                Legal(w1, later) && StaysOn(w1, later, m) && NothingLags(w1, later, m)
    ensures var w1 := Next(SessionRuns.Run(Start(before), acts), DoSelect(Found(m)));
            var lines, published := SentLines(w1, later), PublishedIn(later, m);
            && |lines| <= |published|
            && lines == FormatAll(published[..|lines|])
            && (later != [] && later[|later| - 1].DoDrainEvents? ==> lines == FormatAll(published))
  {
    hide *;
    var w := SessionRuns.Run(Start(before), acts);
    var i := RunIsKept(before, acts);
    var w1 := Next(w, DoSelect(Found(m)));
    var i1, r := SelectionStarts(w, i, m, Lost(Start(before), acts));
    var i2, sent := SelectionDelivers(w1, i1, later, m, r);
    DeliveredLines(w1, later, m, r, i2, sent);
  }

  lemma SelectionStarts(w: World, i: Ideal, m: MailboxId, lost: bool) returns (i1: Ideal, r: ReceiverId)
    requires Kept(w, i, lost) && Selects(w.session, DoSelect(Found(m)))
    ensures WellFormed(w.registry)
    ensures var w1 := Next(w, DoSelect(Found(m)));
            Represents(w1.registry, i1) && Attached(w1.session, i1) && Served(w1.session, i1, m, r, [])
  {
    hide Represents, WellFormed, Next, LossAccounted, Named;
    QueuesExist(w, i);
    WorldFollows(w, i, DoSelect(Found(m)));
    AttachedFollows(w.session, i, DoSelect(Found(m)));
    i1, r := IdealAfter(w.session, i, DoSelect(Found(m))), i.nextReceiver;
  }

  lemma DeliveredLines(w: World, acts: seq<Act>, m: MailboxId, r: ReceiverId, i: Ideal, sent: nat)
    requires Delivering(w, acts, m, r, i, sent)
    ensures WellFormed(w.registry) && |SentLines(w, acts)| == sent <= |PublishedIn(acts, m)|
    ensures SentLines(w, acts) == FormatAll(PublishedIn(acts, m)[..sent])
    ensures sent == |PublishedIn(acts, m)| ==> SentLines(w, acts) == FormatAll(PublishedIn(acts, m))
  {
    hide WellFormed, SessionRuns.Run, Served, PublishedIn, SentLines;
    var published := PublishedIn(acts, m);
    assert published[..|published|] == published;
  }
}
