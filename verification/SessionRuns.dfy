/** Runs of one session, interleaved with any steps of other sessions on the shared registry. */
module SessionRuns {
  import opened Wrappers
  import opened Text
  import opened Registry
  import opened Session

  datatype Act =
    | DoLogin(tag: string, user: string, accepted: Option<bool>)
    | DoAuthenticate(input: AuthInput)
    | DoContinue(input: AuthInput)
    | DoLogout
    | DoSelect(lookup: Lookup)
    | DoClose(expunged: bool)
    | DoIdle(tag: string, counters: Option<Snapshot>)
    | DoBeginIdle
    | DoIdlePoll
    | DoEndIdle(end: IdleEnd)
    | DoDrainEvents
    | Elsewhere(step: Step)

  /** Other sessions cannot reach this session's receivers, and while the IDLE loop runs the session
      handles no commands. */
  ghost predicate Allowed(x: SessionView, act: Act) {
    && (act.Elsewhere? ==>
          && (x.rx.Some? ==> !Touches(act.step, x.rx.value))
          && (x.held.Some? ==> !Touches(act.step, x.held.value)))
    && (x.held.Some? ==> act.DoIdlePoll? || act.DoEndIdle? || act.Elsewhere?)
  }

  function NextSession(x: SessionView, act: Act): SessionView {
    match act
    case DoLogin(tag, user, accepted) => AfterLogin(x, tag, user, accepted).0
    case DoAuthenticate(input) => AfterAuthenticate(x, input).0
    case DoContinue(input) => AfterContinue(x, input).0
    case DoLogout => x.(state := Logout)
    case DoIdle(tag, counters) => AfterIdle(x, tag, counters).0
    case _ => x
  }

  ghost function Next(w: World, act: Act): (w1: World)
    requires WellFormed(w.registry)
    ensures WellFormed(w1.registry)
  {
    match act
    case DoSelect(lookup) => AfterSelect(w, lookup).0
    case DoClose(expunged) => AfterClose(w, expunged).0
    case DoBeginIdle => AfterBeginIdle(w)
    case DoIdlePoll => if Owns(w) then AfterIdlePoll(w).0 else w
    case DoEndIdle(end) => AfterEndIdle(w, end)
    case DoDrainEvents => if Owns(w) then AfterDrain(w).0 else w
    case Elsewhere(step) => w.(registry := Apply(w.registry, step).0)
    case _ => w.(session := NextSession(w.session, act))
  }

  ghost function Run(w: World, acts: seq<Act>): (w1: World)
    requires WellFormed(w.registry)
    ensures WellFormed(w1.registry)
  {
    if acts == [] then w else Next(Run(w, acts[..|acts| - 1]), acts[|acts| - 1])
  }

  ghost predicate Legal(w: World, acts: seq<Act>)
    requires WellFormed(w.registry)
  {
    forall k :: 0 <= k < |acts| ==> Allowed(Run(w, acts[..k]).session, acts[k])
  }

  // ---- The session's part of an act ------------------------------------------------------

  /** The act is a successful selection. */
  predicate Selects(x: SessionView, act: Act) {
    act.DoSelect? && act.lookup.Found? && (x.state.Authenticated? || x.state.Selected?) && x.username.Some?
  }

  /** What the act does to the session, if a new subscription gets receiver `added`. */
  function SessionAfter(x: SessionView, act: Act, added: ReceiverId): SessionView {
    match act
    case DoSelect(lookup) => if Selects(x, act) then x.(state := Selected(lookup.mailbox), rx := Some(added)) else x
    case DoClose(expunged) => if x.state.Selected? && expunged then x.(state := Authenticated, rx := None) else x
    case DoBeginIdle =>
      if !x.state.Idle? then x
      else if x.rx.Some? then x.(rx := None, held := x.rx) else x.(held := Some(added))
    case DoEndIdle(end) =>
      if !x.state.Idle? || x.held.None? then x
      else
        var y := x.(state := Selected(x.state.mailbox), held := None);
        if end == Ended then y.(rx := x.held, tag := None)
        else if end == CompletionFailed then y.(rx := x.held) else y
    case _ => NextSession(x, act)
  }

  function IdealReleased(i: Ideal, rx: Option<ReceiverId>): Ideal {
    if rx.Some? then IdealApply(i, DoDrop(rx.value)).0 else i
  }

  /** What the act does to the queues that the registry represents. */
  function IdealAfter(x: SessionView, i: Ideal, act: Act): Ideal {
    match act
    case DoSelect(lookup) =>
      if Selects(x, act) then IdealReleased(IdealApply(i, DoSubscribe(lookup.mailbox)).0, x.rx) else i
    case DoClose(expunged) => if x.state.Selected? && expunged then IdealReleased(i, x.rx) else i
    case DoBeginIdle => if x.state.Idle? && x.rx.None? then IdealApply(i, DoSubscribe(x.state.mailbox)).0 else i
    case DoIdlePoll => if x.held.Some? then IdealApply(i, DoTryReceive(x.held.value)).0 else i
    case DoEndIdle(end) =>
      if x.state.Idle? && x.held.Some? && end == LoopFailed then IdealReleased(i, x.held) else i
    case DoDrainEvents => if x.rx.Some? then IdealApply(i, DoDrain(x.rx.value)).0 else i
    case Elsewhere(step) => IdealApply(i, step).0
    case _ => i
  }

  lemma SubscribedId(s: State, m: MailboxId)
    requires WellFormed(s)
    ensures AfterSubscribe(s, m).1 == s.nextReceiver
  {
    hide WellFormed, JoinChannel, CreateChannel;
  }

  lemma SubscribeFollows(s: State, i: Ideal, m: MailboxId)
    requires Represents(s, i)
    ensures WellFormed(s) && AfterSubscribe(s, m).1 == i.nextReceiver
    ensures Represents(AfterSubscribe(s, m).0, IdealApply(i, DoSubscribe(m)).0)
  {
    hide *;
    SameReceivers(s, i);
    SubscribedId(s, m);
    SubscribeRefines(s, i, m);
  }

  lemma DropSteps(s: State, i: Ideal, r: ReceiverId)
    requires WellFormed(s)
    ensures Apply(s, DoDrop(r)).0 == AfterDropReceiver(s, r)
    ensures Released(s, Some(r)) == AfterDropReceiver(s, r)
    ensures Released(s, None) == s && IdealReleased(i, None) == i
    ensures IdealReleased(i, Some(r)) == IdealApply(i, DoDrop(r)).0
  {
    hide WellFormed, AfterDropReceiver;
  }

  lemma ReleaseFollows(s: State, i: Ideal, rx: Option<ReceiverId>)
    requires Represents(s, i)
    ensures WellFormed(s) && Represents(Released(s, rx), IdealReleased(i, rx))
  {
    hide *;
    SameReceivers(s, i);
    var r := if rx.Some? then rx.value else 0;
    DropSteps(s, i, r);
    StepRefines(s, i, DoDrop(r));
  }

  lemma IdealPolls(i: Ideal, r: ReceiverId)
    requires r in i.queues
    ensures IdealApply(i, DoTryReceive(r)).0 == i.(queues := i.queues[r := IdealTryReceive(i.queues[r]).0])
    ensures IdealApply(i, DoDrain(r)).0 == i.(queues := i.queues[r := i.queues[r].(pending := [])])
  {
    hide IdealTryReceive;
  }

  lemma PollFollows(s: State, i: Ideal, r: ReceiverId)
    requires Represents(s, i) && r in i.queues
    ensures WellFormed(s) && r in s.receivers
    ensures Represents(AfterTryReceive(s, r).0, IdealApply(i, DoTryReceive(r)).0)
  {
    hide *;
    SameReceivers(s, i);
    IdealPolls(i, r);
    TryReceiveRefines(s, i, r);
  }

  lemma DrainFollows(s: State, i: Ideal, r: ReceiverId)
    requires Represents(s, i) && r in i.queues
    ensures WellFormed(s) && r in s.receivers
    ensures var (s1, events, closed) := Drain(s, r);
            && !closed && events == Suffix(i.queues[r].pending, CHANNEL_CAPACITY)
            && Represents(s1, IdealApply(i, DoDrain(r)).0)
  {
    hide *;
    SameReceivers(s, i);
    IdealPolls(i, r);
    DrainRefines(s, i, r);
  }

  lemma StepFollows(s: State, i: Ideal, step: Step)
    requires Represents(s, i)
    ensures WellFormed(s) && Represents(Apply(s, step).0, IdealApply(i, step).0)
  {
    hide *;
    SameReceivers(s, i);
    StepRefines(s, i, step);
  }

  // ---- What every run keeps -----------------------------------------------------------

  /** A receiver, if there is one, has a queue for this mailbox. */
  ghost predicate Watches(i: Ideal, r: Option<ReceiverId>, m: MailboxId) {
    r.Some? ==> r.value in i.queues && i.queues[r.value].mailbox == m
  }

  ghost predicate Attached(x: SessionView, i: Ideal) {
    && (x.rx.Some? ==> x.rx.value in i.queues)
    && match x.state
       case Selected(m) => Watches(i, x.rx, m) && x.held.None?
       case Idle(m) => Watches(i, x.rx, m) && Watches(i, x.held, m) && (x.held.Some? ==> x.rx.None?)
       case _ => x.held.None?
  }

  lemma QueuesExist(w: World, i: Ideal)
    requires Represents(w.registry, i) && Attached(w.session, i)
    ensures Owns(w) && KeysBelow(i)
  {
    hide Holds;
  }

  lemma SelectFollows(w: World, i: Ideal, act: Act)
    requires Represents(w.registry, i) && act.DoSelect?
    ensures WellFormed(w.registry)
    ensures var w1 := AfterSelect(w, act.lookup).0;
            && w1.session == SessionAfter(w.session, act, i.nextReceiver)
            && Represents(w1.registry, IdealAfter(w.session, i, act))
  {
    hide Represents, WellFormed, IdealApply, AfterSubscribe, Released, IdealReleased;
    ReleaseFollows(w.registry, i, None);
    if act.lookup.Found? {
      var m := act.lookup.mailbox;
      SubscribeFollows(w.registry, i, m);
      ReleaseFollows(AfterSubscribe(w.registry, m).0, IdealApply(i, DoSubscribe(m)).0, w.session.rx);
    }
  }

  lemma BeginIdleFollows(w: World, i: Ideal)
    requires Represents(w.registry, i)
    ensures WellFormed(w.registry)
    ensures var w1 := AfterBeginIdle(w);
            && w1.session == SessionAfter(w.session, DoBeginIdle, i.nextReceiver)
            && Represents(w1.registry, IdealAfter(w.session, i, DoBeginIdle))
  {
    hide Represents, WellFormed, IdealApply, AfterSubscribe, Released, IdealReleased;
    ReleaseFollows(w.registry, i, None);
    if w.session.state.Idle? {
      SubscribeFollows(w.registry, i, w.session.state.mailbox);
    }
  }

  lemma IdlePollFollows(w: World, i: Ideal)
    requires Owns(w) && Represents(w.registry, i) && Attached(w.session, i)
    ensures var w1 := AfterIdlePoll(w).0;
            w1.session == w.session && Represents(w1.registry, IdealAfter(w.session, i, DoIdlePoll))
  {
    hide Represents, WellFormed, IdealApply, AfterTryReceive;
    if w.session.held.Some? {
      PollFollows(w.registry, i, w.session.held.value);
    }
  }

  /** A drain never finds its channel closed, and sends the newest pending events. */
  lemma DrainEventsFollow(w: World, i: Ideal)
    requires Owns(w) && Represents(w.registry, i) && Attached(w.session, i)
    ensures var (w1, lines) := AfterDrain(w);
            && w1.session == w.session
            && Represents(w1.registry, IdealAfter(w.session, i, DoDrainEvents))
            && (w.session.rx.Some? ==>
                  lines == FormatAll(Suffix(i.queues[w.session.rx.value].pending, CHANNEL_CAPACITY)))
  {
    hide Represents, WellFormed, IdealApply, Drain, Suffix, FormatAll;
    if w.session.rx.Some? {
      DrainFollows(w.registry, i, w.session.rx.value);
    }
  }

  /** Each act does to session and registry what it does to session and queues. */
  lemma WorldFollows(w: World, i: Ideal, act: Act)
    requires Represents(w.registry, i) && Attached(w.session, i)
    ensures Owns(w)
    ensures Next(w, act).session == SessionAfter(w.session, act, i.nextReceiver)
    ensures Represents(Next(w, act).registry, IdealAfter(w.session, i, act))
  {
    hide Represents, WellFormed, Apply, IdealApply, Drain, AfterTryReceive, AfterSubscribe, Released, IdealReleased;
    QueuesExist(w, i);
    match act
    case DoSelect(_) => SelectFollows(w, i, act);
    case DoClose(_) => ReleaseFollows(w.registry, i, w.session.rx);
    case DoBeginIdle => BeginIdleFollows(w, i);
    case DoIdlePoll => IdlePollFollows(w, i);
    case DoEndIdle(_) => ReleaseFollows(w.registry, i, w.session.held);
    case DoDrainEvents => DrainEventsFollow(w, i);
    case Elsewhere(step) => StepFollows(w.registry, i, step);
    case _ =>
  }

  /** Steps that leave a receiver alone keep its queue, for the same mailbox. */
  lemma ForeignStepKeepsQueue(i: Ideal, step: Step, r: ReceiverId)
    requires KeysBelow(i) && r in i.queues && !Touches(step, r)
    ensures r in IdealApply(i, step).0.queues
    ensures IdealApply(i, step).0.queues[r].mailbox == i.queues[r].mailbox
  {
  }

  lemma AttachedFollows(x: SessionView, i: Ideal, act: Act)
    requires Attached(x, i) && KeysBelow(i)
    requires Allowed(x, act)
    ensures Attached(SessionAfter(x, act, i.nextReceiver), IdealAfter(x, i, act))
  {
    match act
    case Elsewhere(step) =>
      if x.rx.Some? {
        ForeignStepKeepsQueue(i, step, x.rx.value);
      }
      if x.held.Some? {
        ForeignStepKeepsQueue(i, step, x.held.value);
      }
      hide IdealApply;
    case _ =>
  }

  /** Whether the session has lost its mailbox's receiver: an IDLE loop failed, and since then there
      was neither a selection nor another IDLE. */
  function LostAfter(x: SessionView, act: Act, lost: bool): bool {
    if Selects(x, act) || (act.DoBeginIdle? && x.state.Idle?) then false
    else if act.DoEndIdle? && x.state.Idle? && x.held.Some? then act.end == LoopFailed
    else lost
  }

  ghost function Lost(w: World, acts: seq<Act>): bool
    requires WellFormed(w.registry)
  {
    acts != []
    && var front, last := acts[..|acts| - 1], acts[|acts| - 1];
       LostAfter(Run(w, front).session, last, Lost(w, front))
  }

  ghost predicate LossAccounted(x: SessionView, lost: bool) {
    match x.state
    case Selected(_) => x.rx.None? <==> lost
    case Idle(_) => (x.rx.None? && x.held.None?) <==> lost
    case _ => true
  }

  /** Only a new session has no user name, and only it and a finished one may lack one. */
  ghost predicate Named(x: SessionView) {
    if x.state == NotAuthenticated then x.username.None? else x.state == Logout || x.username.Some?
  }

  lemma LossFollows(x: SessionView, act: Act, added: ReceiverId, lost: bool)
    requires LossAccounted(x, lost) && Allowed(x, act)
    requires x.held.Some? ==> x.state.Idle? && x.rx.None?
    ensures LossAccounted(SessionAfter(x, act, added), LostAfter(x, act, lost))
  {
  }

  lemma NamedFollows(x: SessionView, act: Act, added: ReceiverId)
    requires Named(x) && Allowed(x, act) && (x.held.Some? ==> x.state.Idle?)
    ensures Named(SessionAfter(x, act, added))
  {
  }

  ghost predicate Kept(w: World, i: Ideal, lost: bool) {
    Represents(w.registry, i) && Attached(w.session, i) && LossAccounted(w.session, lost) && Named(w.session)
  }

  lemma ActKeeps(w: World, i: Ideal, act: Act, lost: bool)
    requires Kept(w, i, lost) && Allowed(w.session, act)
    ensures WellFormed(w.registry)
    ensures Kept(Next(w, act), IdealAfter(w.session, i, act), LostAfter(w.session, act, lost))
  {
    hide Represents, WellFormed, Next, SessionAfter, IdealAfter, LostAfter, Allowed, LossAccounted, Named;
    QueuesExist(w, i);
    WorldFollows(w, i, act);
    AttachedFollows(w.session, i, act);
    LossFollows(w.session, act, i.nextReceiver, lost);
    NamedFollows(w.session, act, i.nextReceiver);
  }

  /** A new session joining a registry that other sessions have used in any way. */
  ghost function Start(before: seq<Step>): (w: World)
    ensures WellFormed(w.registry)
  {
    World(NEW_SESSION, Registry.Run(INITIAL, before).0)
  }

  lemma {:induction false} RunIsKept(before: seq<Step>, acts: seq<Act>) returns (i: Ideal)
    requires Legal(Start(before), acts)
    ensures Kept(Run(Start(before), acts), i, Lost(Start(before), acts))
  {
    var w := Start(before);
    hide Represents, WellFormed, Next, Kept, Allowed, LostAfter, Start;
    if acts == [] {
      i := StartIsKept(before);
    } else {
      var front, last := acts[..|acts| - 1], acts[|acts| - 1];
      LegalPrefix(w, acts);
      hide Legal;
      var i0 := RunIsKept(before, front);
      ActKeeps(Run(w, front), i0, last, Lost(w, front));
      i := IdealAfter(Run(w, front).session, i0, last);
    }
  }

  lemma StartIsKept(before: seq<Step>) returns (i: Ideal)
    ensures Kept(Start(before), i, false)
  {
    hide Represents, Registry.Run, IdealRun, WellFormed;
    RunRefines(before);
    i := IdealRun(NO_QUEUES, before).0;
  }

  lemma LegalPrefix(w: World, acts: seq<Act>)
    requires WellFormed(w.registry) && Legal(w, acts) && acts != []
    ensures Legal(w, acts[..|acts| - 1]) && Allowed(Run(w, acts[..|acts| - 1]).session, acts[|acts| - 1])
  {
    hide WellFormed, Allowed, Run;
    var front := acts[..|acts| - 1];
    forall k | 0 <= k < |front| ensures Allowed(Run(w, front[..k]).session, front[k]) {
      assert front[..k] == acts[..k];
    }
  }

  // ---- Selection and subscription ----------------------------------------------------------

  /** Receiver `r` hears what is published to `m`. */
  ghost predicate SubscribedTo(s: State, r: ReceiverId, m: MailboxId) {
    r in s.receivers && m in s.channels && s.receivers[r].channel == s.channels[m]
  }

  /** The receiver that serves the session, inside or outside the IDLE loop. */
  function Serving(x: SessionView): Option<ReceiverId> { if x.held.Some? then x.held else x.rx }

  /** While a mailbox is selected, also in IDLE, the session's receiver is subscribed to that very
      mailbox. It has none exactly when a failed IDLE loop has dropped it. */
  lemma SubscriptionFollowsSelection(before: seq<Step>, acts: seq<Act>)
    requires Legal(Start(before), acts)
    ensures var w := Run(Start(before), acts);
            var x := w.session;
            x.state.Selected? || x.state.Idle? ==>
              && (Serving(x).Some? ==> SubscribedTo(w.registry, Serving(x).value, x.state.mailbox))
              && (Serving(x).None? <==> Lost(Start(before), acts))
  {
    var i := RunIsKept(before, acts);
    var w := Run(Start(before), acts);
    hide WellFormed, Run, Lost, Legal, Start;
    var r := Serving(w.session);
    if (w.session.state.Selected? || w.session.state.Idle?) && r.Some? {
      QueueServes(w.registry, i, r.value);
    }
  }

  lemma QueueServes(s: State, i: Ideal, r: ReceiverId)
    requires Represents(s, i) && r in i.queues
    ensures SubscribedTo(s, r, i.queues[r].mailbox)
  {
    SameReceivers(s, i);
    QueueOf(s, i, r);
  }

  lemma Extend(w: World, acts: seq<Act>, act: Act)
    requires WellFormed(w.registry) && Legal(w, acts) && Allowed(Run(w, acts).session, act)
    ensures Legal(w, acts + [act]) && Run(w, acts + [act]) == Next(Run(w, acts), act)
    ensures Lost(w, acts + [act]) == LostAfter(Run(w, acts).session, act, Lost(w, acts))
  {
    hide WellFormed, Next, Allowed, LostAfter;
    var more := acts + [act];
    assert more[..|acts|] == acts && more[|acts|] == act;
    forall k | 0 <= k < |more| ensures Allowed(Run(w, more[..k]).session, more[k]) {
      if k < |acts| {
        assert more[..k] == acts[..k] && more[k] == acts[k];
      }
    }
  }

  /** Logging in, selecting `m`, and going into the IDLE loop. */
  lemma IdleActs(w: World, tag: string, user: string, m: MailboxId, counters: Snapshot)
    requires WellFormed(w.registry) && w.session == NEW_SESSION && ValidUsername(user)
    ensures var w1 := Next(w, DoLogin(tag, user, Some(true)));
            var w2 := Next(w1, DoSelect(Found(m)));
            var w3 := Next(w2, DoIdle(tag, Some(counters)));
            var w4 := Next(w3, DoBeginIdle);
            var w5 := Next(w4, DoEndIdle(LoopFailed));
            && Allowed(w.session, DoLogin(tag, user, Some(true))) && Allowed(w1.session, DoSelect(Found(m)))
            && Allowed(w2.session, DoIdle(tag, Some(counters))) && Allowed(w3.session, DoBeginIdle)
            && Allowed(w4.session, DoEndIdle(LoopFailed))
            && (forall lost :: LostAfter(w4.session, DoEndIdle(LoopFailed), lost))
            && w5.session.state == Selected(m) && Serving(w5.session).None?
  {
    hide WellFormed, AfterSubscribe, Released, ValidUsername;
  }

  lemma NothingDone(before: seq<Step>)
    ensures var w := Start(before); w.session == NEW_SESSION && Run(w, []) == w && Legal(w, [])
  {
    hide Registry.Run, WellFormed;
  }

  /** Losing the receiver does happen: an IDLE loop that fails leaves the mailbox selected and the
      session deaf. */
  lemma FailedIdleLosesTheReceiver(
      before: seq<Step>, tag: string, user: string, m: MailboxId, counters: Snapshot)
    returns (acts: seq<Act>)
    requires ValidUsername(user)
    ensures Legal(Start(before), acts) && Lost(Start(before), acts)
    ensures var x := Run(Start(before), acts).session; x.state == Selected(m) && Serving(x).None?
  {
    hide *;
    var w := Start(before);
    NothingDone(before);
    IdleActs(w, tag, user, m, counters);
    acts := [];
    Extend(w, acts, DoLogin(tag, user, Some(true)));
    acts := acts + [DoLogin(tag, user, Some(true))];
    Extend(w, acts, DoSelect(Found(m)));
    acts := acts + [DoSelect(Found(m))];
    Extend(w, acts, DoIdle(tag, Some(counters)));
    acts := acts + [DoIdle(tag, Some(counters))];
    Extend(w, acts, DoBeginIdle);
    acts := acts + [DoBeginIdle];
    Extend(w, acts, DoEndIdle(LoopFailed));
    acts := acts + [DoEndIdle(LoopFailed)];
  }

  // ---- User names -----------------------------------------------------------------------------

  /** The name that an act's successful authentication gives the session. */
  function AcceptedBy(x: SessionView, act: Act): Option<string> {
    match act
    case DoLogin(_, user, accepted) =>
      if x.state == NotAuthenticated && ValidUsername(user) && accepted == Some(true) then Some(user) else None
    case DoAuthenticate(input) => if x.state == NotAuthenticated then NameOf(input) else None
    case DoContinue(input) => NameOf(input)
    case _ => None
  }

  function NameOf(input: AuthInput): Option<string> {
    if input.Stepped? && input.outcome.Finished? && input.outcome.success then input.outcome.username else None
  }

  lemma NameFollows(w: World, act: Act)
    requires WellFormed(w.registry)
    ensures var y := Next(w, act).session; var name := AcceptedBy(w.session, act);
            y.username == if name.Some? then name else w.session.username
    ensures AcceptedBy(w.session, act).Some? ==> Next(w, act).session.state == Authenticated
  {
    hide WellFormed, Apply, Drain, AfterTryReceive, AfterSubscribe, Released, FormatMailboxEvent, ValidUsername;
  }

  /** A session that is logged in, or has a mailbox selected, has a user name, and it is the name
      some act of the run was accepted with. */
  lemma LoggedInUserWasAccepted(before: seq<Step>, acts: seq<Act>) returns (k: nat)
    requires Legal(Start(before), acts)
    requires var x := Run(Start(before), acts).session; x.state != NotAuthenticated && x.state != Logout
    ensures k < |acts| && Run(Start(before), acts).session.username.Some?
    ensures AcceptedBy(Run(Start(before), acts[..k]).session, acts[k]) == Run(Start(before), acts).session.username
  {
    var i := RunIsKept(before, acts);
    k := NameHasOrigin(before, acts);
  }

  lemma {:induction false} NameHasOrigin(before: seq<Step>, acts: seq<Act>) returns (k: nat)
    requires Run(Start(before), acts).session.username.Some?
    ensures k < |acts|
    ensures AcceptedBy(Run(Start(before), acts[..k]).session, acts[k]) == Run(Start(before), acts).session.username
  {
    var w := Start(before);
    var front, last := acts[..|acts| - 1], acts[|acts| - 1];
    hide Next, AcceptedBy;
    NameFollows(Run(w, front), last);
    if AcceptedBy(Run(w, front).session, last).Some? {
      k := |acts| - 1;
    } else {
      k := NameHasOrigin(before, front);
      assert front[..k] == acts[..k];
    }
  }

  /** A further SASL response succeeds on a session that is no longer unauthenticated. */
  predicate LateContinuation(x: SessionView, act: Act) {
    act.DoContinue? && NameOf(act.input).Some? && x.state != NotAuthenticated
  }

  /** A late continuation is the only act that can replace a user name or revive a session that has
      logged out. */
  lemma OnlyLateContinuationsReopen(w: World, act: Act)
    requires WellFormed(w.registry) && Named(w.session) && (w.session.held.Some? ==> w.session.state.Idle?)
    ensures w.session.username.Some? ==>
              (Next(w, act).session.username == w.session.username
               <==> !(LateContinuation(w.session, act) && NameOf(act.input) != w.session.username))
    ensures w.session.state == Logout ==>
              (Next(w, act).session.state == Logout <==> !LateContinuation(w.session, act))
  {
    NameFollows(w, act);
    hide WellFormed, Apply, Drain, AfterTryReceive, AfterSubscribe, Released, FormatMailboxEvent, ValidUsername;
  }

  ghost predicate NoLateContinuation(w: World, acts: seq<Act>, from: nat)
    requires WellFormed(w.registry)
  {
    forall k :: from <= k < |acts| ==> !LateContinuation(Run(w, acts[..k]).session, acts[k])
  }

  /** Without late continuations a user name, once set, stays, and a session that has logged out
      stays so. */
  lemma {:induction false} NamesAndLogoutAreFinal(before: seq<Step>, acts: seq<Act>, from: nat)
    requires from <= |acts| && Legal(Start(before), acts)
    requires NoLateContinuation(Start(before), acts, from)
    ensures var x, y := Run(Start(before), acts[..from]).session, Run(Start(before), acts).session;
            && (x.username.Some? ==> y.username == x.username)
            && (x.state == Logout ==> y.state == Logout)
  {
    if from == |acts| {
      assert acts[..from] == acts;
    } else {
      var w := Start(before);
      var front, last := acts[..|acts| - 1], acts[|acts| - 1];
      LegalPrefix(w, acts);
      FewerLateContinuations(w, acts, from);
      hide Next, Allowed, LateContinuation, Represents, WellFormed, Start, Legal, NoLateContinuation;
      NamesAndLogoutAreFinal(before, front, from);
      assert front[..from] == acts[..from];
      var i := RunIsKept(before, front);
      OnlyLateContinuationsReopen(Run(w, front), last);
    }
  }

  lemma FewerLateContinuations(w: World, acts: seq<Act>, from: nat)
    requires WellFormed(w.registry) && from < |acts| && NoLateContinuation(w, acts, from)
    ensures NoLateContinuation(w, acts[..|acts| - 1], from)
    ensures !LateContinuation(Run(w, acts[..|acts| - 1]).session, acts[|acts| - 1])
  {
    hide WellFormed, LateContinuation, Run;
    var front := acts[..|acts| - 1];
    forall k | from <= k < |front| ensures !LateContinuation(Run(w, front[..k]).session, front[k]) {
      assert front[..k] == acts[..k];
    }
  }

  /** Such a run exists for any two names: the second user's exchange is begun, the first user logs
      in and out, and then the exchange is finished. */
  lemma LateContinuationTakesOver(before: seq<Step>, tag: string, first: string, second: string)
    requires ValidUsername(first)
    ensures var acts := [DoAuthenticate(Stepped(Challenged)), DoLogin(tag, first, Some(true)), DoLogout,
                         DoContinue(Stepped(Finished(true, Some(second))))];
            var x := Run(Start(before), acts).session;
            && Run(Start(before), acts[..3]).session.state == Logout
            && Run(Start(before), acts[..3]).session.username == Some(first)
            && x.state == Authenticated && x.username == Some(second)
  {
    hide WellFormed, Run, ValidUsername;
    var w := Start(before);
    FourActs(w, DoAuthenticate(Stepped(Challenged)), DoLogin(tag, first, Some(true)), DoLogout,
             DoContinue(Stepped(Finished(true, Some(second)))));
  }

  lemma FourActs(w: World, a: Act, b: Act, c: Act, d: Act)
    requires WellFormed(w.registry)
    ensures Run(w, [a, b, c, d][..3]) == Next(Next(Next(w, a), b), c)
    ensures Run(w, [a, b, c, d]) == Next(Next(Next(Next(w, a), b), c), d)
  {
    hide WellFormed, Next;
    assert [a, b, c, d][..3] == [a, b, c];
    RunOfSnoc(w, [], a);
    RunOfSnoc(w, [a], b);
    RunOfSnoc(w, [a, b], c);
    RunOfSnoc(w, [a, b, c], d);
    hide Run;
    assert [] + [a] == [a] && [a] + [b] == [a, b] && [a, b] + [c] == [a, b, c] && [a, b, c] + [d] == [a, b, c, d];
    assert Run(w, [a]) == Next(w, a);
  }

  lemma RunOfSnoc(w: World, acts: seq<Act>, last: Act)
    requires WellFormed(w.registry)
    ensures Run(w, []) == w && Run(w, acts + [last]) == Next(Run(w, acts), last)
  {
    hide WellFormed, Next;
    assert (acts + [last])[..|acts|] == acts;
  }

  // ---- What a selected session hears -----------------------------------------------------------

  /** Between two drains of a session with a mailbox selected, let other sessions do anything. The
      second drain sends the lines of exactly the newest 256 events published to that mailbox. */
  lemma DrainsSendWhatWasPublished(before: seq<Step>, acts: seq<Act>, others: seq<Step>)
    requires Legal(Start(before), acts)
    requires var x := Run(Start(before), acts).session;
             && x.state.Selected? && x.rx.Some?
             && forall k :: 0 <= k < |others| ==> !Touches(others[k], x.rx.value)
    ensures var w := Run(Start(before), acts);
            && Owns(w)
            && var drained := AfterDrain(w).0;
               var later := World(drained.session, Registry.Run(drained.registry, others).0);
               && Owns(later)
               && AfterDrain(later).1
                  == FormatAll(Suffix(PublishedTo(others, w.session.state.mailbox), CHANNEL_CAPACITY))
  {
    var i := RunIsKept(before, acts);
    var w := Run(Start(before), acts);
    hide Represents, WellFormed, Holds, Run, Start, Legal, IdealApply, AfterDrain, Suffix, FormatAll, LossAccounted,
      Named, Registry.Run, IdealRun;
    QueuesExist(w, i);
    DrainEventsFollow(w, i);
    var r, m := w.session.rx.value, w.session.state.mailbox;
    var drained, i1 := AfterDrain(w).0, IdealAfter(w.session, i, DoDrainEvents);
    DrainEmpties(w, i);
    QueuesExist(drained, i1);
    PendingIsPublished(i1, r, others);
    RunFromRefines(drained.registry, i1, others);
    var later, i2 := World(drained.session, Registry.Run(drained.registry, others).0), IdealRun(i1, others).0;
    QueuesExist(later, i2);
    DrainEventsFollow(later, i2);
    assert [] + PublishedTo(others, m) == PublishedTo(others, m);
  }

  lemma DrainEmpties(w: World, i: Ideal)
    requires Attached(w.session, i) && w.session.state.Selected? && w.session.rx.Some?
    ensures var i1 := IdealAfter(w.session, i, DoDrainEvents);
            && Attached(w.session, i1)
            && i1.queues[w.session.rx.value] == Queue(w.session.state.mailbox, [])
  {
    IdealPolls(i, w.session.rx.value);
    hide IdealApply;
  }
}
