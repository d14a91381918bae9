/** The IMAP session: its state machine, its receiver of mailbox events, and the lines it sends.

    The store, the SASL mechanism and the connection are outcomes given to each step. A session step
    is what the code does between two waits, so runs interleave it with any steps of other sessions
    on the shared registry. */
module Session {
  import opened Wrappers
  import opened Text
  import opened Registry

  datatype ImapState =
    | NotAuthenticated
    | Authenticated
    | Selected(mailbox: MailboxId)
    | Idle(mailbox: MailboxId)
    | Logout

  datatype Snapshot = Snapshot(exists_: nat, recent: nat)

  /** `held` is the receiver while the IDLE loop has taken it out of the session. */
  datatype SessionView = SessionView(
    state: ImapState,
    tag: Option<string>,
    username: Option<string>,
    snapshot: Option<Snapshot>,
    rx: Option<ReceiverId>,
    held: Option<ReceiverId>)

  const NEW_SESSION: SessionView := SessionView(NotAuthenticated, None, None, None, None, None)

  datatype Reply = OK | NO(reason: string) | BAD(reason: string) | Continuation | Failed

  // ---- Untagged lines ---------------------------------------------------------------

  function FlagList(flags: seq<string>): string { if flags == [] then "" else Join(flags, ' ') }

  function FormatMailboxEvent(e: MailboxEvent): string {
    match e
    case Exists(count) => "* " + Decimal(count) + " EXISTS"
    case Recent(count) => "* " + Decimal(count) + " RECENT"
    case Expunge(n) => "* " + Decimal(n) + " EXPUNGE"
    case FlagsChanged(uid, flags) =>
      "* " + Decimal(uid) + " FETCH (UID " + Decimal(uid) + " FLAGS (" + FlagList(flags) + "))"
  }

  function FormatAll(events: seq<MailboxEvent>): (lines: seq<string>)
    ensures |lines| == |events| && forall k :: 0 <= k < |events| ==> lines[k] == FormatMailboxEvent(events[k])
  {
    if events == [] then []
    else FormatAll(events[..|events| - 1]) + [FormatMailboxEvent(events[|events| - 1])]
  }

  // ---- Authentication ---------------------------------------------------------------

  /** `accepted` is the backend's answer, or `None` for an error. */
  function AfterLogin(x: SessionView, tag: string, user: string, accepted: Option<bool>): (SessionView, Reply) {
    if x.state != NotAuthenticated then (x, BAD("Already authenticated"))
    else if !ValidUsername(user) then (x, NO("Invalid username"))
    else if accepted.None? then (x, Failed)
    else if !accepted.value then (x, NO("Invalid credentials"))
    else (x.(state := Authenticated, tag := Some(tag), username := Some(user)), OK)
  }

  datatype SaslOutcome = Challenged | MoreData | Finished(success: bool, username: Option<string>) | StepError

  /** What reaches the mechanism, and what it answers. */
  datatype AuthInput = Unsupported | Cancelled | BadBase64 | Stepped(outcome: SaslOutcome)

  /** Whether an authentication context is handed back for a further response. */
  datatype AuthResult = AuthResult(reply: Reply, pending: bool)

  function AfterStep(x: SessionView, outcome: SaslOutcome): (SessionView, AuthResult) {
    match outcome
    case Challenged => (x, AuthResult(Continuation, true))
    case MoreData => (x, AuthResult(Continuation, true))
    case Finished(success, username) =>
      if success && username.Some? then
        (x.(state := Authenticated, username := username), AuthResult(OK, false))
      else (x, AuthResult(NO("Authentication failed"), false))
    case StepError => (x, AuthResult(NO("Authentication failed"), false))
  }

  function AfterAuthenticate(x: SessionView, input: AuthInput): (SessionView, AuthResult) {
    if x.state != NotAuthenticated then (x, AuthResult(BAD("Already authenticated"), false))
    else
      match input
      case Unsupported => (x, AuthResult(NO("Mechanism not supported"), false))
      case Cancelled => (x, AuthResult(BAD("Invalid Base64 in initial response"), false))
      case BadBase64 => (x, AuthResult(BAD("Invalid Base64 in initial response"), false))
      case Stepped(outcome) => AfterStep(x, outcome)
  }

  /** A further response. Unlike the first, it does not look at the session's state. */
  function AfterContinue(x: SessionView, input: AuthInput): (SessionView, AuthResult) {
    match input
    case Unsupported => (x, AuthResult(BAD("Invalid Base64"), false))
    case Cancelled => (x, AuthResult(BAD("AUTHENTICATE cancelled"), false))
    case BadBase64 => (x, AuthResult(BAD("Invalid Base64"), false))
    case Stepped(outcome) => AfterStep(x, outcome)
  }

  // ---- Mailboxes ----------------------------------------------------------------------

  datatype World = World(session: SessionView, registry: State)

  /** A session's receivers exist. */
  ghost predicate Owns(w: World) {
    && WellFormed(w.registry)
    && (w.session.rx.Some? ==> w.session.rx.value in w.registry.receivers)
    && (w.session.held.Some? ==> w.session.held.value in w.registry.receivers)
  }

  function Released(s: State, rx: Option<ReceiverId>): (s1: State)
    requires WellFormed(s)
    ensures WellFormed(s1)
  {
    if rx.Some? then AfterDropReceiver(s, rx.value) else s
  }

  datatype Lookup = StoreFailed | NoSuchMailbox | Found(mailbox: MailboxId)

  function AfterSelect(w: World, lookup: Lookup): (World, Reply)
    requires WellFormed(w.registry)
  {
    var x := w.session;
    if !x.state.Authenticated? && !x.state.Selected? then (w, NO("Not authenticated"))
    else if x.username.None? then (w, NO("No username in session"))
    else
      match lookup
      case StoreFailed => (w, Failed)
      case NoSuchMailbox => (w, NO("Mailbox does not exist"))
      case Found(m) =>
        var (s, r) := AfterSubscribe(w.registry, m);
        (World(x.(state := Selected(m), rx := Some(r)), Released(s, x.rx)), OK)
  }

  /** `expunged` says whether the implicit expunge succeeds. */
  function AfterClose(w: World, expunged: bool): (World, Reply)
    requires WellFormed(w.registry)
  {
    var x := w.session;
    if !x.state.Selected? then (w, NO("No mailbox selected"))
    else if !expunged then (w, Failed)
    else (World(x.(state := Authenticated, rx := None), Released(w.registry, x.rx)), OK)
  }

  function AfterIdle(x: SessionView, tag: string, counters: Option<Snapshot>): (SessionView, Reply) {
    if !x.state.Selected? then (x, NO("No mailbox selected"))
    else if counters.None? then (x, Failed)
    else (x.(state := Idle(x.state.mailbox), snapshot := counters, tag := Some(tag)), Continuation)
  }

  // ---- The IDLE loop ---------------------------------------------------------------------

  /** Entering the loop takes the receiver, or subscribes if an earlier loop lost it. */
  function AfterBeginIdle(w: World): World
    requires WellFormed(w.registry)
  {
    var x := w.session;
    if !x.state.Idle? then w
    else if x.rx.Some? then w.(session := x.(rx := None, held := x.rx))
    else
      var (s, r) := AfterSubscribe(w.registry, x.state.mailbox);
      World(x.(held := Some(r)), s)
  }

  /** One event, if there is one, becomes one line at once. */
  function AfterIdlePoll(w: World): (World, seq<string>)
    requires Owns(w)
  {
    var x := w.session;
    if x.held.None? then (w, [])
    else
      var (s, got) := AfterTryReceive(w.registry, x.held.value);
      (World(x, s), if got.Received? then [FormatMailboxEvent(got.event)] else [])
  }

  /** The loop ends on DONE, end of input or timeout; it fails while waiting or writing events; or
      the completion line cannot be written. */
  datatype IdleEnd = Ended | LoopFailed | CompletionFailed

  function AfterEndIdle(w: World, end: IdleEnd): World
    requires WellFormed(w.registry)
  {
    var x := w.session;
    if !x.state.Idle? || x.held.None? then w
    else
      var y := x.(state := Selected(x.state.mailbox), held := None);
      match end
      case Ended => w.(session := y.(rx := x.held, tag := None))
      case CompletionFailed => w.(session := y.(rx := x.held))
      case LoopFailed => World(y, Released(w.registry, x.held))
  }

  /** Outside IDLE all pending events are sent after each command. */
  function AfterDrain(w: World): (World, seq<string>)
    requires Owns(w)
  {
    var x := w.session;
    if x.rx.None? then (w, [])
    else
      var (s, events, closed) := Drain(w.registry, x.rx.value);
      (if closed then World(x.(rx := None), Released(s, x.rx)) else World(x, s), FormatAll(events))
  }

  /** What a drain yields that has already produced `sent`. */
  function DrainOn(s: State, r: ReceiverId, sent: seq<MailboxEvent>): (State, seq<MailboxEvent>, bool)
    requires WellFormed(s) && r in s.receivers
  {
    var (s1, events, closed) := Drain(s, r);
    (s1, sent + events, closed)
  }

  lemma DrainOnNothing(s: State, r: ReceiverId)
    requires WellFormed(s) && r in s.receivers
    ensures DrainOn(s, r, []) == Drain(s, r)
  {
    hide Drain, WellFormed;
    assert [] + Drain(s, r).1 == Drain(s, r).1;
  }

  lemma DrainTakesOne(s: State, r: ReceiverId, sent: seq<MailboxEvent>)
    requires WellFormed(s) && r in s.receivers
    ensures var (s1, got) := AfterTryReceive(s, r);
            DrainOn(s, r, sent)
            == match got
               case Received(e) => DrainOn(s1, r, sent + [e])
               case Lagged(_) => DrainOn(s1, r, sent)
               case Empty => (s1, sent, false)
               case Closed => (s1, sent, true)
  {
    hide WellFormed, AfterTryReceive;
    var (s1, got) := AfterTryReceive(s, r);
    match got
    case Received(e) => assert sent + ([e] + Drain(s1, r).1) == (sent + [e]) + Drain(s1, r).1;
    case Lagged(_) =>
    case _ => assert sent + [] == sent;
  }

  // ---- The session object -------------------------------------------------------------------

  class ImapSession {
    var state: ImapState
    var tag: Option<string>
    var username: Option<string>
    var snapshot: Option<Snapshot>
    var rx: Option<ReceiverId>
    var held: Option<ReceiverId>

    ghost function View(): SessionView
      reads this
    {
      SessionView(state, tag, username, snapshot, rx, held)
    }

    constructor ()
      ensures View() == NEW_SESSION
    {
      state, tag, username, snapshot, rx, held := NotAuthenticated, None, None, None, None, None;
    }

    method HandleLogin(newTag: string, user: string, accepted: Option<bool>) returns (reply: Reply)
      modifies this
      ensures (View(), reply) == AfterLogin(old(View()), newTag, user, accepted)
    {
      if state != NotAuthenticated {
        return BAD("Already authenticated");
      }
      if !ValidUsername(user) {
        return NO("Invalid username");
      }
      if accepted.None? {
        return Failed;
      }
      if accepted.value {
        state := Authenticated;
        tag := Some(newTag);
        username := Some(user);
        return OK;
      }
      return NO("Invalid credentials");
    }

    method HandleLogout() returns (reply: Reply)
      modifies this
      ensures View() == old(View()).(state := Logout) && reply == OK
    {
      state := Logout;
      return OK;
    }

    method HandleAuthenticate(input: AuthInput) returns (r: AuthResult)
      modifies this
      ensures (View(), r) == AfterAuthenticate(old(View()), input)
    {
      if state != NotAuthenticated {
        return AuthResult(BAD("Already authenticated"), false);
      }
      match input
      case Unsupported => r := AuthResult(NO("Mechanism not supported"), false);
      case Stepped(outcome) => r := HandleAuthenticateStep(outcome);
      case _ => r := AuthResult(BAD("Invalid Base64 in initial response"), false);
    }

    method HandleAuthenticateContinue(input: AuthInput) returns (r: AuthResult)
      modifies this
      ensures (View(), r) == AfterContinue(old(View()), input)
    {
      match input
      case Cancelled => r := AuthResult(BAD("AUTHENTICATE cancelled"), false);
      case Stepped(outcome) => r := HandleAuthenticateStep(outcome);
      case _ => r := AuthResult(BAD("Invalid Base64"), false);
    }

    method HandleAuthenticateStep(outcome: SaslOutcome) returns (r: AuthResult)
      modifies this
      ensures (View(), r) == AfterStep(old(View()), outcome)
    {
      match outcome
      case Finished(success, name) =>
        if success && name.Some? {
          state := Authenticated;
          username := name;
          r := AuthResult(OK, false);
        } else {
          r := AuthResult(NO("Authentication failed"), false);
        }
      case StepError => r := AuthResult(NO("Authentication failed"), false);
      case _ => r := AuthResult(Continuation, true);
    }

    method HandleSelect(registry: MailboxRegistry, lookup: Lookup) returns (reply: Reply)
      requires registry.Valid()
      modifies this, registry
      ensures registry.Valid()
      ensures (World(View(), registry.Current()), reply) == AfterSelect(old(World(View(), registry.Current())), lookup)
    {
      if !state.Authenticated? && !state.Selected? {
        return NO("Not authenticated");
      }
      if username.None? {
        return NO("No username in session");
      }
      match lookup
      case StoreFailed => return Failed;
      case NoSuchMailbox => return NO("Mailbox does not exist");
      case Found(m) =>
        state := Selected(m);
        var previous := rx;
        var r := registry.Subscribe(m);
        rx := Some(r);
        if previous.Some? {
          registry.DropReceiver(previous.value);
        }
        return OK;
    }

    method HandleClose(registry: MailboxRegistry, expunged: bool) returns (reply: Reply)
      requires registry.Valid()
      modifies this, registry
      ensures registry.Valid()
      ensures (World(View(), registry.Current()), reply) == AfterClose(old(World(View(), registry.Current())), expunged)
    {
      if !state.Selected? {
        return NO("No mailbox selected");
      }
      if !expunged {
        return Failed;
      }
      state := Authenticated;
      if rx.Some? {
        registry.DropReceiver(rx.value);
      }
      rx := None;
      return OK;
    }

    method HandleIdle(newTag: string, counters: Option<Snapshot>) returns (reply: Reply)
      modifies this
      ensures (View(), reply) == AfterIdle(old(View()), newTag, counters)
    {
      if !state.Selected? {
        return NO("No mailbox selected");
      }
      if counters.None? {
        return Failed;
      }
      snapshot := counters;
      state := Idle(state.mailbox);
      tag := Some(newTag);
      return Continuation;
    }

    method BeginIdle(registry: MailboxRegistry)
      requires registry.Valid()
      modifies this, registry
      ensures registry.Valid()
      ensures World(View(), registry.Current()) == AfterBeginIdle(old(World(View(), registry.Current())))
    {
      if !state.Idle? {
        return;
      }
      if rx.Some? {
        held, rx := rx, None;
      } else {
        var r := registry.Subscribe(state.mailbox);
        held := Some(r);
      }
    }

    method IdlePoll(registry: MailboxRegistry) returns (lines: seq<string>)
      requires Owns(World(View(), registry.Current()))
      modifies registry
      ensures registry.Valid()
      ensures (World(View(), registry.Current()), lines) == AfterIdlePoll(old(World(View(), registry.Current())))
    {
      if held.None? {
        return [];
      }
      var got := registry.TryReceive(held.value);
      lines := if got.Received? then [FormatMailboxEvent(got.event)] else [];
    }

    method EndIdle(registry: MailboxRegistry, end: IdleEnd)
      requires registry.Valid()
      modifies this, registry
      ensures registry.Valid()
      ensures World(View(), registry.Current()) == AfterEndIdle(old(World(View(), registry.Current())), end)
    {
      if !state.Idle? || held.None? {
        return;
      }
      match end {
        case Ended =>
          rx := held;
          tag := None;
        case CompletionFailed =>
          rx := held;
        case LoopFailed =>
          registry.DropReceiver(held.value);
      }
      held := None;
      state := Selected(state.mailbox);
    }

    method DrainMailboxEvents(registry: MailboxRegistry) returns (lines: seq<string>)
      requires Owns(World(View(), registry.Current()))
      modifies this, registry
      ensures registry.Valid()
      ensures (World(View(), registry.Current()), lines) == AfterDrain(old(World(View(), registry.Current())))
    {
      hide WellFormed, FormatMailboxEvent, AfterTryReceive, Drain, DrainOn;
      if rx.None? {
        return [];
      }
      var r := rx.value;
      lines := [];
      ghost var sent: seq<MailboxEvent> := [];
      ghost var view, whole := View(), DrainOn(registry.Current(), r, []);
      DrainOnNothing(registry.Current(), r);
      while true
        invariant registry.Valid() && View() == view && rx == Some(r) && r in registry.receivers
        invariant lines == FormatAll(sent)
        invariant whole == DrainOn(registry.Current(), r, sent)
        decreases Backlog(registry.Current(), r)
      {
        DrainTakesOne(registry.Current(), r, sent);
        var got := registry.TryReceive(r);
        match got
        case Received(event) =>
          assert (sent + [event])[..|sent|] == sent;
          lines := lines + [FormatMailboxEvent(event)];
          sent := sent + [event];
        case Lagged(_) =>
        case Empty =>
          return;
        case Closed =>
          registry.DropReceiver(r);
          rx := None;
          return;
      }
    }
  }
}
