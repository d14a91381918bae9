/** What the client is told: the reply of each command against what the command did. */
module SessionReplies {
  import opened Wrappers
  import opened Text
  import opened Registry
  import opened Session
  import opened SessionRuns

  /** The tagged reply, or the request for more; other acts have none. */
  ghost function ReplyTo(w: World, act: Act): Option<Reply>
    requires WellFormed(w.registry)
  {
    match act
    case DoLogin(tag, user, accepted) => Some(AfterLogin(w.session, tag, user, accepted).1)
    case DoAuthenticate(input) => Some(AfterAuthenticate(w.session, input).1.reply)
    case DoContinue(input) => Some(AfterContinue(w.session, input).1.reply)
    case DoSelect(lookup) => Some(AfterSelect(w, lookup).1)
    case DoClose(expunged) => Some(AfterClose(w, expunged).1)
    case DoIdle(tag, counters) => Some(AfterIdle(w.session, tag, counters).1)
    case _ => None
  }

  /** The command is allowed in this state, and everything it depends on says yes. */
  ghost predicate Granted(x: SessionView, act: Act) {
    match act
    case DoLogin(_, user, accepted) => x.state == NotAuthenticated && ValidUsername(user) && accepted == Some(true)
    case DoAuthenticate(input) =>
      x.state == NotAuthenticated && exists name :: input == Stepped(Finished(true, Some(name)))
    case DoContinue(input) => exists name :: input == Stepped(Finished(true, Some(name)))
    case DoSelect(lookup) => (x.state.Authenticated? || x.state.Selected?) && x.username.Some? && lookup.Found?
    case DoClose(expunged) => x.state.Selected? && expunged
    case _ => false
  }

  /** The client is asked to go on: IDLE on a selected mailbox, or a SASL exchange that needs more. */
  predicate AsksForMore(x: SessionView, act: Act) {
    match act
    case DoIdle(_, counters) => x.state.Selected? && counters.Some?
    case DoAuthenticate(input) => x.state == NotAuthenticated && NeedsMore(input)
    case DoContinue(input) => NeedsMore(input)
    case _ => false
  }

  predicate NeedsMore(input: AuthInput) { input == Stepped(Challenged) || input == Stepped(MoreData) }

  /** Something behind the handler fails, and the connection ends without a reply. */
  predicate BreaksOff(x: SessionView, act: Act) {
    match act
    case DoLogin(_, user, accepted) => x.state == NotAuthenticated && ValidUsername(user) && accepted.None?
    case DoSelect(lookup) =>
      (x.state.Authenticated? || x.state.Selected?) && x.username.Some? && lookup == Lookup.StoreFailed
    case DoClose(expunged) => x.state.Selected? && !expunged
    case DoIdle(_, counters) => x.state.Selected? && counters.None?
    case _ => false
  }

  /** The command itself is wrong: a second login, or a response that is no Base64 or is cancelled. */
  predicate Misplaced(x: SessionView, act: Act) {
    match act
    case DoLogin(_, _, _) => x.state != NotAuthenticated
    case DoAuthenticate(input) => x.state != NotAuthenticated || input.Cancelled? || input.BadBase64?
    case DoContinue(input) => !input.Stepped?
    case _ => false
  }

  /** Each kind of reply is given in exactly these cases; in all others the command is refused. */
  lemma RepliesTellOutcomes(w: World, act: Act)
    requires WellFormed(w.registry) && ReplyTo(w, act).Some?
    ensures var reply := ReplyTo(w, act).value;
            && (reply == OK <==> Granted(w.session, act))
            && (reply == Continuation <==> AsksForMore(w.session, act))
            && (reply == Failed <==> BreaksOff(w.session, act))
            && (reply.BAD? <==> Misplaced(w.session, act))
  {
    hide WellFormed, AfterSubscribe, Released, ValidUsername;
  }

  /** A refused or failed command changes nothing, neither in the session nor in the registry; one
      that asks for more changes the session by IDLE alone. */
  lemma RefusalsChangeNothing(w: World, act: Act)
    requires WellFormed(w.registry) && ReplyTo(w, act).Some? && ReplyTo(w, act) != Some(OK)
    ensures if ReplyTo(w, act) == Some(Continuation) && act.DoIdle? then
              Next(w, act) == w.(session := w.session.(state := Idle(w.session.state.mailbox),
                                                       snapshot := act.counters, tag := Some(act.tag)))
            else Next(w, act) == w
  {
    hide WellFormed, AfterSubscribe, Released, ValidUsername;
  }

  /** A granted login gives the session its user, a granted selection its mailbox, and a granted
      CLOSE takes it away. */
  lemma GrantedCommandsAct(w: World, act: Act)
    requires WellFormed(w.registry) && Granted(w.session, act)
    ensures var x, y := w.session, Next(w, act).session;
            match act
            case DoLogin(tag, user, _) => y == x.(state := Authenticated, tag := Some(tag), username := Some(user))
            case DoSelect(Found(m)) =>
              y == x.(state := Selected(m), rx := y.rx) && y.rx.Some? && y.rx.value !in w.registry.receivers
            case DoClose(_) => y == x.(state := Authenticated, rx := None)
            case DoAuthenticate(input) => y == x.(state := Authenticated, username := input.outcome.username)
            case DoContinue(input) => y == x.(state := Authenticated, username := input.outcome.username)
            case _ => true
  {
    hide JoinChannel, CreateChannel, Released, ValidUsername;
  }

  /** Why a login, a selection or another command on a mailbox is refused. */
  lemma ReasonsOfRefusal(w: World, act: Act)
    requires WellFormed(w.registry)
    ensures var x, reply := w.session, ReplyTo(w, act);
            match act
            case DoLogin(_, user, accepted) =>
              && (reply == Some(NO("Invalid username")) <==> x.state == NotAuthenticated && !ValidUsername(user))
              && (reply == Some(NO("Invalid credentials"))
                  <==> x.state == NotAuthenticated && ValidUsername(user) && accepted == Some(false))
            case DoSelect(lookup) =>
              && (reply == Some(NO("Not authenticated")) <==> !x.state.Authenticated? && !x.state.Selected?)
              && (reply == Some(NO("Mailbox does not exist"))
                  <==> (x.state.Authenticated? || x.state.Selected?) && x.username.Some? && lookup == NoSuchMailbox)
            case DoClose(_) => reply == Some(NO("No mailbox selected")) <==> !x.state.Selected?
            case DoIdle(_, _) => reply == Some(NO("No mailbox selected")) <==> !x.state.Selected?
            case _ => true
  {
    hide WellFormed, AfterSubscribe, Released, ValidUsername;
    assert |"Invalid username"| < |"Invalid credentials"| && |"Not authenticated"| < |"No username in session"|;
    assert "No username in session"[0] != "Mailbox does not exist"[0];
  }

  /** An exchange is kept open exactly when the client is asked for more. */
  lemma PendingIffAskedForMore(x: SessionView, input: AuthInput)
    ensures AfterAuthenticate(x, input).1.pending <==> x.state == NotAuthenticated && NeedsMore(input)
    ensures AfterContinue(x, input).1.pending <==> NeedsMore(input)
  {
  }
}
