/** The router: passes a mail from processor to processor until its state stops changing. */
module Router {
  import opened Wrappers
  import opened Pipeline

  const MAX_DEPTH: nat := 100

  type Processors = map<MailState, Processor>

  /** The registered processors as they answer in each round (from 0) of one route: a matcher or
      mailet with a memory may answer differently every time. */
  type Rounds = nat -> Processors

  datatype Verdict = Delivered | NoProcessor | PassFailed | EndedInError

  datatype Routing =
    | Running(mail: Mail, depth: nat)
    | Done(verdict: Verdict)

  /** Beyond the depth limit the mail is forced into the Error state before each pass. */
  function Entering(mail: Mail, depth: nat): Mail {
    if depth > MAX_DEPTH then mail.(state := Error) else mail
  }

  /** One round of the routing loop. */
  function RoutePass(rounds: Rounds, mail: Mail, depth: nat): Routing {
    var m, processors := Entering(mail, depth), rounds(depth);
    if m.state !in processors then Done(NoProcessor)
    else
      var pass := ProcessPass(processors[m.state], m);
      if pass.Failed? then Done(PassFailed)
      else if pass.mail.state == Ghost then Done(Delivered)
      else if pass.mail.state == m.state then Done(if m.state == Error then EndedInError else Delivered)
      else Running(pass.mail, depth + 1)
  }

  function RouteFrom(rounds: Rounds, mail: Mail, depth: nat, passes: nat): Routing
    decreases passes
  {
    if passes == 0 then Running(mail, depth)
    else
      match RoutePass(rounds, mail, depth)
      case Done(v) => Done(v)
      case Running(m, d) => RouteFrom(rounds, m, d, passes - 1)
  }

  /** The routing loop, stopped after `passes` rounds if it has not ended by then. */
  method Route(rounds: Rounds, mail: Mail, passes: nat) returns (r: Routing)
    ensures r == RouteFrom(rounds, mail, 0, passes)
  {
    hide ProcessPass, ProcessFrom;
    var current, depth, left := mail, 0, passes;
    while left > 0
      invariant RouteFrom(rounds, mail, 0, passes) == RouteFrom(rounds, current, depth, left)
      decreases left
    {
      left := left - 1;
      if depth > MAX_DEPTH {
        current := current.(state := Error);
      }
      var processors := rounds(depth);
      if current.state !in processors {
        return Done(NoProcessor);
      }
      var originalState := current.state;
      var processed := Process(processors[current.state], current);
      if processed.None? {
        return Done(PassFailed);
      }
      current := processed.value;
      if current.state == Ghost {
        return Done(Delivered);
      }
      if current.state == originalState {
        return Done(if current.state == Error then EndedInError else Delivered);
      }
      depth := depth + 1;
    }
    return Running(current, depth);
  }

  lemma {:induction false} RouteInTwoParts(rounds: Rounds, mail: Mail, depth: nat, a: nat, b: nat)
    ensures var r := RouteFrom(rounds, mail, depth, a);
            && (r.Running? ==> r.depth == depth + a)
            && RouteFrom(rounds, mail, depth, a + b)
               == if r.Done? then r else RouteFrom(rounds, r.mail, r.depth, b)
    decreases a
  {
    hide ProcessPass, Entering;
    if a > 0 && RoutePass(rounds, mail, depth).Running? {
      var next := RoutePass(rounds, mail, depth);
      RouteInTwoParts(rounds, next.mail, next.depth, a - 1, b);
    }
  }

  // ---- Termination -----------------------------------------------------------------

  /** The processor registered for Error leaves the state Error or Ghost. */
  ghost predicate ErrorSettles(processors: Processors) {
    forall mail: Mail :: mail.state == Error ==> SettlesOn(processors, mail)
  }

  /** The pass of the Error processor over `mail` ends in Error or Ghost, or there is none. */
  ghost predicate SettlesOn(processors: Processors, mail: Mail) {
    Error in processors ==> Settles(ProcessPass(processors[Error], mail))
  }

  ghost predicate Settles(pass: Processed) {
    pass.Failed? || pass.mail.state == Error || pass.mail.state == Ghost
  }

  /** Beyond the depth limit a round is the last exactly when its Error pass settles. */
  lemma ForcedRound(rounds: Rounds, mail: Mail, depth: nat)
    requires depth > MAX_DEPTH
    ensures var r, m := RoutePass(rounds, mail, depth), mail.(state := Error);
            && (r.Done? <==> SettlesOn(rounds(depth), m))
            && (r.Running? ==> r.mail == Unsettled(rounds(depth), m) && r.depth == depth + 1)
  {
    hide ProcessPass;
  }

  /** The mail that a pass of the Error processor leaves, while it does not settle. */
  function Unsettled(processors: Processors, mail: Mail): Mail {
    if Error !in processors then mail
    else
      var pass := ProcessPass(processors[Error], mail);
      if pass.Failed? then mail else pass.mail
  }

  /** The mail that the k-th forced pass (from 0) receives, if none before it settled. */
  function Forced(rounds: Rounds, mail: Mail, depth: nat, k: nat): (m: Mail)
    ensures m.state == Error
    decreases k
  {
    if k == 0 then mail.(state := Error)
    else Forced(rounds, Unsettled(rounds(depth), mail.(state := Error)), depth + 1, k - 1)
  }

  /** One of the first `passes` forced passes settles. */
  ghost predicate SettlesWithin(rounds: Rounds, mail: Mail, depth: nat, passes: nat) {
    exists k: nat :: k < passes && SettlesOn(rounds(depth + k), Forced(rounds, mail, depth, k))
  }

  /** Beyond the limit a route ends within a number of passes exactly when one of that many iterates
      of the forced Error pass settles. */
  lemma {:induction false} ForcedRouteEndsIff(rounds: Rounds, mail: Mail, depth: nat, passes: nat)
    requires depth > MAX_DEPTH
    ensures RouteFrom(rounds, mail, depth, passes).Done? <==> SettlesWithin(rounds, mail, depth, passes)
    decreases passes
  {
    hide RoutePass, SettlesOn, Unsettled;
    if passes > 0 {
      var m := mail.(state := Error);
      ForcedRound(rounds, mail, depth);
      assert Forced(rounds, mail, depth, 0) == m;
      if SettlesOn(rounds(depth), m) {
        assert SettlesOn(rounds(depth + 0), Forced(rounds, mail, depth, 0));
      } else {
        var next := Unsettled(rounds(depth), m);
        ForcedRouteEndsIff(rounds, next, depth + 1, passes - 1);
        ShiftedIterates(rounds, mail, depth, passes);
      }
    }
  }

  lemma ShiftedIterates(rounds: Rounds, mail: Mail, depth: nat, passes: nat)
    requires passes > 0 && !SettlesOn(rounds(depth), mail.(state := Error))
    ensures var next := Unsettled(rounds(depth), mail.(state := Error));
            SettlesWithin(rounds, mail, depth, passes) <==> SettlesWithin(rounds, next, depth + 1, passes - 1)
  {
    hide SettlesOn, Unsettled;
    var next := Unsettled(rounds(depth), mail.(state := Error));
    if SettlesWithin(rounds, mail, depth, passes) {
      var k: nat :| k < passes && SettlesOn(rounds(depth + k), Forced(rounds, mail, depth, k));
      assert k > 0;
      assert depth + k == (depth + 1) + (k - 1);
      assert SettlesOn(rounds((depth + 1) + (k - 1)), Forced(rounds, next, depth + 1, k - 1));
    }
    if SettlesWithin(rounds, next, depth + 1, passes - 1) {
      var k: nat :| k < passes - 1 && SettlesOn(rounds((depth + 1) + k), Forced(rounds, next, depth + 1, k));
      assert (depth + 1) + k == depth + (k + 1);
      assert SettlesOn(rounds(depth + (k + 1)), Forced(rounds, mail, depth, k + 1));
    }
  }

  /** The route has ended at the limit, or some iterate of the forced Error pass settles. */
  ghost predicate EndsAtOrBeyond(rounds: Rounds, limit: Routing) {
    limit.Running? ==> exists passes :: SettlesWithin(rounds, limit.mail, limit.depth, passes)
  }

  /** A route ends at all exactly when it ends within the first 101 rounds, or some iterate of the
      forced Error pass settles on the mail that is left after them. */
  lemma RouteEndsIff(rounds: Rounds, mail: Mail)
    ensures (exists passes :: RouteFrom(rounds, mail, 0, passes).Done?)
       <==> EndsAtOrBeyond(rounds, RouteFrom(rounds, mail, 0, MAX_DEPTH + 1))
  {
    hide RoutePass, SettlesWithin;
    var depth := MAX_DEPTH + 1;
    var limit := RouteFrom(rounds, mail, 0, depth);
    RouteInTwoParts(rounds, mail, 0, depth, 0);
    if limit.Running? {
      if exists passes :: RouteFrom(rounds, mail, 0, passes).Done? {
        var passes: nat :| RouteFrom(rounds, mail, 0, passes).Done?;
        RouteInTwoParts(rounds, mail, 0, passes, depth);
        RouteInTwoParts(rounds, mail, 0, depth, passes);
        ForcedRouteEndsIff(rounds, limit.mail, depth, passes);
      }
      if exists passes :: SettlesWithin(rounds, limit.mail, depth, passes) {
        var passes: nat :| SettlesWithin(rounds, limit.mail, depth, passes);
        RouteInTwoParts(rounds, mail, 0, depth, passes);
        ForcedRouteEndsIff(rounds, limit.mail, depth, passes);
      }
    }
  }

  lemma {:induction false} EndsAfter(rounds: Rounds, mail: Mail, depth: nat, passes: nat)
    requires ErrorSettles(rounds(MAX_DEPTH + 1))
    requires depth <= MAX_DEPTH + 1 && MAX_DEPTH + 2 <= depth + passes
    ensures RouteFrom(rounds, mail, depth, passes).Done?
    decreases passes
  {
    hide ProcessPass, SettlesOn;
    if depth > MAX_DEPTH {
      ForcedRound(rounds, mail, depth);
      assert SettlesOn(rounds(depth), mail.(state := Error));
    } else {
      var first := RoutePass(rounds, mail, depth);
      if first.Running? {
        EndsAfter(rounds, first.mail, first.depth, passes - 1);
      }
    }
  }

  /** With an Error processor that settles in the first round beyond the limit, every route ends
      within 102 passes, whatever the other processors and the other rounds do. */
  lemma RouteEndsWithin102Passes(rounds: Rounds, mail: Mail, passes: nat)
    requires ErrorSettles(rounds(101)) && passes >= 102
    ensures RouteFrom(rounds, mail, 0, passes).Done?
  {
    EndsAfter(rounds, mail, 0, passes);
  }

  /** That hypothesis is exact: the depth limit stops everything that reaches it, in one more pass,
      if and only if the Error processor settles there. */
  lemma LimitStopsEverythingIff(rounds: Rounds)
    ensures (forall mail: Mail, depth: nat, passes: nat ::
               depth <= MAX_DEPTH + 1 && MAX_DEPTH + 2 <= depth + passes ==>
                 RouteFrom(rounds, mail, depth, passes).Done?)
       <==> ErrorSettles(rounds(MAX_DEPTH + 1))
  {
    hide RoutePass, SettlesOn;
    if ErrorSettles(rounds(MAX_DEPTH + 1)) {
      forall mail: Mail, depth: nat, passes: nat | depth <= MAX_DEPTH + 1 && MAX_DEPTH + 2 <= depth + passes
        ensures RouteFrom(rounds, mail, depth, passes).Done?
      {
        EndsAfter(rounds, mail, depth, passes);
      }
    } else {
      var mail: Mail :| mail.state == Error && !SettlesOn(rounds(MAX_DEPTH + 1), mail);
      ForcedRound(rounds, mail, MAX_DEPTH + 1);
      assert mail.(state := Error) == mail;
      assert RouteFrom(rounds, mail, MAX_DEPTH + 1, 1).Running?;
    }
  }

  /** The mail as the k-th pass (from 0) receives it, if the route gets that far. */
  ghost function Received(rounds: Rounds, mail: Mail, depth: nat, k: nat): Option<Mail>
    decreases k
  {
    if k == 0 then Some(Entering(mail, depth))
    else
      match RoutePass(rounds, mail, depth)
      case Done(_) => None
      case Running(m, d) => Received(rounds, m, d, k - 1)
  }

  /** The pass that starts with `m` ends in Ghost, or in the non-Error state it started with. */
  ghost predicate EndsWell(processors: Processors, m: Mail) {
    m.state in processors && EndedWell(ProcessPass(processors[m.state], m), m.state)
  }

  ghost predicate EndedWell(pass: Processed, before: MailState) {
    pass.Finished? && (pass.mail.state == Ghost || (pass.mail.state == before && before != Error))
  }

  /** The k-th pass of a route (from 0) gets the mail that the pass before it left; from the hundred
      and first change of state on it gets it in the state Error, and not earlier. */
  lemma {:induction false} PassesAreChained(rounds: Rounds, mail: Mail, depth: nat, k: nat)
    requires Received(rounds, mail, depth, k).Some?
    ensures k == 0 ==>
              Received(rounds, mail, depth, 0).value == if depth > 100 then mail.(state := Error) else mail
    ensures k > 0 ==>
              && Received(rounds, mail, depth, k - 1).Some?
              && var before, processors := Received(rounds, mail, depth, k - 1).value, rounds(depth + k - 1);
                 && before.state in processors
                 && var pass := ProcessPass(processors[before.state], before);
                    && pass.Finished? && pass.mail.state != Ghost && pass.mail.state != before.state
                    && Received(rounds, mail, depth, k).value
                       == if depth + k > 100 then pass.mail.(state := Error) else pass.mail
    decreases k
  {
    hide ProcessPass;
    if k > 0 {
      var next := RoutePass(rounds, mail, depth);
      PassesAreChained(rounds, next.mail, depth + 1, k - 1);
      if k > 1 {
        assert depth + 1 + (k - 1) - 1 == depth + k - 1;
      }
    }
  }

  /** The route is successful exactly when its last pass ends in Ghost, or in the non-Error state
      the mail entered it with. It fails for want of a processor, in a pass, or in the state Error. */
  lemma {:induction false} DeliveredIffLastPassEndsWell(
    rounds: Rounds, mail: Mail, depth: nat, passes: nat)
    returns (k: nat)
    requires RouteFrom(rounds, mail, depth, passes).Done?
    ensures k < passes && Received(rounds, mail, depth, k).Some?
    ensures forall more :: more > k ==> Received(rounds, mail, depth, more).None?
    ensures (RouteFrom(rounds, mail, depth, passes) == Done(Delivered))
       <==> EndsWell(rounds(depth + k), Received(rounds, mail, depth, k).value)
    ensures var r, m, processors :=
              RouteFrom(rounds, mail, depth, passes), Received(rounds, mail, depth, k).value, rounds(depth + k);
            && (r == Done(NoProcessor) <==> m.state !in processors)
            && (r == Done(PassFailed) <==>
                  m.state in processors && ProcessPass(processors[m.state], m).Failed?)
            && (r == Done(EndedInError) <==>
                  && m.state == Error && m.state in processors
                  && ProcessPass(processors[m.state], m).Finished?
                  && ProcessPass(processors[m.state], m).mail.state == Error)
    decreases passes
  {
    hide ProcessPass;
    match RoutePass(rounds, mail, depth)
    case Done(_) => k := 0;
    case Running(m, d) =>
      k := DeliveredIffLastPassEndsWell(rounds, m, d, passes - 1);
      k := k + 1;
  }

  // ---- A route that never ends -------------------------------------------------------

  function MoveTo(target: MailState): Step {
    Step((mail: Mail) => Ok(mail.recipients),
         (mail: Mail, n: nat) => Served(mail.(state := target), Ok(Continue)),
         Abort)
  }

  const PING_PONG: Processors :=
    map[Error := Processor(Error, [MoveTo(Root)]), Root := Processor(Root, [MoveTo(Error)])]

  const FOREVER: Rounds := _ => PING_PONG

  lemma MoveToMoves(own: MailState, target: MailState, mail: Mail)
    requires mail.recipients != [] && target != own
    ensures ProcessPass(Processor(own, [MoveTo(target)]), mail)
            == Finished(mail.(state := target), [], [Visit(0, mail.recipients)])
  {
    var steps := [MoveTo(target)];
    assert steps[0].matcher(mail) == Ok(mail.recipients);
    assert Invoke(steps[0], mail) == Invocation(mail.(state := target), Ok(Some(Continue)));
    assert ProcessFrom(own, steps, 0, mail)
        == After([], [Visit(0, mail.recipients)], Finished(mail.(state := target), [], []));
  }

  /** Without that hypothesis the depth limit does not end the loop: an Error processor that moves
      mail on keeps it running forever. */
  lemma {:induction false} PingPongNeverEnds(mail: Mail, depth: nat, passes: nat)
    requires mail.recipients != [] && (mail.state == Root || mail.state == Error)
    ensures RouteFrom(FOREVER, mail, depth, passes).Running?
    decreases passes
  {
    if passes > 0 {
      var m := Entering(mail, depth);
      MoveToMoves(Error, Root, m);
      MoveToMoves(Root, Error, m);
      var next := RoutePass(FOREVER, mail, depth);
      assert next == Running(m.(state := if m.state == Error then Root else Error), depth + 1);
      PingPongNeverEnds(next.mail, next.depth, passes - 1);
    }
  }

  // ---- Recipients over the whole route ---------------------------------------------------

  /** The mail a round leaves, and what its pass forked off. */
  ghost function Round(rounds: Rounds, mail: Mail, depth: nat): (Mail, seq<Mail>) {
    var m, processors := Entering(mail, depth), rounds(depth);
    if m.state !in processors then (m, [])
    else
      var pass := ProcessPass(processors[m.state], m);
      if pass.Failed? then (m, []) else (pass.mail, pass.forked)
  }

  /** The mail after at most `passes` rounds, and everything forked off on the way. */
  ghost function Trail(rounds: Rounds, mail: Mail, depth: nat, passes: nat): (Mail, seq<Mail>)
    decreases passes
  {
    if passes == 0 then (mail, [])
    else
      var (m, forked) := Round(rounds, mail, depth);
      match RoutePass(rounds, mail, depth)
      case Done(_) => (m, forked)
      case Running(_, d) =>
        var (last, more) := Trail(rounds, m, d, passes - 1);
        (last, forked + more)
  }

  lemma {:induction false} TrailFollowsRoute(rounds: Rounds, mail: Mail, depth: nat, passes: nat)
    ensures var r := RouteFrom(rounds, mail, depth, passes);
            r.Running? ==> Trail(rounds, mail, depth, passes).0 == r.mail
    decreases passes
  {
    hide ProcessPass, Entering;
    if passes > 0 && RoutePass(rounds, mail, depth).Running? {
      var next := RoutePass(rounds, mail, depth);
      TrailFollowsRoute(rounds, next.mail, next.depth, passes - 1);
    }
  }

  /** Every processor of every round has well-behaved steps. */
  ghost predicate AllWellBehaved(rounds: Rounds) {
    forall d: nat, s: MailState :: s in rounds(d) ==> WellBehaved(rounds(d)[s].steps)
  }

  /** Every fork of the round matches whole groups; a pass that fails leaves no result to speak of. */
  ghost predicate RoundForksWhole(rounds: Rounds, mail: Mail, depth: nat) {
    var m, processors := Entering(mail, depth), rounds(depth);
    m.state in processors && ProcessPass(processors[m.state], m).Finished? ==>
      PassForksWhole(processors[m.state].state, processors[m.state].steps, 0, m)
  }

  lemma RoundLoses(rounds: Rounds, mail: Mail, depth: nat)
    requires AllWellBehaved(rounds)
    ensures var (m, forked) := Round(rounds, mail, depth);
            && OnlyLoses(mail, m, forked)
            && (Conserves(mail, m, forked) <==> RoundForksWhole(rounds, mail, depth))
            && (RoundForksWhole(rounds, mail, depth) && mail.recipients != [] ==> m.recipients != [])
  {
    hide WellBehaved, ProcessFrom, PassForksWhole;
    var m, processors := Entering(mail, depth), rounds(depth);
    NothingForked(mail, m);
    if m.state in processors && ProcessPass(processors[m.state], m).Finished? {
      var p := processors[m.state];
      RecipientsArePartitionedIff(p.state, p.steps, 0, m);
      if PassForksWhole(p.state, p.steps, 0, m) && m.recipients != [] {
        NonEmptyStaysNonEmpty(p.state, p.steps, 0, m);
      }
    }
  }

  /** Every fork of the first `passes` rounds matches whole groups. */
  ghost predicate RouteForksWhole(rounds: Rounds, mail: Mail, depth: nat, passes: nat)
    decreases passes
  {
    passes > 0 ==>
      && RoundForksWhole(rounds, mail, depth)
      && (RoutePass(rounds, mail, depth).Running? ==>
            RouteForksWhole(rounds, Round(rounds, mail, depth).0, depth + 1, passes - 1))
  }

  /** Over a whole route nobody is lost exactly when no fork of any pass tears the copies of an
      address apart: then the original recipients are the disjoint union of the last mail's and of
      all mails forked off, and a mail with recipients keeps some. Nobody is ever duplicated. */
  lemma {:induction false} RouteConservesRecipientsIff(rounds: Rounds, mail: Mail, depth: nat, passes: nat)
    requires AllWellBehaved(rounds)
    ensures var (last, forked) := Trail(rounds, mail, depth, passes);
            && OnlyLoses(mail, last, forked)
            && (Conserves(mail, last, forked) <==> RouteForksWhole(rounds, mail, depth, passes))
            && (RouteForksWhole(rounds, mail, depth, passes) && mail.recipients != [] ==> last.recipients != [])
    decreases passes
  {
    hide *;
    RouteUnfolds(rounds, mail, depth, passes);
    if passes == 0 {
      NothingForked(mail, mail);
    } else {
      var (m, forked) := Round(rounds, mail, depth);
      RoundLoses(rounds, mail, depth);
      if RoutePass(rounds, mail, depth).Running? {
        RouteConservesRecipientsIff(rounds, m, depth + 1, passes - 1);
        var (last, more) := Trail(rounds, m, depth + 1, passes - 1);
        LossesCompose(mail, m, last, forked, more);
      }
    }
  }

  lemma RouteUnfolds(rounds: Rounds, mail: Mail, depth: nat, passes: nat)
    ensures var trail, (m, forked) := Trail(rounds, mail, depth, passes), Round(rounds, mail, depth);
            if passes == 0 then trail == (mail, []) && RouteForksWhole(rounds, mail, depth, passes)
            else if RoutePass(rounds, mail, depth).Done? then
              && trail == (m, forked)
              && (RouteForksWhole(rounds, mail, depth, passes) <==> RoundForksWhole(rounds, mail, depth))
            else
              var (last, more) := Trail(rounds, m, depth + 1, passes - 1);
              && trail == (last, forked + more)
              && (RouteForksWhole(rounds, mail, depth, passes)
                  <==> RoundForksWhole(rounds, mail, depth) && RouteForksWhole(rounds, m, depth + 1, passes - 1))
  {
    RunningDepth(rounds, mail, depth);
    hide RoutePass, Round, RoundForksWhole;
  }

  lemma RunningDepth(rounds: Rounds, mail: Mail, depth: nat)
    ensures RoutePass(rounds, mail, depth).Running? ==> RoutePass(rounds, mail, depth).depth == depth + 1
  {
    hide ProcessPass;
  }

  /** All matchers of all rounds match whole groups. */
  ghost predicate AllMatchWhole(rounds: Rounds) {
    forall d: nat, s: MailState :: s in rounds(d) ==> MatchesWhole(rounds(d)[s].steps)
  }

  lemma {:induction false} WholeRoutes(rounds: Rounds, mail: Mail, depth: nat, passes: nat)
    requires AllWellBehaved(rounds) && (Distinct(mail.recipients) || AllMatchWhole(rounds))
    ensures RouteForksWhole(rounds, mail, depth, passes)
    decreases passes
  {
    if passes > 0 {
      var (m, forked) := Round(rounds, mail, depth);
      WholeRound(rounds, mail, depth);
      RoundLoses(rounds, mail, depth);
      if Distinct(mail.recipients) {
        FewerAreDistinct(mail, m, forked);
      }
      hide RoutePass, Round, OnlyLoses, Conserves, Distinct, AllWellBehaved, AllMatchWhole, RoundForksWhole;
      WholeRoutes(rounds, m, depth + 1, passes - 1);
    }
  }

  lemma WholeRound(rounds: Rounds, mail: Mail, depth: nat)
    requires AllWellBehaved(rounds) && (Distinct(mail.recipients) || AllMatchWhole(rounds))
    ensures RoundForksWhole(rounds, mail, depth)
  {
    hide WellBehaved, MatchesWhole, PassForksWhole, Distinct, ProcessPass;
    var m, processors := Entering(mail, depth), rounds(depth);
    if m.state in processors {
      var p := processors[m.state];
      if Distinct(mail.recipients) {
        DistinctForksAreWhole(p.state, p.steps, 0, m);
      } else {
        WholeMatchersForkWhole(p.state, p.steps, 0, m);
      }
    }
  }

  /** So recipients are conserved on every route of a mail without repeated recipients, and, if all
      matchers match whole groups, on every route of every mail. */
  lemma RouteConservesRecipients(rounds: Rounds, mail: Mail, depth: nat, passes: nat)
    requires AllWellBehaved(rounds) && (Distinct(mail.recipients) || AllMatchWhole(rounds))
    ensures var (last, forked) := Trail(rounds, mail, depth, passes);
            && Conserves(mail, last, forked) && OnlyLoses(mail, last, forked)
            && (mail.recipients != [] ==> last.recipients != [])
  {
    hide *;
    WholeRoutes(rounds, mail, depth, passes);
    RouteConservesRecipientsIff(rounds, mail, depth, passes);
  }
}
