/** What a pass does, told by its service calls: which steps the mail reaches, as what, which of them
    service it, and where the pass ends. */
module Journeys {
  import opened Wrappers
  import opened Pipeline

  // ---- One invocation, by its calls ------------------------------------------------------

  /** The n-th call (from 0) is the first that succeeds; only `Retry` gets beyond the first call. */
  ghost predicate SucceedsAt(step: Step, mail: Mail, n: nat) {
    && (forall j :: 0 <= j < n ==> Call(step, mail, j).outcome.Err?)
    && Call(step, mail, n).outcome.Ok?
    && (n == 0 || (step.policy.Retry? && n <= step.policy.max))
  }

  ghost predicate Succeeds(step: Step, mail: Mail, after: Mail) {
    exists n :: SucceedsAt(step, mail, n) && Call(step, mail, n).mail == after
  }

  /** The only call failed, and the policy says to go on with what it left. */
  ghost predicate Skips(step: Step, mail: Mail, after: Mail) {
    step.policy.Skip? && Call(step, mail, 0).outcome.Err? && Call(step, mail, 0).mail == after
  }

  /** The only call failed under `Abort`, or the first call and all repetitions under `Retry`. */
  ghost predicate GivesUp(step: Step, mail: Mail) {
    match step.policy
    case Skip => false
    case Abort => Call(step, mail, 0).outcome.Err?
    case Retry(max) => forall n :: 0 <= n <= max ==> Call(step, mail, n).outcome.Err?
  }

  /** The policies, in terms of the service calls. */
  lemma InvocationIsItsCalls(step: Step, mail: Mail, after: Mail)
    ensures var inv := Invoke(step, mail);
            && (inv.result.Ok? && inv.result.value.Some? && inv.mail == after <==> Succeeds(step, mail, after))
            && (inv.result == Ok(None) && inv.mail == after <==> Skips(step, mail, after))
            && (inv.result.Err? <==> GivesUp(step, mail))
  {
    assert Call(step, mail, 0) == step.mailet(mail, 0);
    hide Call;
    if step.policy.Retry? {
      var k := RetryIsCalls(step, mail, 0, step.policy.max);
      assert forall n :: SucceedsAt(step, mail, n) && Call(step, mail, k).outcome.Ok? ==> n == k;
    } else {
      assert SucceedsAt(step, mail, 0) <==> Call(step, mail, 0).outcome.Ok?;
    }
  }

  // ---- One step ---------------------------------------------------------------------------

  ghost predicate MatchesNobody(step: Step, mail: Mail) { step.matcher(mail) == Ok([]) }

  ghost predicate MatchesSome(step: Step, mail: Mail) {
    var matched := step.matcher(mail);
    matched.Ok? && 0 < |matched.value| < |mail.recipients|
  }

  ghost predicate MatchesAll(step: Step, mail: Mail) {
    var matched := step.matcher(mail);
    matched.Ok? && matched.value != [] && |mail.recipients| <= |matched.value|
  }

  /** The fork: the part that the mailet gets, and the part that goes on. */
  ghost predicate Halves(step: Step, mail: Mail, half: Mail, rest: Mail) {
    && MatchesSome(step, mail)
    && half == mail.(recipients := step.matcher(mail).value)
    && rest == mail.(recipients := Unmatched(mail.recipients, half.recipients))
  }

  /** The next step gets `next`: nobody was matched; or the mailet serviced everybody and left the
      processor's state, or was skipped; or it dealt with one half, and the rest is in that state. */
  ghost predicate GoesOn(own: MailState, step: Step, mail: Mail, next: Mail, forked: seq<Mail>) {
    || (MatchesNobody(step, mail) && next == mail && forked == [])
    || (MatchesAll(step, mail) && forked == []
        && ((Succeeds(step, mail, next) && next.state == own) || Skips(step, mail, next)))
    || (exists half, after :: && Halves(step, mail, half, next)
                              && (Succeeds(step, half, after) || Skips(step, half, after))
                              && forked == [after] && next.state == own)
  }

  /** The pass returns `last` right after this step. */
  ghost predicate Returns(own: MailState, step: Step, mail: Mail, last: Mail, forked: seq<Mail>) {
    || (MatchesAll(step, mail) && Succeeds(step, mail, last) && last.state != own && forked == [])
    || (exists half, after :: && Halves(step, mail, half, last)
                              && (Succeeds(step, half, after) || Skips(step, half, after))
                              && forked == [after] && last.state != own)
  }

  /** Whom the step's mailet is called for: nobody it did not match. */
  function VisitsAt(step: Step, i: nat, mail: Mail): seq<Visit> {
    var matched := step.matcher(mail);
    if matched.Err? || matched.value == [] then []
    else [Visit(i, if |matched.value| < |mail.recipients| then matched.value else mail.recipients)]
  }

  lemma TurnIsItsCalls(own: MailState, step: Step, i: nat, mail: Mail, m: Mail, forked: seq<Mail>)
    ensures var turn := TakeTurn(own, step, i, mail);
            && (turn.Turn? ==> turn.visits == VisitsAt(step, i, mail))
            && (turn.Turn? && turn.mail == m && turn.forked == forked && !turn.ends
                <==> GoesOn(own, step, mail, m, forked))
            && (turn.Turn? && turn.mail == m && turn.forked == forked && turn.ends
                <==> Returns(own, step, mail, m, forked))
  {
    hide Invoke, Call, Unmatched, Succeeds, Skips;
    var matched := step.matcher(mail);
    InvocationIsItsCalls(step, mail, m);
    if MatchesSome(step, mail) {
      var (half, rest) := Split(mail, matched.value);
      var after := Invoke(step, half).mail;
      assert Halves(step, mail, half, rest);
      InvocationIsItsCalls(step, half, after);
      forall other ensures Succeeds(step, half, other) || Skips(step, half, other) ==> other == after {
        InvocationIsItsCalls(step, half, other);
      }
    }
  }

  // ---- The whole pass -----------------------------------------------------------------------

  /** A step that the mail reached, the mail as it got there, and what the step forked off. */
  datatype Leg = Leg(mail: Mail, forked: seq<Mail>)

  /** `legs` are the steps from step `i` on that a pass takes with `mail`, and it returns `last`. */
  ghost predicate Journey(own: MailState, steps: seq<Step>, i: nat, mail: Mail, legs: seq<Leg>, last: Mail)
    decreases |legs|
  {
    if legs == [] then i == |steps| && last == mail
    else
      && i < |steps| && legs[0].mail == mail
      && if |legs| == 1 && Returns(own, steps[i], mail, last, legs[0].forked) then true
         else exists next :: && GoesOn(own, steps[i], mail, next, legs[0].forked)
                             && Journey(own, steps, i + 1, next, legs[1..], last)
  }

  function ForkedOn(legs: seq<Leg>): seq<Mail> {
    if legs == [] then [] else legs[0].forked + ForkedOn(legs[1..])
  }

  function VisitsOn(steps: seq<Step>, i: nat, legs: seq<Leg>): seq<Visit>
    requires i + |legs| <= |steps|
    decreases |legs|
  {
    if legs == [] then [] else VisitsAt(steps[i], i, legs[0].mail) + VisitsOn(steps, i + 1, legs[1..])
  }

  lemma {:induction false} JourneyOfPass(own: MailState, steps: seq<Step>, i: nat, mail: Mail) returns (legs: seq<Leg>)
    requires i <= |steps| && ProcessFrom(own, steps, i, mail).Finished?
    ensures Journey(own, steps, i, mail, legs, ProcessFrom(own, steps, i, mail).mail)
    decreases |steps| - i
  {
    hide TakeTurn, GoesOn, Returns;
    if i == |steps| {
      legs := [];
    } else {
      var turn := TakeTurn(own, steps[i], i, mail);
      TurnIsItsCalls(own, steps[i], i, mail, turn.mail, turn.forked);
      if turn.ends {
        legs := [Leg(mail, turn.forked)];
      } else {
        var rest := JourneyOfPass(own, steps, i + 1, turn.mail);
        legs := [Leg(mail, turn.forked)] + rest;
        assert legs[1..] == rest;
      }
    }
  }

  lemma {:induction false} PassOfJourney(
    own: MailState, steps: seq<Step>, i: nat, mail: Mail, legs: seq<Leg>, last: Mail)
    requires i <= |steps| && Journey(own, steps, i, mail, legs, last)
    ensures i + |legs| <= |steps|
    ensures ProcessFrom(own, steps, i, mail) == Finished(last, ForkedOn(legs), VisitsOn(steps, i, legs))
    decreases |legs|
  {
    hide TakeTurn, GoesOn, Returns, VisitsAt;
    if legs != [] {
      var forked := legs[0].forked;
      if |legs| == 1 && Returns(own, steps[i], mail, last, forked) {
        TurnIsItsCalls(own, steps[i], i, mail, last, forked);
      } else {
        var next :| && GoesOn(own, steps[i], mail, next, forked)
                    && Journey(own, steps, i + 1, next, legs[1..], last);
        TurnIsItsCalls(own, steps[i], i, mail, next, forked);
        PassOfJourney(own, steps, i + 1, next, legs[1..], last);
      }
    }
  }

  /** A pass finishes with a mail, the forked mails and the visits exactly when there is a journey
      that ends with that mail, forks those off and makes those visits. */
  lemma PassIsJourney(own: MailState, steps: seq<Step>, i: nat, mail: Mail, r: Processed)
    requires i <= |steps| && r.Finished?
    ensures ProcessFrom(own, steps, i, mail) == r
       <==> exists legs :: && i + |legs| <= |steps| && Journey(own, steps, i, mail, legs, r.mail)
                           && r == Finished(r.mail, ForkedOn(legs), VisitsOn(steps, i, legs))
  {
    hide Journey, ProcessFrom, ForkedOn, VisitsOn;
    if ProcessFrom(own, steps, i, mail) == r {
      var legs := JourneyOfPass(own, steps, i, mail);
      PassOfJourney(own, steps, i, mail, legs, r.mail);
    }
    forall legs | && i + |legs| <= |steps| && Journey(own, steps, i, mail, legs, r.mail)
                  && r == Finished(r.mail, ForkedOn(legs), VisitsOn(steps, i, legs))
      ensures ProcessFrom(own, steps, i, mail) == r
    {
      PassOfJourney(own, steps, i, mail, legs, r.mail);
    }
  }

  // ---- The early exit -----------------------------------------------------------------------

  /** A mailet that succeeds for everybody and leaves another state ends the pass: it returns exactly
      that mail, and no later step is visited. */
  lemma ChangedStateEndsPass(own: MailState, steps: seq<Step>, i: nat, mail: Mail, after: Mail)
    requires i < |steps| && MatchesAll(steps[i], mail) && Succeeds(steps[i], mail, after) && after.state != own
    ensures ProcessFrom(own, steps, i, mail) == Finished(after, [], [Visit(i, mail.recipients)])
  {
    hide TakeTurn, Succeeds;
    TurnIsItsCalls(own, steps[i], i, mail, after, []);
  }

  /** Conversely the next step gets the mail exactly when the state is the processor's, or the
      mailet failed and was skipped, whatever state it then left. */
  lemma OtherwiseNextStepGetsMail(own: MailState, steps: seq<Step>, i: nat, mail: Mail, after: Mail)
    requires i < |steps| && MatchesAll(steps[i], mail)
    requires (Succeeds(steps[i], mail, after) && after.state == own) || Skips(steps[i], mail, after)
    ensures ProcessFrom(own, steps, i, mail)
            == After([], [Visit(i, mail.recipients)], ProcessFrom(own, steps, i + 1, after))
  {
    hide TakeTurn, Succeeds, Skips;
    TurnIsItsCalls(own, steps[i], i, mail, after, []);
  }

  /** A step that matches nobody calls nothing. */
  lemma UnmatchedMailPassesBy(own: MailState, steps: seq<Step>, i: nat, mail: Mail)
    requires i < |steps| && MatchesNobody(steps[i], mail)
    ensures ProcessFrom(own, steps, i, mail) == ProcessFrom(own, steps, i + 1, mail)
  {
    var rest := ProcessFrom(own, steps, i + 1, mail);
    if rest.Finished? {
      assert [] + rest.forked == rest.forked && [] + rest.visits == rest.visits;
    }
  }

  /** The matcher fails, or the mailet gives up on what it is called for. */
  ghost predicate Fails(step: Step, mail: Mail) {
    || step.matcher(mail).Err?
    || (MatchesAll(step, mail) && GivesUp(step, mail))
    || (exists half, rest :: Halves(step, mail, half, rest) && GivesUp(step, half))
  }

  lemma TurnFailsIff(own: MailState, step: Step, i: nat, mail: Mail)
    ensures TakeTurn(own, step, i, mail).Broken? <==> Fails(step, mail)
  {
    hide Invoke, GivesUp, Unmatched;
    InvocationIsItsCalls(step, mail, mail);
    if MatchesSome(step, mail) {
      var (half, rest) := Split(mail, step.matcher(mail).value);
      assert Halves(step, mail, half, rest);
      InvocationIsItsCalls(step, half, half);
    }
  }

  /** A pass fails exactly when the step it has reached fails, or the mail goes on and fails later. */
  lemma PassFailsIff(own: MailState, steps: seq<Step>, i: nat, mail: Mail)
    requires i <= |steps|
    ensures ProcessFrom(own, steps, i, mail).Failed?
       <==> && i < |steps|
            && (|| Fails(steps[i], mail)
                || exists next, forked :: && GoesOn(own, steps[i], mail, next, forked)
                                          && ProcessFrom(own, steps, i + 1, next).Failed?)
  {
    hide TakeTurn, GoesOn, Fails;
    if i < |steps| {
      TurnFailsIff(own, steps[i], i, mail);
      var turn := TakeTurn(own, steps[i], i, mail);
      forall next, forked
        ensures GoesOn(own, steps[i], mail, next, forked)
           <==> turn.Turn? && turn.mail == next && turn.forked == forked && !turn.ends
      {
        TurnIsItsCalls(own, steps[i], i, mail, next, forked);
      }
      if turn.Turn? {
        assert GoesOn(own, steps[i], mail, turn.mail, turn.forked) <==> !turn.ends;
      }
    }
  }

  /** Two mailets for everybody, of which the first leaves another state: the second is not called. */
  lemma SecondMailetIsNotCalled(own: MailState, first: Step, second: Step, mail: Mail, after: Mail)
    requires MatchesAll(first, mail) && Succeeds(first, mail, after) && after.state != own
    ensures var pass := ProcessPass(Processor(own, [first, second]), mail);
            && pass == Finished(after, [], [Visit(0, mail.recipients)])
            && forall v :: v in pass.visits ==> v.step != 1
  {
    hide Succeeds;
    ChangedStateEndsPass(own, [first, second], 0, mail, after);
  }
}
