/** The mailet pipeline: a processor runs its steps over a mail, forking it where a matcher selects
    only some recipients; the router moves mail between processors by its state. */
module Pipeline {
  import opened Wrappers

  type Address = string

  datatype MailState = Root | Transport | LocalDelivery | Error | Ghost | Custom(name: string)

  /** `content` stands for everything a mailet may change besides state and recipients. */
  datatype Mail = Mail(state: MailState, recipients: seq<Address>, content: nat)

  datatype MailetAction = Continue | ChangeState(target: MailState) | Drop | Defer(millis: nat)

  datatype MailetError = Timeout | ServiceError

  datatype Policy = Skip | Abort | Retry(max: nat)

  /** What one service call leaves: the mail, possibly changed even by a failing call. */
  datatype Served = Served(mail: Mail, outcome: Result<MailetAction, MailetError>)

  /** Matchers and mailets are arbitrary functions; a mailet also sees how often it was called in
      this invocation, so that repeated calls may behave differently. */
  datatype Step = Step(
    matcher: Mail -> Result<seq<Address>, MailetError>,
    mailet: (Mail, nat) -> Served,
    policy: Policy)

  // ---- One mailet, with its error policy --------------------------------------

  datatype Invocation = Invocation(mail: Mail, result: Result<Option<MailetAction>, MailetError>)

  function Invoke(step: Step, mail: Mail): Invocation {
    match step.policy
    case Skip =>
      var s := step.mailet(mail, 0);
      Invocation(s.mail, if s.outcome.Ok? then Ok(Some(s.outcome.value)) else Ok(None))
    case Abort =>
      var s := step.mailet(mail, 0);
      Invocation(s.mail, if s.outcome.Ok? then Ok(Some(s.outcome.value)) else Err(s.outcome.error))
    case Retry(max) => RetryFrom(step, mail, 0, max)
  }

  function RetryFrom(step: Step, mail: Mail, attempts: nat, max: nat): Invocation
    decreases if attempts <= max then max + 1 - attempts else 0
  {
    var s := step.mailet(mail, attempts);
    if s.outcome.Ok? then Invocation(s.mail, Ok(Some(s.outcome.value)))
    else if attempts + 1 > max then Invocation(s.mail, Err(s.outcome.error))
    else RetryFrom(step, s.mail, attempts + 1, max)
  }

  /** The n-th service call (from 0) if every call before it failed. */
  function Call(step: Step, mail: Mail, n: nat): Served {
    if n == 0 then step.mailet(mail, 0) else step.mailet(Call(step, mail, n - 1).mail, n)
  }

  /** Invokes a mailet; under `Retry` it is called again after each failure, at most `max` times. */
  method InvokeWithPolicy(step: Step, mail: Mail) returns (r: Invocation)
    ensures r == Invoke(step, mail)
  {
    match step.policy
    case Skip =>
      var s := step.mailet(mail, 0);
      return Invocation(s.mail, if s.outcome.Ok? then Ok(Some(s.outcome.value)) else Ok(None));
    case Abort =>
      var s := step.mailet(mail, 0);
      return Invocation(s.mail, if s.outcome.Ok? then Ok(Some(s.outcome.value)) else Err(s.outcome.error));
    case Retry(max) =>
      var attempts, current := 0, mail;
      while true
        invariant attempts <= max
        invariant Invoke(step, mail) == RetryFrom(step, current, attempts, max)
        decreases max + 1 - attempts
      {
        var s := step.mailet(current, attempts);
        if s.outcome.Ok? {
          return Invocation(s.mail, Ok(Some(s.outcome.value)));
        }
        attempts, current := attempts + 1, s.mail;
        if attempts > max {
          return Invocation(s.mail, Err(s.outcome.error));
        }
      }
  }

  lemma {:induction false} RetryIsCalls(step: Step, mail: Mail, attempts: nat, max: nat)
    returns (k: nat)
    requires attempts <= max
    requires forall i :: 0 <= i < attempts ==> Call(step, mail, i).outcome.Err?
    ensures k <= max && forall i :: 0 <= i < k ==> Call(step, mail, i).outcome.Err?
    ensures var before := if attempts == 0 then mail else Call(step, mail, attempts - 1).mail;
            var r := RetryFrom(step, before, attempts, max);
            var last := Call(step, mail, k);
            && r.mail == last.mail
            && (if last.outcome.Ok? then r.result == Ok(Some(last.outcome.value))
                else k == max && r.result == Err(last.outcome.error))
    decreases max - attempts
  {
    var call := Call(step, mail, attempts);
    if call.outcome.Ok? || attempts == max {
      k := attempts;
    } else {
      k := RetryIsCalls(step, mail, attempts + 1, max);
    }
  }

  /** A retried mailet stops at its first success; it fails exactly when the first call and all
      `max` repetitions fail. */
  lemma RetryStopsAtFirstSuccess(step: Step, mail: Mail)
    requires step.policy.Retry?
    ensures Invoke(step, mail).result.Err?
       <==> forall i :: 0 <= i <= step.policy.max ==> Call(step, mail, i).outcome.Err?
    ensures Invoke(step, mail).result.Ok? ==>
              exists k :: && 0 <= k <= step.policy.max
                          && (forall i :: 0 <= i < k ==> Call(step, mail, i).outcome.Err?)
                          && Call(step, mail, k).outcome.Ok?
                          && Invoke(step, mail).mail == Call(step, mail, k).mail
  {
    var k := RetryIsCalls(step, mail, 0, step.policy.max);
  }

  // ---- Forking -----------------------------------------------------------------

  /** The recipients that are not among `matched`, in their order. */
  function Unmatched(recipients: seq<Address>, matched: seq<Address>): (r: seq<Address>)
    ensures forall a :: a in r <==> a in recipients && a !in matched
  {
    if recipients == [] then []
    else
      var front, last := recipients[..|recipients| - 1], recipients[|recipients| - 1];
      assert recipients == front + [last];
      Unmatched(front, matched) + (if last in matched then [] else [last])
  }

  /** They keep their order: each recipient is looked at by itself. */
  lemma {:induction false} UnmatchedAppend(a: seq<Address>, b: seq<Address>, matched: seq<Address>)
    ensures Unmatched(a + b, matched) == Unmatched(a, matched) + Unmatched(b, matched)
  {
    hide Unmatched;
    if b == [] {
      assert a + b == a;
      NobodyIsUnmatched(matched);
      assert Unmatched(a, matched) + [] == Unmatched(a, matched);
    } else {
      var front, last := b[..|b| - 1], b[|b| - 1];
      UnmatchedAppend(a, front, matched);
      UnmatchedSnoc(a + front, last, matched);
      UnmatchedSnoc(front, last, matched);
      assert a + b == (a + front) + [last] && b == front + [last];
    }
  }

  lemma NobodyIsUnmatched(matched: seq<Address>)
    ensures Unmatched([], matched) == []
  {
  }

  lemma UnmatchedSnoc(recipients: seq<Address>, last: Address, matched: seq<Address>)
    ensures Unmatched(recipients + [last], matched)
            == Unmatched(recipients, matched) + (if last in matched then [] else [last])
  {
    assert (recipients + [last])[..|recipients|] == recipients;
  }

  function Split(mail: Mail, matched: seq<Address>): (Mail, Mail) {
    (mail.(recipients := matched), mail.(recipients := Unmatched(mail.recipients, matched)))
  }

  // ---- A processor -----------------------------------------------------------------

  /** A step's mailet was invoked on a mail with these recipients. */
  datatype Visit = Visit(step: nat, recipients: seq<Address>)

  datatype Processed =
    | Failed
    | Finished(mail: Mail, forked: seq<Mail>, visits: seq<Visit>)

  function After(forked: seq<Mail>, visits: seq<Visit>, rest: Processed): Processed {
    if rest.Failed? then Failed
    else Finished(rest.mail, forked + rest.forked, visits + rest.visits)
  }

  /** What one step does to the mail: `ends` says that the pass returns right after it. */
  datatype Turn =
    | Broken
    | Turn(mail: Mail, forked: seq<Mail>, visits: seq<Visit>, ends: bool)

  /** Step `i`. `own` is the processor's own state: the pass ends early when the mail that goes on
      has another one, except right after a skipped mailet. */
  function TakeTurn(own: MailState, step: Step, i: nat, mail: Mail): Turn {
    var matched := step.matcher(mail);
    if matched.Err? then Broken
    else if matched.value == [] then Turn(mail, [], [], false)
    else if |matched.value| < |mail.recipients| then
      var (half, rest) := Split(mail, matched.value);
      var inv := Invoke(step, half);
      if inv.result.Err? then Broken
      else Turn(rest, [inv.mail], [Visit(i, half.recipients)], rest.state != own)
    else
      var inv := Invoke(step, mail);
      if inv.result.Err? then Broken
      else Turn(inv.mail, [], [Visit(i, mail.recipients)], inv.result.value.Some? && inv.mail.state != own)
  }

  /** The pass from step `i` on. */
  function ProcessFrom(own: MailState, steps: seq<Step>, i: nat, mail: Mail): Processed
    requires i <= |steps|
    decreases |steps| - i
  {
    if i == |steps| then Finished(mail, [], [])
    else
      match TakeTurn(own, steps[i], i, mail)
      case Broken => Failed
      case Turn(m, forked, visits, ends) =>
        After(forked, visits, if ends then Finished(m, [], []) else ProcessFrom(own, steps, i + 1, m))
  }

  datatype Processor = Processor(state: MailState, steps: seq<Step>)

  function ProcessPass(p: Processor, mail: Mail): Processed {
    ProcessFrom(p.state, p.steps, 0, mail)
  }

  /** The result of a pass whose step `i` has just taken `turn`. */
  function Continued(
    own: MailState, steps: seq<Step>, i: nat, forked: seq<Mail>, visits: seq<Visit>, turn: Turn): Processed
    requires i < |steps|
  {
    match turn
    case Broken => Failed
    case Turn(m, f, v, ends) =>
      After(forked + f, visits + v, if ends then Finished(m, [], []) else ProcessFrom(own, steps, i + 1, m))
  }

  /** What has been done so far, then one more turn, then the rest. */
  lemma PassTakesTurn(own: MailState, steps: seq<Step>, i: nat, mail: Mail, forked: seq<Mail>, visits: seq<Visit>)
    requires i < |steps|
    ensures After(forked, visits, ProcessFrom(own, steps, i, mail))
            == Continued(own, steps, i, forked, visits, TakeTurn(own, steps[i], i, mail))
  {
    hide TakeTurn;
    var turn := TakeTurn(own, steps[i], i, mail);
    if turn.Turn? {
      var rest := if turn.ends then Finished(turn.mail, [], []) else ProcessFrom(own, steps, i + 1, turn.mail);
      if rest.Finished? {
        assert forked + (turn.forked + rest.forked) == (forked + turn.forked) + rest.forked;
        assert visits + (turn.visits + rest.visits) == (visits + turn.visits) + rest.visits;
      }
    }
  }

  /** The loop over the steps. The mail that goes on is the unmatched half of a fork; the matched
      half is serviced and then left. */
  method Process(p: Processor, mail: Mail) returns (r: Option<Mail>)
    ensures var pass := ProcessPass(p, mail);
            r == if pass.Failed? then None else Some(pass.mail)
  {
    var current := mail;
    ghost var forked, visits := [], [];
    var i := 0;
    PassBegins(p, mail);
    while i < |p.steps|
      invariant i <= |p.steps|
      invariant ProcessPass(p, mail) == After(forked, visits, ProcessFrom(p.state, p.steps, i, current))
    {
      hide Invoke, ProcessFrom, ProcessPass, After, Unmatched;
      var step := p.steps[i];
      PassTakesTurn(p.state, p.steps, i, current, forked, visits);
      ghost var turn := TakeTurn(p.state, step, i, current);
      if turn.Turn? {
        forked, visits := forked + turn.forked, visits + turn.visits;
      }
      AfterKeepsMail(forked, visits, Finished(if turn.Turn? then turn.mail else current, [], []));
      i := i + 1;
      var matched := step.matcher(current);
      if matched.Err? {
        return None;
      }
      if matched.value == [] {
        continue;
      }
      if |matched.value| < |current.recipients| {
        var (half, rest) := Split(current, matched.value);
        var inv := InvokeWithPolicy(step, half);
        if inv.result.Err? {
          return None;
        }
        current := rest;
      } else {
        var inv := InvokeWithPolicy(step, current);
        if inv.result.Err? {
          return None;
        }
        current := inv.mail;
        if inv.result.value.None? {
          continue;
        }
      }
      if current.state != p.state {
        return Some(current);
      }
    }
    return Some(current);
  }

  lemma PassBegins(p: Processor, mail: Mail)
    ensures ProcessPass(p, mail) == After([], [], ProcessFrom(p.state, p.steps, 0, mail))
  {
    hide ProcessFrom;
    var rest := ProcessFrom(p.state, p.steps, 0, mail);
    if rest.Finished? {
      assert [] + rest.forked == rest.forked && [] + rest.visits == rest.visits;
    }
  }

  lemma AfterKeepsMail(forked: seq<Mail>, visits: seq<Visit>, rest: Processed)
    requires rest.Finished?
    ensures After(forked, visits, rest).Finished? && After(forked, visits, rest).mail == rest.mail
  {
  }

  // ---- Recipients are conserved -------------------------------------------------------

  /** A matcher answers with recipients of the mail, none more often than the mail has it. */
  ghost predicate SelectsRecipients(step: Step) {
    forall mail: Mail :: step.matcher(mail).Ok? ==> Selects(step.matcher(mail).value, mail.recipients)
  }

  ghost predicate Selects(matched: seq<Address>, recipients: seq<Address>) {
    forall a :: multiset(matched)[a] <= multiset(recipients)[a]
  }

  /** An address that is matched is matched with all its copies. */
  ghost predicate Whole(matched: seq<Address>, recipients: seq<Address>) {
    forall a :: a in matched ==> multiset(matched)[a] == multiset(recipients)[a]
  }

  ghost predicate KeepsRecipients(step: Step) {
    forall mail: Mail, n: nat :: step.mailet(mail, n).mail.recipients == mail.recipients
  }

  ghost predicate WellBehaved(steps: seq<Step>) {
    forall i :: 0 <= i < |steps| ==> SelectsRecipients(steps[i]) && KeepsRecipients(steps[i])
  }

  ghost function AllRecipients(mails: seq<Mail>): multiset<Address> {
    if mails == [] then multiset{} else multiset(mails[0].recipients) + AllRecipients(mails[1..])
  }

  lemma {:induction false} RetryKeepsRecipients(step: Step, mail: Mail, attempts: nat, max: nat)
    requires KeepsRecipients(step)
    ensures RetryFrom(step, mail, attempts, max).mail.recipients == mail.recipients
    decreases if attempts <= max then max + 1 - attempts else 0
  {
    var s := step.mailet(mail, attempts);
    if s.outcome.Err? && attempts + 1 <= max {
      RetryKeepsRecipients(step, s.mail, attempts + 1, max);
    }
  }

  lemma InvokeKeepsRecipients(step: Step, mail: Mail)
    requires KeepsRecipients(step)
    ensures Invoke(step, mail).mail.recipients == mail.recipients
  {
    if step.policy.Retry? {
      RetryKeepsRecipients(step, mail, 0, step.policy.max);
    }
  }

  lemma {:induction false} CountUnmatched(recipients: seq<Address>, matched: seq<Address>, a: Address)
    ensures multiset(Unmatched(recipients, matched))[a] == if a in matched then 0 else multiset(recipients)[a]
  {
    if recipients != [] {
      var front, last := recipients[..|recipients| - 1], recipients[|recipients| - 1];
      assert recipients == front + [last];
      CountUnmatched(front, matched, a);
    }
  }

  /** A fork cuts the recipients into two groups that make up the whole exactly when it matches
      addresses with all their copies; otherwise some copies are lost. */
  lemma ForkPartitionsIff(recipients: seq<Address>, matched: seq<Address>)
    requires Selects(matched, recipients)
    ensures var parts := multiset(matched) + multiset(Unmatched(recipients, matched));
            parts <= multiset(recipients) && (parts == multiset(recipients) <==> Whole(matched, recipients))
  {
    var whole, parts := multiset(recipients), multiset(matched) + multiset(Unmatched(recipients, matched));
    forall a ensures parts[a] == if a in matched then multiset(matched)[a] else whole[a] {
      CountUnmatched(recipients, matched, a);
    }
    if Whole(matched, recipients) {
      assert forall a :: parts[a] == whole[a];
    } else {
      var a :| a in matched && multiset(matched)[a] != whole[a];
      assert parts[a] != whole[a];
    }
  }

  lemma TailOfAppend<T>(a: seq<T>, b: seq<T>)
    requires a != []
    ensures a + b != [] && (a + b)[0] == a[0] && (a + b)[1..] == a[1..] + b
  {
  }

  lemma Regroup<T>(x: multiset<T>, y: multiset<T>, z: multiset<T>)
    ensures (x + y) + z == x + (y + z)
  {
  }

  lemma {:induction false} AllRecipientsAppend(a: seq<Mail>, b: seq<Mail>)
    ensures AllRecipients(a + b) == AllRecipients(a) + AllRecipients(b)
  {
    if a == [] {
      assert a + b == b;
    } else {
      AllRecipientsAppend(a[1..], b);
      TailOfAppend(a, b);
      Regroup(multiset(a[0].recipients), AllRecipients(a[1..]), AllRecipients(b));
    }
  }

  /** The recipients of `after` and of the forked mails together. */
  ghost function Together(after: Mail, forked: seq<Mail>): multiset<Address> {
    multiset(after.recipients) + AllRecipients(forked)
  }

  /** From `before`, nobody is lost and nobody is duplicated. */
  ghost predicate Conserves(before: Mail, after: Mail, forked: seq<Mail>) {
    multiset(before.recipients) == Together(after, forked)
  }

  /** Nobody is duplicated, and nobody is forked off empty. */
  ghost predicate OnlyLoses(before: Mail, after: Mail, forked: seq<Mail>) {
    && Together(after, forked) <= multiset(before.recipients)
    && forall m :: m in forked ==> m.recipients != []
  }

  lemma LossesAdd<T>(a: multiset<T>, b: multiset<T>, c: multiset<T>, f: multiset<T>, g: multiset<T>)
    requires b + f <= a && c + g <= b
    ensures c + (f + g) <= a && (a == c + (f + g) <==> a == b + f && b == c + g)
  {
    assert forall x :: (b + f)[x] == b[x] + f[x] && (c + g)[x] == c[x] + g[x] && (c + (f + g))[x] == c[x] + f[x] + g[x];
    if a == c + (f + g) {
      assert forall x :: a[x] == c[x] + f[x] + g[x] && b[x] + f[x] <= a[x] && c[x] + g[x] <= b[x];
      assert forall x :: a[x] == (b + f)[x] && b[x] == (c + g)[x];
    }
  }

  /** What is lost in two stages is lost in one of them. */
  lemma LossesCompose(a: Mail, b: Mail, c: Mail, forked: seq<Mail>, more: seq<Mail>)
    requires OnlyLoses(a, b, forked) && OnlyLoses(b, c, more)
    ensures OnlyLoses(a, c, forked + more)
    ensures Conserves(a, c, forked + more) <==> Conserves(a, b, forked) && Conserves(b, c, more)
  {
    hide AllRecipients;
    AllRecipientsAppend(forked, more);
    LossesAdd(multiset(a.recipients), multiset(b.recipients), multiset(c.recipients),
              AllRecipients(forked), AllRecipients(more));
  }

  lemma NothingForked(mail: Mail, same: Mail)
    requires mail.recipients == same.recipients
    ensures OnlyLoses(mail, same, []) && Conserves(mail, same, [])
  {
  }

  /** If the step forks this mail, it matches whole groups. */
  ghost predicate ForksWhole(step: Step, mail: Mail) {
    var matched := step.matcher(mail);
    matched.Ok? && |matched.value| < |mail.recipients| ==> Whole(matched.value, mail.recipients)
  }

  lemma ForkLoses(mail: Mail, rest: Mail, serviced: Mail)
    requires Selects(serviced.recipients, mail.recipients) && serviced.recipients != []
    requires rest.recipients == Unmatched(mail.recipients, serviced.recipients)
    ensures OnlyLoses(mail, rest, [serviced])
    ensures Conserves(mail, rest, [serviced]) <==> Whole(serviced.recipients, mail.recipients)
  {
    ForkPartitionsIff(mail.recipients, serviced.recipients);
    hide Selects, Unmatched, Whole;
    assert [serviced][1..] == [];
    assert AllRecipients([serviced]) == multiset(serviced.recipients);
    Swap(multiset(serviced.recipients), multiset(rest.recipients));
  }

  lemma Swap<T>(x: multiset<T>, y: multiset<T>)
    ensures x + y == y + x
  {
  }

  lemma TurnLoses(own: MailState, step: Step, i: nat, mail: Mail)
    requires SelectsRecipients(step) && KeepsRecipients(step)
    ensures var turn := TakeTurn(own, step, i, mail);
            turn.Turn? ==>
              && OnlyLoses(mail, turn.mail, turn.forked)
              && (Conserves(mail, turn.mail, turn.forked) <==> ForksWhole(step, mail))
  {
    if TakeTurn(own, step, i, mail).Turn? {
      hide Invoke, SelectsRecipients, KeepsRecipients, Selects, OnlyLoses, Conserves, Unmatched;
      var matched := step.matcher(mail).value;
      if matched == [] {
        NothingForked(mail, mail);
      } else if |matched| < |mail.recipients| {
        hide Whole;
        MatcherSelects(step, mail);
        var (half, rest) := Split(mail, matched);
        InvokeKeepsRecipients(step, half);
        ForkLoses(mail, rest, Invoke(step, half).mail);
      } else {
        InvokeKeepsRecipients(step, mail);
        NothingForked(mail, Invoke(step, mail).mail);
      }
    }
  }

  lemma MatcherSelects(step: Step, mail: Mail)
    requires SelectsRecipients(step) && step.matcher(mail).Ok?
    ensures Selects(step.matcher(mail).value, mail.recipients)
  {
  }

  /** Every fork of the pass matches whole groups. */
  ghost predicate PassForksWhole(own: MailState, steps: seq<Step>, i: nat, mail: Mail)
    requires i <= |steps|
    decreases |steps| - i
  {
    i < |steps| ==>
      && ForksWhole(steps[i], mail)
      && var turn := TakeTurn(own, steps[i], i, mail);
         turn.Turn? && !turn.ends ==> PassForksWhole(own, steps, i + 1, turn.mail)
  }

  /** The original recipients are the disjoint union of those returned and those forked off exactly
      when no fork tears the copies of an address apart. In any case nobody is duplicated, and
      nobody is forked off empty. */
  lemma {:induction false} RecipientsArePartitionedIff(own: MailState, steps: seq<Step>, i: nat, mail: Mail)
    requires i <= |steps| && WellBehaved(steps) && ProcessFrom(own, steps, i, mail).Finished?
    ensures var pass := ProcessFrom(own, steps, i, mail);
            && OnlyLoses(mail, pass.mail, pass.forked)
            && (Conserves(mail, pass.mail, pass.forked) <==> PassForksWhole(own, steps, i, mail))
    decreases |steps| - i
  {
    if i == |steps| {
      NothingForked(mail, mail);
    } else {
      TurnLoses(own, steps[i], i, mail);
      var turn := TakeTurn(own, steps[i], i, mail);
      hide TakeTurn, OnlyLoses, Conserves, ForksWhole;
      if turn.ends {
        assert turn.forked + [] == turn.forked;
      } else {
        RecipientsArePartitionedIff(own, steps, i + 1, turn.mail);
        var rest := ProcessFrom(own, steps, i + 1, turn.mail);
        LossesCompose(mail, turn.mail, rest.mail, turn.forked, rest.forked);
      }
    }
  }

  lemma ForkLeavesSomeone(recipients: seq<Address>, matched: seq<Address>)
    requires Selects(matched, recipients) && Whole(matched, recipients) && |matched| < |recipients|
    ensures Unmatched(recipients, matched) != []
  {
    var rest := Unmatched(recipients, matched);
    ForkPartitionsIff(recipients, matched);
    hide Unmatched;
    assert |multiset(recipients)| == |multiset(matched) + multiset(rest)| == |matched| + |rest|;
  }

  /** A pass whose forks are whole returns a mail with recipients if it was given one. */
  lemma {:induction false} NonEmptyStaysNonEmpty(own: MailState, steps: seq<Step>, i: nat, mail: Mail)
    requires i <= |steps| && WellBehaved(steps) && ProcessFrom(own, steps, i, mail).Finished?
    requires PassForksWhole(own, steps, i, mail) && mail.recipients != []
    ensures ProcessFrom(own, steps, i, mail).mail.recipients != []
    decreases |steps| - i
  {
    if i < |steps| {
      TurnLeavesSomeone(own, steps[i], i, mail);
      var turn := TakeTurn(own, steps[i], i, mail);
      hide TakeTurn, ForksWhole;
      if !turn.ends {
        NonEmptyStaysNonEmpty(own, steps, i + 1, turn.mail);
      }
    }
  }

  lemma TurnLeavesSomeone(own: MailState, step: Step, i: nat, mail: Mail)
    requires SelectsRecipients(step) && KeepsRecipients(step) && ForksWhole(step, mail) && mail.recipients != []
    ensures var turn := TakeTurn(own, step, i, mail); turn.Turn? ==> turn.mail.recipients != []
  {
    if TakeTurn(own, step, i, mail).Turn? {
      hide Invoke, SelectsRecipients, KeepsRecipients, Selects, Whole, Unmatched;
      var matched := step.matcher(mail).value;
      MatcherSelects(step, mail);
      InvokeKeepsRecipients(step, mail);
      if matched != [] && |matched| < |mail.recipients| {
        ForkLeavesSomeone(mail.recipients, matched);
      }
    }
  }

  // ---- When forks are whole ---------------------------------------------------------------

  ghost predicate Distinct(s: seq<Address>) {
    forall i, j :: 0 <= i < j < |s| ==> s[i] != s[j]
  }

  lemma {:induction false} DistinctCounts(s: seq<Address>)
    ensures Distinct(s) <==> forall a :: multiset(s)[a] <= 1
  {
    if s != [] {
      var front, last := s[..|s| - 1], s[|s| - 1];
      DistinctCounts(front);
      assert s == front + [last];
      assert multiset(front)[last] > 0 <==> last in front;
      assert forall a :: multiset(s)[a] == multiset(front)[a] + (if a == last then 1 else 0);
      if Distinct(front) && last !in front {
        assert Distinct(s);
      }
      if Distinct(s) {
        assert Distinct(front) && last !in front;
      }
    }
  }

  /** Without repeated recipients every selection is whole, and stays so. */
  lemma {:induction false} DistinctForksAreWhole(own: MailState, steps: seq<Step>, i: nat, mail: Mail)
    requires i <= |steps| && WellBehaved(steps) && Distinct(mail.recipients)
    ensures PassForksWhole(own, steps, i, mail)
    decreases |steps| - i
  {
    if i < |steps| {
      DistinctForkIsWhole(steps[i], mail);
      TurnLoses(own, steps[i], i, mail);
      var turn := TakeTurn(own, steps[i], i, mail);
      hide TakeTurn, ForksWhole;
      if turn.Turn? && !turn.ends {
        FewerAreDistinct(mail, turn.mail, turn.forked);
        DistinctForksAreWhole(own, steps, i + 1, turn.mail);
      }
    }
  }

  lemma DistinctForkIsWhole(step: Step, mail: Mail)
    requires SelectsRecipients(step) && Distinct(mail.recipients)
    ensures ForksWhole(step, mail)
  {
    if step.matcher(mail).Ok? {
      DistinctCounts(mail.recipients);
      MatcherSelects(step, mail);
      hide Distinct, SelectsRecipients;
      var matched := step.matcher(mail).value;
      forall a | a in matched ensures multiset(matched)[a] == multiset(mail.recipients)[a] {
        assert multiset(matched)[a] > 0;
      }
    }
  }

  lemma FewerAreDistinct(before: Mail, after: Mail, forked: seq<Mail>)
    requires OnlyLoses(before, after, forked) && Distinct(before.recipients)
    ensures Distinct(after.recipients)
  {
    DistinctCounts(before.recipients);
    DistinctCounts(after.recipients);
    hide Distinct, AllRecipients;
    assert forall a :: Together(after, forked)[a] == multiset(after.recipients)[a] + AllRecipients(forked)[a];
    assert forall a :: Together(after, forked)[a] <= multiset(before.recipients)[a];
  }

  /** Every matcher of these steps matches whole groups on every mail. */
  ghost predicate MatchesWhole(steps: seq<Step>) {
    forall i, mail: Mail :: 0 <= i < |steps| ==> ForksWhole(steps[i], mail)
  }

  lemma {:induction false} WholeMatchersForkWhole(own: MailState, steps: seq<Step>, i: nat, mail: Mail)
    requires i <= |steps| && MatchesWhole(steps)
    ensures PassForksWhole(own, steps, i, mail)
    decreases |steps| - i
  {
    if i < |steps| {
      hide TakeTurn, ForksWhole;
      assert ForksWhole(steps[i], mail);
      var turn := TakeTurn(own, steps[i], i, mail);
      if turn.Turn? && !turn.ends {
        WholeMatchersForkWhole(own, steps, i + 1, turn.mail);
      }
    }
  }

  /** The partition theorem for mails without repeated recipients, and for matchers that match whole
      groups: nobody is lost, and a mail with recipients is returned with recipients. */
  lemma RecipientsArePartitioned(own: MailState, steps: seq<Step>, i: nat, mail: Mail)
    requires i <= |steps| && WellBehaved(steps) && ProcessFrom(own, steps, i, mail).Finished?
    requires Distinct(mail.recipients) || MatchesWhole(steps)
    ensures var pass := ProcessFrom(own, steps, i, mail);
            && OnlyLoses(mail, pass.mail, pass.forked) && Conserves(mail, pass.mail, pass.forked)
            && (mail.recipients != [] ==> pass.mail.recipients != [])
  {
    hide *;
    if Distinct(mail.recipients) {
      DistinctForksAreWhole(own, steps, i, mail);
    } else {
      WholeMatchersForkWhole(own, steps, i, mail);
    }
    RecipientsArePartitionedIff(own, steps, i, mail);
    if mail.recipients != [] {
      NonEmptyStaysNonEmpty(own, steps, i, mail);
    }
  }

  // ---- Equal service for those that stay together ---------------------------------------

  /** The steps that serviced a mail with recipient `a`, in order. */
  function ServicesOf(visits: seq<Visit>, a: Address): seq<nat> {
    if visits == [] then []
    else if a in visits[0].recipients then [visits[0].step] + ServicesOf(visits[1..], a)
    else ServicesOf(visits[1..], a)
  }

  lemma {:induction false} ServicesOfAppend(v: seq<Visit>, w: seq<Visit>, a: Address)
    ensures ServicesOf(v + w, a) == ServicesOf(v, a) + ServicesOf(w, a)
  {
    if v == [] {
      assert v + w == w;
    } else {
      ServicesOfAppend(v[1..], w, a);
      TailOfAppend(v, w);
    }
  }

  lemma TurnServesAlike(own: MailState, step: Step, i: nat, mail: Mail, a: Address, b: Address)
    requires KeepsRecipients(step)
    requires var turn := TakeTurn(own, step, i, mail);
             turn.Turn? && a in turn.mail.recipients && b in turn.mail.recipients
    ensures a in mail.recipients && b in mail.recipients
    ensures var turn := TakeTurn(own, step, i, mail); ServicesOf(turn.visits, a) == ServicesOf(turn.visits, b)
  {
    hide Invoke, KeepsRecipients;
    InvokeKeepsRecipients(step, mail);
  }

  /** All returned recipients were serviced by the same mailets in the same order. */
  lemma {:induction false} ReturnedRecipientsAreServedAlike(
    own: MailState, steps: seq<Step>, i: nat, mail: Mail, a: Address, b: Address)
    requires i <= |steps| && forall j :: 0 <= j < |steps| ==> KeepsRecipients(steps[j])
    requires var pass := ProcessFrom(own, steps, i, mail);
             pass.Finished? && a in pass.mail.recipients && b in pass.mail.recipients
    ensures a in mail.recipients && b in mail.recipients
    ensures var pass := ProcessFrom(own, steps, i, mail); ServicesOf(pass.visits, a) == ServicesOf(pass.visits, b)
    decreases |steps| - i
  {
    if i < |steps| {
      hide TakeTurn;
      var turn := TakeTurn(own, steps[i], i, mail);
      var rest := if turn.ends then Finished(turn.mail, [], []) else ProcessFrom(own, steps, i + 1, turn.mail);
      if !turn.ends {
        ReturnedRecipientsAreServedAlike(own, steps, i + 1, turn.mail, a, b);
      }
      TurnServesAlike(own, steps[i], i, mail, a, b);
      ServicesOfAppend(turn.visits, rest.visits, a);
      ServicesOfAppend(turn.visits, rest.visits, b);
    }
  }

  // ---- Only the state steers ---------------------------------------------------------------

  /** The step with every returned action replaced by `Continue`. */
  function Erased(step: Step): Step {
    step.(mailet := (mail: Mail, n: nat) =>
      var s := step.mailet(mail, n);
      if s.outcome.Ok? then s.(outcome := Ok(Continue)) else s)
  }

  function ErasedAll(steps: seq<Step>): (r: seq<Step>)
    ensures |r| == |steps| && forall i :: 0 <= i < |steps| ==> r[i] == Erased(steps[i])
  {
    if steps == [] then [] else [Erased(steps[0])] + ErasedAll(steps[1..])
  }

  lemma {:induction false} RetryIgnoresActions(step: Step, mail: Mail, attempts: nat, max: nat)
    ensures var x, y := RetryFrom(step, mail, attempts, max), RetryFrom(Erased(step), mail, attempts, max);
            && x.mail == y.mail && x.result.Err? == y.result.Err?
            && (x.result.Ok? ==> x.result.value.Some? == y.result.value.Some?)
    decreases if attempts <= max then max + 1 - attempts else 0
  {
    var s := step.mailet(mail, attempts);
    if s.outcome.Err? && attempts + 1 <= max {
      RetryIgnoresActions(step, s.mail, attempts + 1, max);
    }
  }

  /** The action a mailet returns has no effect on the pass: only the state it leaves counts. */
  lemma {:induction false} ReturnedActionsAreIgnored(own: MailState, steps: seq<Step>, i: nat, mail: Mail)
    requires i <= |steps|
    ensures ProcessFrom(own, ErasedAll(steps), i, mail) == ProcessFrom(own, steps, i, mail)
    decreases |steps| - i
  {
    if i < |steps| {
      TurnIgnoresActions(own, steps[i], i, mail);
      hide TakeTurn;
      var turn := TakeTurn(own, steps[i], i, mail);
      if turn.Turn? && !turn.ends {
        ReturnedActionsAreIgnored(own, steps, i + 1, turn.mail);
      }
    }
  }

  lemma TurnIgnoresActions(own: MailState, step: Step, i: nat, mail: Mail)
    ensures TakeTurn(own, Erased(step), i, mail) == TakeTurn(own, step, i, mail)
  {
    var matched := step.matcher(mail);
    if matched.Ok? {
      InvokeIgnoresActions(step, Split(mail, matched.value).0);
      InvokeIgnoresActions(step, mail);
    }
  }

  lemma InvokeIgnoresActions(step: Step, mail: Mail)
    ensures var x, y := Invoke(step, mail), Invoke(Erased(step), mail);
            && x.mail == y.mail && x.result.Err? == y.result.Err?
            && (x.result.Ok? ==> x.result.value.Some? == y.result.value.Some?)
  {
    if step.policy.Retry? {
      RetryIgnoresActions(step, mail, 0, step.policy.max);
    }
  }
}
