/** The matchers that come with the server: everyone, nobody, tests of the mail or of each recipient,
    and their combinations. They meet what the pipeline's conservation results ask of matchers. */
module Matchers {
  import opened Wrappers
  import opened Pipeline

  datatype Matcher =
    | Everyone
    | Nobody
    | Passing(test: (Mail, Address) -> bool)
    | And(parts: seq<Matcher>)
    | Or(parts: seq<Matcher>)
    | Not(part: Matcher)

  function Keep(recipients: seq<Address>, mail: Mail, test: (Mail, Address) -> bool): seq<Address> {
    if recipients == [] then []
    else
      var front, last := recipients[..|recipients| - 1], recipients[|recipients| - 1];
      Keep(front, mail, test) + (if test(mail, last) then [last] else [])
  }

  /** Keeps what is also in `matched`. */
  function Among(result: seq<Address>, matched: seq<Address>): seq<Address> {
    if result == [] then []
    else
      var front, last := result[..|result| - 1], result[|result| - 1];
      Among(front, matched) + (if last in matched then [last] else [])
  }

  /** Appends what is not there yet. */
  function Merged(result: seq<Address>, matched: seq<Address>): seq<Address> {
    if matched == [] then result
    else
      var front, last := matched[..|matched| - 1], matched[|matched| - 1];
      var r := Merged(result, front);
      if last in r then r else r + [last]
  }

  function Match(m: Matcher, mail: Mail): seq<Address>
    decreases m
  {
    match m
    case Everyone => mail.recipients
    case Nobody => []
    case Passing(test) => Keep(mail.recipients, mail, test)
    case And(parts) => if parts == [] then [] else Intersected(parts, mail, mail.recipients)
    case Or(parts) => United(parts, mail, [])
    case Not(part) => Unmatched(mail.recipients, Match(part, mail))
  }

  /** The intersection stops early once nobody is left, which changes nothing. */
  function Intersected(parts: seq<Matcher>, mail: Mail, result: seq<Address>): seq<Address>
    decreases parts
  {
    if parts == [] || result == [] then result
    else Intersected(parts[1..], mail, Among(result, Match(parts[0], mail)))
  }

  function United(parts: seq<Matcher>, mail: Mail, result: seq<Address>): seq<Address>
    decreases parts
  {
    if parts == [] then result else United(parts[1..], mail, Merged(result, Match(parts[0], mail)))
  }

  /** The matchers as they run: an intersection that stops early, a union that skips repetitions. */
  method MatchMail(m: Matcher, mail: Mail) returns (matched: seq<Address>)
    ensures matched == Match(m, mail)
    decreases m
  {
    match m
    case Everyone => matched := mail.recipients;
    case Nobody => matched := [];
    case Passing(test) => matched := Keep(mail.recipients, mail, test);
    case Not(part) =>
      var inner := MatchMail(part, mail);
      matched := Unmatched(mail.recipients, inner);
    case And(parts) =>
      if parts == [] {
        return [];
      }
      matched := mail.recipients;
      for i := 0 to |parts|
        invariant Intersected(parts, mail, mail.recipients) == Intersected(parts[i..], mail, matched)
      {
        hide Match;
        var inner := MatchMail(parts[i], mail);
        assert parts[i..][1..] == parts[i + 1..];
        matched := Among(matched, inner);
        if matched == [] {
          break;
        }
      }
    case Or(parts) =>
      matched := [];
      for i := 0 to |parts|
        invariant United(parts, mail, []) == United(parts[i..], mail, matched)
      {
        hide Match;
        var inner := MatchMail(parts[i], mail);
        matched := Merge(matched, inner);
        assert parts[i..][1..] == parts[i + 1..];
      }
  }

  /** Appends each address that is not there yet. */
  method Merge(before: seq<Address>, matched: seq<Address>) returns (result: seq<Address>)
    ensures result == Merged(before, matched)
  {
    result := before;
    for j := 0 to |matched|
      invariant result == Merged(before, matched[..j])
    {
      assert matched[..j + 1] == matched[..j] + [matched[j]];
      if matched[j] !in result {
        result := result + [matched[j]];
      }
    }
    assert matched[..|matched|] == matched;
  }

  // ---- The order of the answers -----------------------------------------------------------

  lemma {:induction false} KeepAppend(a: seq<Address>, b: seq<Address>, mail: Mail, test: (Mail, Address) -> bool)
    ensures Keep(a + b, mail, test) == Keep(a, mail, test) + Keep(b, mail, test)
  {
    if b == [] {
      assert a + b == a;
    } else {
      var front, last := b[..|b| - 1], b[|b| - 1];
      KeepAppend(a, front, mail, test);
      assert (a + b)[..|a + b| - 1] == a + front;
    }
  }

  lemma {:induction false} AmongAppend(a: seq<Address>, b: seq<Address>, matched: seq<Address>)
    ensures Among(a + b, matched) == Among(a, matched) + Among(b, matched)
  {
    if b == [] {
      assert a + b == a;
    } else {
      var front, last := b[..|b| - 1], b[|b| - 1];
      AmongAppend(a, front, matched);
      assert (a + b)[..|a + b| - 1] == a + front;
    }
  }

  /** A union grows at its end: one list after the other, each address when it first occurs. */
  lemma {:induction false} MergedAppend(result: seq<Address>, a: seq<Address>, b: seq<Address>)
    ensures Merged(result, a + b) == Merged(Merged(result, a), b)
    ensures result <= Merged(result, b)
  {
    if b == [] {
      assert a + b == a;
    } else {
      var front, last := b[..|b| - 1], b[|b| - 1];
      MergedAppend(result, a, front);
      assert (a + b)[..|a + b| - 1] == a + front;
    }
  }

  /** The pieces of those laws: single addresses. */
  lemma SingleAddresses(a: Address, mail: Mail, test: (Mail, Address) -> bool, others: seq<Address>)
    ensures Keep([a], mail, test) == if test(mail, a) then [a] else []
    ensures Among([a], others) == if a in others then [a] else []
    ensures Merged(others, [a]) == if a in others then others else others + [a]
    ensures Unmatched([a], others) == if a in others then [] else [a]
  {
    assert [a][..0] == [];
  }

  // ---- What a matcher means for one address ----------------------------------------------

  /** Everyone, nobody, whoever passes, whom all parts match (of at least one), whom some part
      matches, whom the part does not match: always among the recipients. */
  predicate Means(m: Matcher, mail: Mail, a: Address)
    decreases m
  {
    match m
    case Everyone => a in mail.recipients
    case Nobody => false
    case Passing(test) => a in mail.recipients && test(mail, a)
    case And(parts) =>
      a in mail.recipients && parts != [] && forall i :: 0 <= i < |parts| ==> Means(parts[i], mail, a)
    case Or(parts) => exists i :: 0 <= i < |parts| && Means(parts[i], mail, a)
    case Not(part) => a in mail.recipients && !Means(part, mail, a)
  }

  lemma {:induction false} KeepMeans(recipients: seq<Address>, mail: Mail, test: (Mail, Address) -> bool, a: Address)
    ensures a in Keep(recipients, mail, test) <==> a in recipients && test(mail, a)
  {
    if recipients != [] {
      var front, last := recipients[..|recipients| - 1], recipients[|recipients| - 1];
      assert recipients == front + [last];
      KeepMeans(front, mail, test, a);
    }
  }

  lemma {:induction false} AmongMeans(result: seq<Address>, matched: seq<Address>, a: Address)
    ensures a in Among(result, matched) <==> a in result && a in matched
  {
    if result != [] {
      var front, last := result[..|result| - 1], result[|result| - 1];
      assert result == front + [last];
      AmongMeans(front, matched, a);
    }
  }

  lemma {:induction false} MergedMeans(result: seq<Address>, matched: seq<Address>, a: Address)
    ensures a in Merged(result, matched) <==> a in result || a in matched
  {
    if matched != [] {
      var front, last := matched[..|matched| - 1], matched[|matched| - 1];
      assert matched == front + [last];
      MergedMeans(result, front, a);
    }
  }

  ghost predicate PartsMean(parts: seq<Matcher>, mail: Mail, a: Address) {
    forall i :: 0 <= i < |parts| ==> (a in Match(parts[i], mail) <==> Means(parts[i], mail, a))
  }

  lemma {:induction false} IntersectedMeans(parts: seq<Matcher>, mail: Mail, result: seq<Address>, a: Address)
    requires PartsMean(parts, mail, a)
    ensures a in Intersected(parts, mail, result)
       <==> a in result && forall i :: 0 <= i < |parts| ==> Means(parts[i], mail, a)
    decreases parts
  {
    if parts != [] && result != [] {
      hide Match, Means;
      AmongMeans(result, Match(parts[0], mail), a);
      assert forall i :: 0 <= i < |parts[1..]| ==> parts[1..][i] == parts[i + 1];
      assert forall i :: 1 <= i < |parts| ==> parts[i] == parts[1..][i - 1];
      IntersectedMeans(parts[1..], mail, Among(result, Match(parts[0], mail)), a);
    }
  }

  lemma {:induction false} UnitedMeans(parts: seq<Matcher>, mail: Mail, result: seq<Address>, a: Address)
    requires PartsMean(parts, mail, a)
    ensures a in United(parts, mail, result)
       <==> a in result || exists i :: 0 <= i < |parts| && Means(parts[i], mail, a)
    decreases parts
  {
    if parts != [] {
      hide Match, Means;
      MergedMeans(result, Match(parts[0], mail), a);
      assert forall i :: 0 <= i < |parts[1..]| ==> parts[1..][i] == parts[i + 1];
      assert forall i :: 1 <= i < |parts| ==> parts[i] == parts[1..][i - 1];
      UnitedMeans(parts[1..], mail, Merged(result, Match(parts[0], mail)), a);
    }
  }

  /** Whatever it is built from, a matcher answers with exactly the addresses it means. */
  lemma {:induction false} MatchMeans(m: Matcher, mail: Mail, a: Address)
    ensures a in Match(m, mail) <==> Means(m, mail, a)
    decreases m
  {
    match m
    case Passing(test) => KeepMeans(mail.recipients, mail, test, a);
    case And(parts) =>
      forall i | 0 <= i < |parts| ensures a in Match(parts[i], mail) <==> Means(parts[i], mail, a) {
        MatchMeans(parts[i], mail, a);
      }
      IntersectedMeans(parts, mail, mail.recipients, a);
    case Or(parts) =>
      forall i | 0 <= i < |parts| ensures a in Match(parts[i], mail) <==> Means(parts[i], mail, a) {
        MatchMeans(parts[i], mail, a);
      }
      UnitedMeans(parts, mail, [], a);
    case Not(part) => MatchMeans(part, mail, a);
    case _ =>
  }

  // ---- Filters keep whole groups -------------------------------------------------------

  /** Each address has all its copies or none. */
  ghost predicate Filters(matched: seq<Address>, recipients: seq<Address>) {
    forall a :: multiset(matched)[a] == multiset(recipients)[a] || multiset(matched)[a] == 0
  }

  lemma FiltersAreWhole(matched: seq<Address>, recipients: seq<Address>)
    requires Filters(matched, recipients)
    ensures Selects(matched, recipients) && Whole(matched, recipients)
  {
    forall a | a in matched ensures multiset(matched)[a] == multiset(recipients)[a] {
      assert multiset(matched)[a] > 0;
    }
  }

  lemma {:induction false} CountKept(recipients: seq<Address>, mail: Mail, test: (Mail, Address) -> bool, a: Address)
    ensures multiset(Keep(recipients, mail, test))[a] == if test(mail, a) then multiset(recipients)[a] else 0
  {
    if recipients != [] {
      var front, last := recipients[..|recipients| - 1], recipients[|recipients| - 1];
      assert recipients == front + [last];
      CountKept(front, mail, test, a);
    }
  }

  lemma {:induction false} CountAmong(result: seq<Address>, matched: seq<Address>, a: Address)
    ensures multiset(Among(result, matched))[a] == if a in matched then multiset(result)[a] else 0
  {
    if result != [] {
      var front, last := result[..|result| - 1], result[|result| - 1];
      assert result == front + [last];
      CountAmong(front, matched, a);
    }
  }

  lemma {:induction false} IntersectedFilters(parts: seq<Matcher>, mail: Mail, result: seq<Address>)
    requires Filters(result, mail.recipients)
    ensures Filters(Intersected(parts, mail, result), mail.recipients)
    decreases parts
  {
    if parts != [] && result != [] {
      hide Match;
      var fewer := Among(result, Match(parts[0], mail));
      forall a ensures multiset(fewer)[a] == multiset(mail.recipients)[a] || multiset(fewer)[a] == 0 {
        CountAmong(result, Match(parts[0], mail), a);
      }
      IntersectedFilters(parts[1..], mail, fewer);
    }
  }

  /** Every matcher but a union is a filter of the recipients, whatever it is built from. */
  lemma MatchFilters(m: Matcher, mail: Mail)
    requires !m.Or?
    ensures Filters(Match(m, mail), mail.recipients)
  {
    var matched := Match(m, mail);
    match m
    case Passing(test) =>
      forall a ensures multiset(matched)[a] == multiset(mail.recipients)[a] || multiset(matched)[a] == 0 {
        CountKept(mail.recipients, mail, test, a);
      }
    case And(parts) => IntersectedFilters(parts, mail, mail.recipients);
    case Not(part) =>
      forall a ensures multiset(matched)[a] == multiset(mail.recipients)[a] || multiset(matched)[a] == 0 {
        CountUnmatched(mail.recipients, Match(part, mail), a);
      }
    case _ =>
  }

  // ---- Unions list every address once ---------------------------------------------------

  lemma {:induction false} MergedIsDistinct(result: seq<Address>, matched: seq<Address>)
    requires Distinct(result)
    ensures Distinct(Merged(result, matched))
    ensures forall a :: a in Merged(result, matched) <==> a in result || a in matched
  {
    if matched != [] {
      var front, last := matched[..|matched| - 1], matched[|matched| - 1];
      assert matched == front + [last];
      MergedIsDistinct(result, front);
      var r := Merged(result, front);
      if last !in r {
        assert forall k :: 0 <= k < |r| ==> r[k] in r;
      }
    }
  }

  /** Some matcher of the list matches the address. */
  ghost predicate MatchedBySome(parts: seq<Matcher>, mail: Mail, a: Address) {
    exists i :: 0 <= i < |parts| && a in Match(parts[i], mail)
  }

  lemma {:induction false} UnitedIsDistinct(parts: seq<Matcher>, mail: Mail, result: seq<Address>)
    requires Distinct(result)
    ensures Distinct(United(parts, mail, result))
    ensures forall a :: a in United(parts, mail, result) <==> a in result || MatchedBySome(parts, mail, a)
    decreases parts
  {
    if parts != [] {
      hide Match, Merged, Distinct;
      var more := Merged(result, Match(parts[0], mail));
      MergedIsDistinct(result, Match(parts[0], mail));
      UnitedIsDistinct(parts[1..], mail, more);
      forall a
        ensures MatchedBySome(parts, mail, a) <==> a in Match(parts[0], mail) || MatchedBySome(parts[1..], mail, a)
      {
        assert forall i :: 1 <= i < |parts| ==> parts[i] == parts[1..][i - 1];
        if MatchedBySome(parts[1..], mail, a) {
          var i :| 0 <= i < |parts[1..]| && a in Match(parts[1..][i], mail);
          assert a in Match(parts[i + 1], mail);
        }
      }
    }
  }

  /** No matcher answers with an address more often than the mail has it. */
  lemma {:induction false} MatchSelects(m: Matcher, mail: Mail)
    ensures Selects(Match(m, mail), mail.recipients)
    decreases m
  {
    if m.Or? {
      forall i | 0 <= i < |m.parts| ensures Selects(Match(m.parts[i], mail), mail.recipients) {
        MatchSelects(m.parts[i], mail);
      }
      assert Distinct([]);
      UnitedIsDistinct(m.parts, mail, []);
      var matched := Match(m, mail);
      DistinctCounts(matched);
      hide Match, Distinct, United;
      forall a ensures multiset(matched)[a] <= multiset(mail.recipients)[a] {
        if a in matched {
          var i :| 0 <= i < |m.parts| && a in Match(m.parts[i], mail);
          assert multiset(Match(m.parts[i], mail))[a] > 0;
        }
      }
    } else {
      MatchFilters(m, mail);
      FiltersAreWhole(Match(m, mail), mail.recipients);
    }
  }

  /** A union matches whole groups exactly when the mail has none of its addresses twice. */
  lemma UnionIsWholeIff(parts: seq<Matcher>, mail: Mail)
    ensures var matched := Match(Or(parts), mail);
            Whole(matched, mail.recipients) <==> forall a :: a in matched ==> multiset(mail.recipients)[a] == 1
  {
    assert Distinct([]);
    UnitedIsDistinct(parts, mail, []);
    var matched := Match(Or(parts), mail);
    DistinctCounts(matched);
    hide Match, Distinct;
    assert forall a :: a in matched ==> multiset(matched)[a] > 0;
  }

  // ---- Steps with these matchers ----------------------------------------------------------

  function StepOf(m: Matcher, mailet: (Mail, nat) -> Served, policy: Policy): Step {
    Step((mail: Mail) => Ok(Match(m, mail)), mailet, policy)
  }

  /** They meet the hypothesis of the conservation results, and all but unions the stronger one. */
  lemma ServerMatchersQualify(m: Matcher, mailet: (Mail, nat) -> Served, policy: Policy)
    ensures SelectsRecipients(StepOf(m, mailet, policy))
    ensures !m.Or? ==> forall mail: Mail :: ForksWhole(StepOf(m, mailet, policy), mail)
  {
    var step := StepOf(m, mailet, policy);
    hide Match;
    forall mail: Mail ensures Selects(step.matcher(mail).value, mail.recipients) {
      MatchSelects(m, mail);
    }
    if !m.Or? {
      forall mail: Mail ensures ForksWhole(step, mail) {
        MatchFilters(m, mail);
        FiltersAreWhole(Match(m, mail), mail.recipients);
      }
    }
  }

  /** The failing case: a mail to one address twice, and a union of everyone. One copy is serviced,
      the other is lost, and a mail to nobody goes on. */
  lemma UnionLosesACopy(a: Address, mail: Mail, mailet: (Mail, nat) -> Served, policy: Policy)
    requires mail.recipients == [a, a]
    requires KeepsRecipients(StepOf(Or([Everyone]), mailet, policy))
    ensures var step := StepOf(Or([Everyone]), mailet, policy);
            var pass := ProcessFrom(mail.state, [step], 0, mail);
            && !ForksWhole(step, mail)
            && (pass.Finished? ==> pass.mail.recipients == [] && !Conserves(mail, pass.mail, pass.forked))
  {
    var step := StepOf(Or([Everyone]), mailet, policy);
    OneOfTwo(a, mail);
    ServerMatchersQualify(Or([Everyone]), mailet, policy);
    TornFork(step, a, mail);
  }

  lemma OneOfTwo(a: Address, mail: Mail)
    requires mail.recipients == [a, a]
    ensures Match(Or([Everyone]), mail) == [a] && Unmatched([a, a], [a]) == []
  {
    assert [a, a][..1] == [a] && [a][..0] == [];
    assert Merged([], [a]) == [] + [a];
    assert Merged([], [a, a]) == [a];
    var rest: seq<Matcher> := [Everyone][1..];
    assert rest == [] && United(rest, mail, [a]) == [a];
    assert Unmatched([a], [a]) == [] + [];
    assert Unmatched([a, a], [a]) == [] + [];
  }

  lemma TornFork(step: Step, a: Address, mail: Mail)
    requires mail.recipients == [a, a] && step.matcher(mail) == Ok([a]) && Unmatched([a, a], [a]) == []
    requires SelectsRecipients(step) && KeepsRecipients(step)
    ensures var pass := ProcessFrom(mail.state, [step], 0, mail);
            && !ForksWhole(step, mail)
            && (pass.Finished? ==> pass.mail.recipients == [] && !Conserves(mail, pass.mail, pass.forked))
  {
    hide Invoke, Unmatched, SelectsRecipients, KeepsRecipients, Conserves, OnlyLoses;
    assert multiset([a])[a] == 1 && multiset([a, a])[a] == 2 && a in [a];
    assert !ForksWhole(step, mail);
    var pass := ProcessFrom(mail.state, [step], 0, mail);
    if pass.Finished? {
      RecipientsArePartitionedIff(mail.state, [step], 0, mail);
      var turn := TakeTurn(mail.state, step, 0, mail);
      assert turn.mail.recipients == [] && !turn.ends;
      assert ProcessFrom(mail.state, [step], 1, turn.mail).mail == turn.mail;
    }
  }
}
