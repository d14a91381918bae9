/** Mailbox name patterns of LIST and LSUB: `*` stands for any text, `%` for any text without the
    hierarchy delimiter (section 6.3.8 of RFC 3501). */
module MailboxPattern {
  const DELIMITER: char := '/'

  // ---- Meaning: one segment of the name per pattern character --------------

  /** What a single pattern character may stand for. */
  predicate StandsFor(p: char, segment: string) {
    if p == '*' then true
    else if p == '%' then DELIMITER !in segment
    else segment == [p]
  }

  function Concat(segments: seq<string>): string {
    if segments == [] then "" else segments[0] + Concat(segments[1..])
  }

  /** `segments` cuts `name` into one piece per character of `pattern`, each allowed by it. */
  ghost predicate Cuts(segments: seq<string>, name: string, pattern: string) {
    && |segments| == |pattern|
    && Concat(segments) == name
    && forall i :: 0 <= i < |pattern| ==> StandsFor(pattern[i], segments[i])
  }

  ghost predicate Matches(name: string, pattern: string) {
    exists segments :: Cuts(segments, name, pattern)
  }

  // ---- Laws of the meaning --------------------------------------------------

  lemma EmptyPattern(name: string)
    ensures Matches(name, "") <==> name == ""
  {
    if name == "" {
      assert Cuts([], name, "");
    }
  }

  lemma {:induction false} ConcatOfAppend(a: seq<string>, b: seq<string>)
    ensures Concat(a + b) == Concat(a) + Concat(b)
  {
    if a == [] {
      assert a + b == b;
    } else {
      ConcatOfAppend(a[1..], b);
      assert (a + b)[1..] == a[1..] + b;
    }
  }

  lemma CutsOfAppend(s: seq<string>, n: string, p: string, t: seq<string>, m: string, q: string)
    requires Cuts(s, n, p) && Cuts(t, m, q)
    ensures Cuts(s + t, n + m, p + q)
  {
    ConcatOfAppend(s, t);
  }

  /** Splits a cut of `name` for `p + q` after the pieces that belong to `p`. */
  lemma CutsApart(segments: seq<string>, name: string, p: string, q: string) returns (k: nat)
    requires Cuts(segments, name, p + q)
    ensures k <= |name| && Cuts(segments[..|p|], name[..k], p) && Cuts(segments[|p|..], name[k..], q)
  {
    var s, t := segments[..|p|], segments[|p|..];
    ConcatOfAppend(s, t);
    assert segments == s + t;
    k := |Concat(s)|;
    assert forall i :: 0 <= i < |p| ==> p[i] == (p + q)[i];
    assert forall i :: 0 <= i < |q| ==> q[i] == (p + q)[|p| + i] && t[i] == segments[|p| + i];
  }

  /** Matching distributes over the concatenation of patterns. */
  lemma MatchesAppend(name: string, p: string, q: string)
    ensures Matches(name, p + q) <==> exists k :: 0 <= k <= |name| && Matches(name[..k], p) && Matches(name[k..], q)
  {
    if Matches(name, p + q) {
      var segments :| Cuts(segments, name, p + q);
      var k := CutsApart(segments, name, p, q);
    }
    if k :| 0 <= k <= |name| && Matches(name[..k], p) && Matches(name[k..], q) {
      var s :| Cuts(s, name[..k], p);
      var t :| Cuts(t, name[k..], q);
      CutsOfAppend(s, name[..k], p, t, name[k..], q);
      assert name[..k] + name[k..] == name;
    }
  }

  lemma MatchesChar(name: string, p: char)
    ensures Matches(name, [p]) <==> StandsFor(p, name)
  {
    if Matches(name, [p]) {
      var s :| Cuts(s, name, [p]);
      assert Concat(s) == s[0] + Concat(s[1..]) == s[0];
    }
    if StandsFor(p, name) {
      assert Concat([name]) == name + Concat([]) == name;
      assert Cuts([name], name, [p]);
    }
  }

  /** The first pattern character takes a prefix of the name, the rest of the pattern the rest. */
  lemma MatchesCons(name: string, pattern: string)
    requires pattern != ""
    ensures Matches(name, pattern)
       <==> exists k :: 0 <= k <= |name| && StandsFor(pattern[0], name[..k]) && Matches(name[k..], pattern[1..])
  {
    assert pattern == [pattern[0]] + pattern[1..];
    MatchesAppend(name, [pattern[0]], pattern[1..]);
    forall k | 0 <= k <= |name|
      ensures Matches(name[..k], [pattern[0]]) <==> StandsFor(pattern[0], name[..k])
    {
      MatchesChar(name[..k], pattern[0]);
    }
  }

  /** Two patterns with the same meaning. */
  ghost predicate Equivalent(p: string, q: string) {
    forall name: string :: Matches(name, p) <==> Matches(name, q)
  }

  lemma {:induction false} EquivalentInContext(before: string, p: string, q: string, after: string)
    requires Equivalent(p, q)
    ensures Equivalent(before + p + after, before + q + after)
  {
    forall name: string
      ensures Matches(name, before + p + after) <==> Matches(name, before + q + after)
    {
      MatchesAppend(name, before + p, after);
      MatchesAppend(name, before + q, after);
      forall k | 0 <= k <= |name|
        ensures Matches(name[..k], before + p) <==> Matches(name[..k], before + q)
      {
        MatchesAppend(name[..k], before, p);
        MatchesAppend(name[..k], before, q);
      }
    }
  }

  /** A second wildcard adds nothing, anywhere in a pattern. */
  lemma WildcardsAbsorb(before: string, after: string)
    ensures Equivalent(before + "**" + after, before + "*" + after)
    ensures Equivalent(before + "*%" + after, before + "*" + after)
    ensures Equivalent(before + "%*" + after, before + "*" + after)
    ensures Equivalent(before + "%%" + after, before + "%" + after)
  {
    AbsorbsInto('*', '*', '*');
    AbsorbsInto('*', '%', '*');
    AbsorbsInto('%', '*', '*');
    AbsorbsInto('%', '%', '%');
    EquivalentInContext(before, "**", "*", after);
    EquivalentInContext(before, "*%", "*", after);
    EquivalentInContext(before, "%*", "*", after);
    EquivalentInContext(before, "%%", "%", after);
  }

  lemma AbsorbsInto(a: char, b: char, c: char)
    requires a in "*%" && b in "*%"
    requires c == if a == '*' || b == '*' then '*' else '%'
    ensures Equivalent([a, b], [c])
  {
    forall name: string
      ensures Matches(name, [a, b]) <==> Matches(name, [c])
    {
      MatchesChar(name, c);
      MatchesCons(name, [a, b]);
      assert [a, b][1..] == [b];
      forall k | 0 <= k <= |name|
        ensures Matches(name[k..], [a, b][1..]) <==> StandsFor(b, name[k..])
        ensures StandsFor('%', name) <==> StandsFor('%', name[..k]) && StandsFor('%', name[k..])
      {
        MatchesChar(name[k..], b);
        assert name == name[..k] + name[k..];
      }
      // Give the whole name to the `*`, or to the first `%` when there is none.
      var k := if a == '*' || b == '%' then |name| else 0;
      assert name[..|name|] == name && name[|name|..] == "" && name[..0] == "" && name[0..] == name;
      assert StandsFor(c, name) ==> StandsFor(a, name[..k]) && StandsFor(b, name[k..]);
    }
  }

  /** Without wildcards a pattern matches itself only. */
  lemma {:induction false} LiteralPattern(name: string, pattern: string)
    requires '*' !in pattern && '%' !in pattern
    ensures Matches(name, pattern) <==> name == pattern
  {
    if pattern == "" {
      EmptyPattern(name);
    } else {
      MatchesCons(name, pattern);
      forall k | 0 <= k <= |name|
        ensures Matches(name[k..], pattern[1..]) <==> name[k..] == pattern[1..]
      {
        LiteralPattern(name[k..], pattern[1..]);
      }
      if name == pattern {
        assert StandsFor(pattern[0], name[..1]);
      }
      if k :| 0 <= k <= |name| && StandsFor(pattern[0], name[..k]) && name[k..] == pattern[1..] {
        assert name == name[..k] + name[k..];
      }
    }
  }

  // ---- The matcher ----------------------------------------------------------

  /** The backtracking matcher: a loop over literal characters, recursion at each wildcard. */
  method MatchMailboxPattern(name: string, pattern: string) returns (r: bool)
    ensures r <==> Matches(name, pattern)
    decreases |pattern|
  {
    if pattern == "*" {
      MatchesChar(name, '*');
      return true;
    }
    var restPattern, restName := pattern, name;
    while true
      invariant |restPattern| <= |pattern|
      invariant Matches(name, pattern) <==> Matches(restName, restPattern)
      decreases |restPattern|
    {
      if restPattern == "" {
        EmptyPattern(restName);
        return restName == "";
      }
      MatchesCons(restName, restPattern);
      if restPattern[0] == '*' || restPattern[0] == '%' {
        r := MatchAfterWildcard(restName, restPattern);
        return;
      }
      if restName == "" || restPattern[0] != restName[0] {
        return false;
      }
      LiteralStep(restName, restPattern);
      restPattern, restName := restPattern[1..], restName[1..];
    }
  }

  lemma LiteralStep(name: string, pattern: string)
    requires pattern != "" && name != "" && pattern[0] == name[0] && pattern[0] !in "*%"
    ensures Matches(name, pattern) <==> Matches(name[1..], pattern[1..])
  {
    MatchesCons(name, pattern);
    assert StandsFor(pattern[0], name[..1]);
    assert forall k :: 0 <= k <= |name| && StandsFor(pattern[0], name[..k]) ==> k == 1;
  }

  /** Tries every length for the text that a leading wildcard stands for. */
  method MatchAfterWildcard(name: string, pattern: string) returns (r: bool)
    requires pattern != "" && (pattern[0] == '*' || pattern[0] == '%')
    ensures r <==> Matches(name, pattern)
    decreases |pattern|, 0
  {
    MatchesCons(name, pattern);
    var rest := pattern[1..];
    if rest == "" {
      assert pattern == [pattern[0]];
      MatchesChar(name, pattern[0]);
      return pattern[0] == '*' || DELIMITER !in name;
    }
    var i := 0;
    while i <= |name|
      invariant 0 <= i <= |name| + 1
      invariant forall k :: 0 <= k < i ==> !(StandsFor(pattern[0], name[..k]) && Matches(name[k..], rest))
    {
      if pattern[0] == '*' || DELIMITER !in name[..i] {
        var found := MatchMailboxPattern(name[i..], rest);
        if found {
          return true;
        }
      }
      i := i + 1;
    }
    return false;
  }

  /** The three kinds of pattern characters; with `MatchesAppend` they determine every pattern. */
  lemma SingleCharacters(name: string, c: char)
    ensures Matches(name, "*")
    ensures Matches(name, "%") <==> '/' !in name
    ensures c != '*' && c != '%' ==> (Matches(name, [c]) <==> name == [c])
  {
    MatchesChar(name, '*');
    MatchesChar(name, '%');
    MatchesChar(name, c);
  }

  // ---- LSUB -----------------------------------------------------------------

  ghost function Selected(names: seq<string>, pattern: string): seq<string> {
    if names == [] then []
    else
      var last := names[|names| - 1];
      Selected(names[..|names| - 1], pattern) + (if Matches(last, pattern) then [last] else [])
  }

  /** Each subscription is kept or dropped by itself, and the order stays. */
  lemma {:induction false} SelectedAppend(a: seq<string>, b: seq<string>, pattern: string)
    ensures Selected(a + b, pattern) == Selected(a, pattern) + Selected(b, pattern)
  {
    if b == [] {
      assert a + b == a;
    } else {
      var front, last := b[..|b| - 1], b[|b| - 1];
      SelectedAppend(a, front, pattern);
      assert (a + b)[..|a + b| - 1] == a + front;
    }
  }

  lemma SelectedSingle(name: string, pattern: string)
    ensures Selected([name], pattern) == if Matches(name, pattern) then [name] else []
  {
    assert [name][..0] == [];
  }

  /** The three-way test of LSUB keeps exactly the subscriptions that the pattern matches, in
      the order the store lists them. */
  method FilterSubscriptions(subscriptions: seq<string>, pattern: string) returns (listed: seq<string>)
    ensures listed == Selected(subscriptions, pattern)
  {
    listed := [];
    for i := 0 to |subscriptions|
      invariant listed == Selected(subscriptions[..i], pattern)
    {
      var name := subscriptions[i];
      var matches;
      if pattern == "*" {
        MatchesChar(name, '*');
        matches := true;
      } else if '*' in pattern || '%' in pattern {
        matches := MatchMailboxPattern(name, pattern);
      } else {
        LiteralPattern(name, pattern);
        matches := name == pattern;
      }
      if matches {
        listed := listed + [name];
      }
      assert subscriptions[..i + 1][..i] == subscriptions[..i];
    }
    assert subscriptions[..|subscriptions|] == subscriptions;
  }
}
