/** The verdicts of the gate in front of every login, against the history of checks. */
module LoginGate {
  import opened Wrappers
  import opened Timestamps
  import opened AuthSecurity
  import Limiter = AuthRateLimiter

  ghost function VerdictOf(cfg: Settings, before: seq<Op>, check: Op): Verdict
    requires check.Check?
  {
    CheckAttempt(cfg, After(cfg, before), check.user, check.ip, check.now).1
  }

  /** The times of the checks from `ip` that were not refused for their number. */
  ghost function Admitted(cfg: Settings, ops: seq<Op>, ip: Ip): seq<nat> {
    if ops == [] then []
    else
      var front, last := ops[..|ops| - 1], ops[|ops| - 1];
      if last.Check? && last.ip == Some(ip) && VerdictOf(cfg, front, last) != RateLimited then
        Admitted(cfg, front, ip) + [last.now]
      else Admitted(cfg, front, ip)
  }

  /** The clock never goes back and is past one window of the request limit since its epoch. */
  ghost predicate Clocked(cfg: Settings, ops: seq<Op>) {
    && (forall i, j :: 0 <= i <= j < |ops| ==> ops[i].now <= ops[j].now)
    && (forall i :: 0 <= i < |ops| ==> cfg.rateLimit.windowSecs <= ops[i].now)
  }

  // ---- The requests that the limiter sees --------------------------------------------------

  ghost function Requests(ops: seq<Op>): seq<Limiter.Op> {
    if ops == [] then []
    else
      var front, last := ops[..|ops| - 1], ops[|ops| - 1];
      Requests(front) + (if last.Check? && last.ip.Some? then [Limiter.Request(last.ip.value, last.now)] else [])
  }

  lemma {:induction false} LimiterFollows(cfg: Settings, ops: seq<Op>)
    ensures After(cfg, ops).requests == Limiter.After(cfg.rateLimit, Requests(ops))
  {
    if ops != [] {
      hide Limiter.Check, RecordFailure, IsLocked;
      var front, last := ops[..|ops| - 1], ops[|ops| - 1];
      LimiterFollows(cfg, front);
      var more := Requests(ops);
      if last.Check? && last.ip.Some? {
        assert more[..|more| - 1] == Requests(front);
      } else {
        assert more == Requests(front);
      }
    }
  }

  lemma VerdictIsTheLimiters(cfg: Settings, before: seq<Op>, check: Op)
    requires check.Check? && check.ip.Some?
    ensures VerdictOf(cfg, before, check) != RateLimited
       <==> Limiter.Check(cfg.rateLimit, Limiter.After(cfg.rateLimit, Requests(before)), check.ip.value, check.now).1
  {
    LimiterFollows(cfg, before);
    hide After, Limiter.After, Limiter.Check, IsLocked;
  }

  lemma AdmittedSnoc(cfg: Limiter.Config, before: seq<Limiter.Op>, request: Limiter.Op, ip: Ip)
    requires request.Request?
    ensures Limiter.Admitted(cfg, before + [request], ip)
            == if request.ip == ip && Limiter.Check(cfg, Limiter.After(cfg, before), ip, request.now).1
               then Limiter.Admitted(cfg, before, ip) + [request.now]
               else Limiter.Admitted(cfg, before, ip)
  {
    hide Limiter.After, Limiter.Check;
    assert (before + [request])[..|before|] == before;
  }

  lemma {:induction false} AdmittedFollows(cfg: Settings, ops: seq<Op>, ip: Ip)
    ensures Admitted(cfg, ops, ip) == Limiter.Admitted(cfg.rateLimit, Requests(ops), ip)
  {
    if ops != [] {
      hide VerdictOf, Limiter.Check, Limiter.After, Limiter.Admitted;
      var front, last := ops[..|ops| - 1], ops[|ops| - 1];
      AdmittedFollows(cfg, front, ip);
      if last.Check? && last.ip.Some? {
        VerdictIsTheLimiters(cfg, front, last);
        AdmittedSnoc(cfg.rateLimit, Requests(front), Limiter.Request(last.ip.value, last.now), ip);
      } else {
        assert Requests(ops) == Requests(front);
      }
    } else {
      assert Requests(ops) == [];
    }
  }

  lemma {:induction false} RequestsAreClocked(cfg: Settings, ops: seq<Op>)
    requires Clocked(cfg, ops)
    ensures Limiter.Timed(cfg.rateLimit, Requests(ops))
    ensures ops != [] ==> forall i :: 0 <= i < |Requests(ops)| ==> Requests(ops)[i].now <= ops[|ops| - 1].now
  {
    if ops != [] {
      RequestsAreClocked(cfg, ops[..|ops| - 1]);
    }
  }

  lemma RequestsSnoc(ops: seq<Op>, check: Op)
    requires check.Check? && check.ip.Some?
    ensures Requests(ops + [check]) == Requests(ops) + [Limiter.Request(check.ip.value, check.now)]
  {
    assert (ops + [check])[..|ops|] == ops;
  }

  // ---- The verdicts ------------------------------------------------------------------------

  /** A check is refused for its number exactly when it names an address from which as many checks as
      the maximum were admitted in the window that ends now. */
  lemma RateLimitedIff(cfg: Settings, ops: seq<Op>, check: Op)
    requires check.Check? && Clocked(cfg, ops + [check])
    ensures VerdictOf(cfg, ops, check) == RateLimited
       <==> && check.ip.Some?
            && cfg.rateLimit.maxRequests
               <= CountIn(Admitted(cfg, ops, check.ip.value), check.now - cfg.rateLimit.windowSecs, check.now)
  {
    hide *;
    if check.ip.Some? {
      var ip := check.ip.value;
      RequestsAreClocked(cfg, ops + [check]);
      AdmittedFollows(cfg, ops, ip);
      VerdictIsTheLimiters(cfg, ops, check);
      RequestsSnoc(ops, check);
      Limiter.AdmitsIffFewerThanMaximum(cfg.rateLimit, Requests(ops), ip, check.now);
    } else {
      WithoutAddressUnlimited(cfg, ops, check);
    }
  }

  lemma WithoutAddressUnlimited(cfg: Settings, before: seq<Op>, check: Op)
    requires check.Check? && check.ip.None?
    ensures VerdictOf(cfg, before, check) != RateLimited
  {
    hide After, IsLocked;
  }

  /** A check that is not refused for its number is refused for the lock of its address, then for
      that of its user, with the time that is left of it; and otherwise allowed. */
  lemma OtherVerdictsIff(cfg: Settings, ops: seq<Op>, check: Op)
    requires check.Check?
    ensures var verdict, s := VerdictOf(cfg, ops, check), After(cfg, ops);
            var ipLocked := check.ip.Some? && IsLocked(s.ips, check.ip.value, check.now);
            var userLocked := IsLocked(s.users, check.user, check.now);
            && (verdict == IpLocked <==> verdict != RateLimited && ipLocked)
            && (verdict.UserLocked? <==> verdict != RateLimited && !ipLocked && userLocked)
            && (verdict.UserLocked? ==> check.now + verdict.remaining == UnlockTime(s.users.locked[check.user]))
            && (verdict == Allowed <==> verdict != RateLimited && !ipLocked && !userLocked)
  {
    hide After, Limiter.Check, UnlockTime;
  }

  /** A check changes neither attempts nor lockouts, of users and of addresses. */
  lemma ChecksAreHarmless(cfg: Settings, ops: seq<Op>, check: Op)
    requires check.Check?
    ensures var s, s1 := After(cfg, ops), After(cfg, ops + [check]); s1.users == s.users && s1.ips == s.ips
  {
    hide Limiter.Check, IsLocked;
    AfterSnoc(cfg, ops, check);
    hide After;
  }
}
