/** The per-address limiter of authentication attempts: a log of recent request times. */
module AuthRateLimiter {
  import opened Timestamps

  type Ip = nat

  datatype Config = Config(maxRequests: nat, windowSecs: nat)

  type Counts = map<Ip, seq<nat>>

  function LogOf(counts: Counts, ip: Ip): seq<nat> {
    if ip in counts then counts[ip] else []
  }

  /** Prunes the log of `ip`; admits and records the request if the rest leaves room. */
  function Check(cfg: Config, counts: Counts, ip: Ip, now: nat): (Counts, bool) {
    var recent := Retain(LogOf(counts, ip), Cutoff(now, cfg.windowSecs));
    if |recent| >= cfg.maxRequests then (counts[ip := recent], false)
    else (counts[ip := recent + [now]], true)
  }

  class RateLimiter {
    const config: Config
    var requestCounts: Counts

    constructor (config: Config)
      ensures this.config == config && requestCounts == map[]
    {
      this.config := config;
      requestCounts := map[];
    }

    method CheckRateLimit(ip: Ip, now: nat) returns (allowed: bool)
      modifies this
      ensures (requestCounts, allowed) == Check(config, old(requestCounts), ip, now)
    {
      ghost var before := requestCounts;
      var cutoff := Cutoff(now, config.windowSecs);
      if ip !in requestCounts {
        requestCounts := requestCounts[ip := []];
      }
      requestCounts := requestCounts[ip := Retain(requestCounts[ip], cutoff)];
      assert requestCounts == before[ip := Retain(LogOf(before, ip), cutoff)];
      if |requestCounts[ip]| >= config.maxRequests {
        return false;
      }
      requestCounts := requestCounts[ip := requestCounts[ip] + [now]];
      assert requestCounts == before[ip := Retain(LogOf(before, ip), cutoff) + [now]];
      return true;
    }

    method ResetLimit(ip: Ip)
      modifies this
      ensures requestCounts == old(requestCounts) - {ip}
    {
      requestCounts := requestCounts - {ip};
    }
  }

  // ---- Timed runs ------------------------------------------------------------

  datatype Op =
    | Request(ip: Ip, now: nat)
    | Reset(ip: Ip, now: nat)

  function Apply(cfg: Config, counts: Counts, op: Op): (Counts, bool) {
    match op
    case Request(ip, now) => Check(cfg, counts, ip, now)
    case Reset(ip, _) => (counts - {ip}, false)
  }

  /** The limiter after a run that started empty. */
  ghost function After(cfg: Config, ops: seq<Op>): Counts {
    if ops == [] then map[]
    else Apply(cfg, After(cfg, ops[..|ops| - 1]), ops[|ops| - 1]).0
  }

  /** The times of the admitted requests of `ip` since its last reset. */
  ghost function Admitted(cfg: Config, ops: seq<Op>, ip: Ip): seq<nat> {
    if ops == [] then []
    else
      var front, last := ops[..|ops| - 1], ops[|ops| - 1];
      if last.ip != ip then Admitted(cfg, front, ip)
      else if last.Reset? then []
      else if Apply(cfg, After(cfg, front), last).1 then Admitted(cfg, front, ip) + [last.now]
      else Admitted(cfg, front, ip)
  }

  /** The clock never goes back, and is past one window length since its epoch. */
  ghost predicate Timed(cfg: Config, ops: seq<Op>) {
    && (forall i, j :: 0 <= i <= j < |ops| ==> ops[i].now <= ops[j].now)
    && (forall i :: 0 <= i < |ops| ==> cfg.windowSecs <= ops[i].now)
  }

  lemma TimedFront(cfg: Config, ops: seq<Op>)
    requires Timed(cfg, ops) && ops != []
    ensures var front, last := ops[..|ops| - 1], ops[|ops| - 1];
            && Timed(cfg, front) && cfg.windowSecs <= last.now
            && (front != [] ==> front[|front| - 1].now <= last.now)
  {
  }

  lemma {:induction false} LogIsRecentHistory(cfg: Config, ops: seq<Op>, ip: Ip, now: nat)
    requires Timed(cfg, ops) && (ops != [] ==> ops[|ops| - 1].now <= now)
    ensures SameFrom(LogOf(After(cfg, ops), ip), Admitted(cfg, ops, ip), now, cfg.windowSecs)
  {
    hide SameFrom, Timed, Retain;
    if ops == [] {
      EmptyIsSame(now, cfg.windowSecs);
    } else {
      var front, last := ops[..|ops| - 1], ops[|ops| - 1];
      TimedFront(cfg, ops);
      LogIsRecentHistory(cfg, front, ip, last.now);
      if last.ip == ip {
        EmptyIsSame(last.now, cfg.windowSecs);
        PruneKeepsSame(LogOf(After(cfg, front), ip), Admitted(cfg, front, ip), last.now, last.now, cfg.windowSecs);
      }
      SameFromLater(LogOf(After(cfg, ops), ip), Admitted(cfg, ops, ip), last.now, now, cfg.windowSecs);
    }
  }

  /** The limiter is exact: it admits a request at `now` if and only if fewer than the maximum
      were admitted from that address in (now - window, now] since the last reset. */
  lemma AdmitsIffFewerThanMaximum(cfg: Config, ops: seq<Op>, ip: Ip, now: nat)
    requires Timed(cfg, ops + [Request(ip, now)])
    ensures Check(cfg, After(cfg, ops), ip, now).1
       <==> CountIn(Admitted(cfg, ops, ip), now - cfg.windowSecs, now) < cfg.maxRequests
  {
    hide SameFrom, After, Admitted, Retain, CountIn;
    var all := ops + [Request(ip, now)];
    assert all[..|all| - 1] == ops;
    TimedFront(cfg, all);
    LogIsRecentHistory(cfg, ops, ip, now);
    SameMeans(LogOf(After(cfg, ops), ip), Admitted(cfg, ops, ip), now, cfg.windowSecs);
    CountIsRetained(Admitted(cfg, ops, ip), now - cfg.windowSecs, now);
  }

  /** Hence no interval of one window length ever holds more than the maximum. */
  lemma {:induction false} NoWindowExceedsMaximum(cfg: Config, ops: seq<Op>, ip: Ip, t: int)
    requires Timed(cfg, ops)
    ensures CountIn(Admitted(cfg, ops, ip), t - cfg.windowSecs, t) <= cfg.maxRequests
  {
    if ops != [] {
      var front, last := ops[..|ops| - 1], ops[|ops| - 1];
      TimedFront(cfg, ops);
      NoWindowExceedsMaximum(cfg, front, ip, t);
      var history := Admitted(cfg, front, ip);
      if last.ip == ip && Apply(cfg, After(cfg, front), last).1 {
        assert Admitted(cfg, ops, ip) == history + [last.now];
        assert ops == front + [last] && last == Request(ip, last.now);
        AdmissionFits(cfg, front, ip, last.now, t);
      }
    }
  }

  lemma AdmissionFits(cfg: Config, ops: seq<Op>, ip: Ip, now: nat, t: int)
    requires Timed(cfg, ops + [Request(ip, now)]) && Check(cfg, After(cfg, ops), ip, now).1
    requires CountIn(Admitted(cfg, ops, ip), t - cfg.windowSecs, t) <= cfg.maxRequests
    ensures CountIn(Admitted(cfg, ops, ip) + [now], t - cfg.windowSecs, t) <= cfg.maxRequests
  {
    hide SameFrom, After, Admitted, CountIn, Check, Timed;
    var history, w := Admitted(cfg, ops, ip), cfg.windowSecs;
    var all := ops + [Request(ip, now)];
    assert all[..|all| - 1] == ops;
    TimedFront(cfg, all);
    AdmitsIffFewerThanMaximum(cfg, ops, ip, now);
    LogIsRecentHistory(cfg, ops, ip, now);
    SameMeans(LogOf(After(cfg, ops), ip), history, now, w);
    CountSnoc(history, now, t - w, t);
    if now <= t {
      CountCovered(history, t - w, t, now - w, now);
    }
  }

  ghost predicate ClockNeverGoesBack(ops: seq<Op>) {
    forall i, j :: 0 <= i <= j < |ops| ==> ops[i].now <= ops[j].now
  }

  lemma PrunedIsPast(cfg: Config, counts: Counts, ip: Ip, other: Ip, now: nat)
    requires AllAtMost(LogOf(counts, ip), now)
    ensures AllAtMost(LogOf(Check(cfg, counts, other, now).0, ip), now)
  {
    hide Cutoff;
    var kept := Retain(LogOf(counts, ip), Cutoff(now, cfg.windowSecs));
    assert forall i :: 0 <= i < |kept| ==> kept[i] in kept && kept[i] in LogOf(counts, ip);
  }

  lemma {:induction false} LogIsPast(cfg: Config, ops: seq<Op>, ip: Ip, now: nat)
    requires ClockNeverGoesBack(ops) && (ops != [] ==> ops[|ops| - 1].now <= now)
    ensures AllAtMost(LogOf(After(cfg, ops), ip), now)
  {
    hide Check;
    if ops != [] {
      var front, last := ops[..|ops| - 1], ops[|ops| - 1];
      LogIsPast(cfg, front, ip, last.now);
      if last.Request? {
        PrunedIsPast(cfg, After(cfg, front), ip, last.ip, last.now);
      }
    }
  }

  /** The clock hypothesis is needed: with a window longer than the clock's value the cutoff wraps
      past every recorded time, the log is always emptied, and in no run anything but a maximum of 0
      refuses a request. */
  lemma WindowLongerThanClockNeverFills(cfg: Config, ops: seq<Op>, ip: Ip, now: nat)
    requires ClockNeverGoesBack(ops + [Request(ip, now)]) && now < cfg.windowSecs <= TWO_TO_64
    ensures Check(cfg, After(cfg, ops), ip, now).1 <==> 0 < cfg.maxRequests
  {
    var all := ops + [Request(ip, now)];
    assert all[|ops|] == Request(ip, now) && forall i :: 0 <= i < |ops| ==> all[i] == ops[i];
    LogIsPast(cfg, ops, ip, now);
    hide After;
    RetainNone(LogOf(After(cfg, ops), ip), Cutoff(now, cfg.windowSecs));
  }
}
