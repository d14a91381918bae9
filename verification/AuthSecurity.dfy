/** Brute-force protection: failed attempts are logged per user and per address, and too many in
    one window lock the user or the address for a while, twice as long each time. */
module AuthSecurity {
  import opened Basics
  import opened Wrappers
  import opened Timestamps
  import AuthRateLimiter

  type Ip = AuthRateLimiter.Ip

  const TWO_TO_32: nat := 0x1_0000_0000

  datatype Config = Config(
    maxAttempts: nat,
    lockoutDurationSecs: nat,
    attemptWindowSecs: nat,
    progressiveLockout: bool)

  datatype Lockout = Lockout(lockedAt: nat, durationSecs: nat, lockoutCount: nat)

  /** Attempts and lockouts of one kind of subject: users, or addresses. */
  datatype Table<!K> = Table(attempts: map<K, seq<nat>>, locked: map<K, Lockout>)

  /** The duration of the k-th lockout on 64-bit integers, which wrap. */
  function LockDuration(cfg: Config, k: nat): nat {
    if cfg.progressiveLockout then
      cfg.lockoutDurationSecs * (Pow2(if k == 0 then 0 else k - 1) % TWO_TO_64) % TWO_TO_64
    else cfg.lockoutDurationSecs
  }

  function AttemptsOf<K>(t: Table<K>, k: K): seq<nat> {
    if k in t.attempts then t.attempts[k] else []
  }

  function Lock<K>(cfg: Config, t: Table<K>, k: K, now: nat): Table<K> {
    var count := if k in t.locked then (t.locked[k].lockoutCount + 1) % TWO_TO_32 else 1;
    Table(t.attempts - {k}, t.locked[k := Lockout(now, LockDuration(cfg, count), count)])
  }

  function RecordFailure<K>(cfg: Config, t: Table<K>, k: K, now: nat): Table<K> {
    var recent := Retain(AttemptsOf(t, k), Cutoff(now, cfg.attemptWindowSecs)) + [now];
    if |recent| % TWO_TO_32 >= cfg.maxAttempts then Lock(cfg, t, k, now)
    else t.(attempts := t.attempts[k := recent])
  }

  function ClearAttempts<K>(t: Table<K>, k: K): Table<K> {
    t.(attempts := t.attempts - {k})
  }

  function Unlock<K>(t: Table<K>, k: K): Table<K> {
    Table(t.attempts - {k}, t.locked - {k})
  }

  function UnlockTime(l: Lockout): nat { (l.lockedAt + l.durationSecs) % TWO_TO_64 }

  predicate IsLocked<K>(t: Table<K>, k: K, now: nat) {
    k in t.locked && now < UnlockTime(t.locked[k])
  }

  // ---- The protector ------------------------------------------------------------

  class BruteForceProtector {
    const config: Config
    var userAttempts: map<string, seq<nat>>
    var ipAttempts: map<Ip, seq<nat>>
    var lockedAccounts: map<string, Lockout>
    var lockedIps: map<Ip, Lockout>

    function Users(): Table<string>
      reads this
    {
      Table(userAttempts, lockedAccounts)
    }

    function Ips(): Table<Ip>
      reads this
    {
      Table(ipAttempts, lockedIps)
    }

    constructor (config: Config)
      ensures this.config == config && Users() == Table(map[], map[]) && Ips() == Table(map[], map[])
    {
      this.config := config;
      userAttempts, ipAttempts, lockedAccounts, lockedIps := map[], map[], map[], map[];
    }

    method IsUserLocked(username: string, now: nat) returns (r: bool)
      ensures r == IsLocked(Users(), username, now)
    {
      if username in lockedAccounts {
        var unlockTime := UnlockTime(lockedAccounts[username]);
        if now < unlockTime {
          return true;
        }
      }
      return false;
    }

    method IsIpLocked(ip: Ip, now: nat) returns (r: bool)
      ensures r == IsLocked(Ips(), ip, now)
    {
      if ip in lockedIps {
        var unlockTime := UnlockTime(lockedIps[ip]);
        if now < unlockTime {
          return true;
        }
      }
      return false;
    }

    method GetUnlockTime(username: string, now: nat) returns (r: Option<nat>)
      ensures r.Some? <==> IsLocked(Users(), username, now)
      ensures r.Some? ==> now + r.value == UnlockTime(lockedAccounts[username])
    {
      if username in lockedAccounts {
        var unlockTime := UnlockTime(lockedAccounts[username]);
        if now < unlockTime {
          return Some(unlockTime - now);
        }
      }
      return None;
    }

    method RecordFailedAttempt(username: string, ip: Option<Ip>, now: nat)
      modifies this
      ensures Users() == RecordFailure(config, old(Users()), username, now)
      ensures Ips() == if ip.Some? then RecordFailure(config, old(Ips()), ip.value, now) else old(Ips())
    {
      RecordUserFailure(username, now);
      if ip.Some? {
        RecordIpFailure(ip.value, now);
      }
    }

    method RecordUserFailure(username: string, now: nat)
      modifies this`userAttempts, this`lockedAccounts
      ensures Users() == RecordFailure(config, old(Users()), username, now)
    {
      hide Retain, Cutoff, LockDuration;
      ghost var before := userAttempts;
      var cutoff := Cutoff(now, config.attemptWindowSecs);
      var recent := Retain(if username in userAttempts then userAttempts[username] else [], cutoff) + [now];
      userAttempts := userAttempts[username := recent];
      if |recent| % TWO_TO_32 >= config.maxAttempts {
        LockUser(username, now);
        assert userAttempts == before - {username};
      }
    }

    method RecordIpFailure(ip: Ip, now: nat)
      modifies this`ipAttempts, this`lockedIps
      ensures Ips() == RecordFailure(config, old(Ips()), ip, now)
    {
      hide Retain, Cutoff, LockDuration;
      ghost var before := ipAttempts;
      var cutoff := Cutoff(now, config.attemptWindowSecs);
      var recent := Retain(if ip in ipAttempts then ipAttempts[ip] else [], cutoff) + [now];
      ipAttempts := ipAttempts[ip := recent];
      if |recent| % TWO_TO_32 >= config.maxAttempts {
        LockIp(ip, now);
        assert ipAttempts == before - {ip};
      }
    }

    method LockUser(username: string, now: nat)
      modifies this`lockedAccounts, this`userAttempts
      ensures Users() == Lock(config, old(Users()), username, now)
    {
      var count := if username in lockedAccounts then (lockedAccounts[username].lockoutCount + 1) % TWO_TO_32 else 1;
      lockedAccounts := lockedAccounts[username := Lockout(now, LockDuration(config, count), count)];
      userAttempts := userAttempts - {username};
    }

    method LockIp(ip: Ip, now: nat)
      modifies this`lockedIps, this`ipAttempts
      ensures Ips() == Lock(config, old(Ips()), ip, now)
    {
      var count := if ip in lockedIps then (lockedIps[ip].lockoutCount + 1) % TWO_TO_32 else 1;
      lockedIps := lockedIps[ip := Lockout(now, LockDuration(config, count), count)];
      ipAttempts := ipAttempts - {ip};
    }

    method ClearUserAttempts(username: string)
      modifies this`userAttempts
      ensures Users() == ClearAttempts(old(Users()), username)
    {
      userAttempts := userAttempts - {username};
    }

    method ClearIpAttempts(ip: Ip)
      modifies this`ipAttempts
      ensures Ips() == ClearAttempts(old(Ips()), ip)
    {
      ipAttempts := ipAttempts - {ip};
    }

    method UnlockUser(username: string)
      modifies this`lockedAccounts, this`userAttempts
      ensures Users() == Unlock(old(Users()), username)
    {
      lockedAccounts := lockedAccounts - {username};
      userAttempts := userAttempts - {username};
    }

    method UnlockIp(ip: Ip)
      modifies this`lockedIps, this`ipAttempts
      ensures Ips() == Unlock(old(Ips()), ip)
    {
      lockedIps := lockedIps - {ip};
      ipAttempts := ipAttempts - {ip};
    }
  }

  // ---- The security manager --------------------------------------------------------

  datatype Settings = Settings(bruteForce: Config, rateLimit: AuthRateLimiter.Config)

  datatype State = State(users: Table<string>, ips: Table<Ip>, requests: AuthRateLimiter.Counts)

  datatype Verdict = Allowed | RateLimited | IpLocked | UserLocked(remaining: nat)

  function CheckAttempt(cfg: Settings, s: State, username: string, ip: Option<Ip>, now: nat): (State, Verdict) {
    var (requests, admitted) :=
      if ip.Some? then AuthRateLimiter.Check(cfg.rateLimit, s.requests, ip.value, now) else (s.requests, true);
    (s.(requests := requests),
     if !admitted then RateLimited
     else if ip.Some? && IsLocked(s.ips, ip.value, now) then IpLocked
     else if IsLocked(s.users, username, now) then UserLocked(UnlockTime(s.users.locked[username]) - now)
     else Allowed)
  }

  class AuthSecurity {
    const settings: Settings
    const bruteForce: BruteForceProtector
    const rateLimiter: AuthRateLimiter.RateLimiter

    function Current(): State
      reads bruteForce, rateLimiter
    {
      State(bruteForce.Users(), bruteForce.Ips(), rateLimiter.requestCounts)
    }

    ghost predicate Valid() {
      bruteForce.config == settings.bruteForce && rateLimiter.config == settings.rateLimit
    }

    constructor (settings: Settings)
      ensures Valid() && this.settings == settings && fresh(bruteForce) && fresh(rateLimiter)
      ensures Current() == EMPTY
    {
      this.settings := settings;
      bruteForce := new BruteForceProtector(settings.bruteForce);
      rateLimiter := new AuthRateLimiter.RateLimiter(settings.rateLimit);
    }

    /** The gate in front of every login; only the request log changes. */
    method CheckAuthAttempt(username: string, ip: Option<Ip>, now: nat) returns (verdict: Verdict)
      requires Valid()
      modifies rateLimiter
      ensures (Current(), verdict) == CheckAttempt(settings, old(Current()), username, ip, now)
    {
      if ip.Some? {
        var admitted := rateLimiter.CheckRateLimit(ip.value, now);
        if !admitted {
          return RateLimited;
        }
        var ipLocked := bruteForce.IsIpLocked(ip.value, now);
        if ipLocked {
          return IpLocked;
        }
      }
      var userLocked := bruteForce.IsUserLocked(username, now);
      if userLocked {
        var remaining := bruteForce.GetUnlockTime(username, now);
        if remaining.Some? {
          return UserLocked(remaining.value);
        }
      }
      return Allowed;
    }

    method RecordAuthSuccess(username: string, ip: Option<Ip>)
      modifies bruteForce
      ensures Current() == AfterSuccess(old(Current()), username, ip)
    {
      bruteForce.ClearUserAttempts(username);
      if ip.Some? {
        bruteForce.ClearIpAttempts(ip.value);
      }
    }

    method RecordAuthFailure(username: string, ip: Option<Ip>, now: nat)
      requires Valid()
      modifies bruteForce
      ensures Current() == AfterFailure(settings, old(Current()), username, ip, now)
    {
      bruteForce.RecordFailedAttempt(username, ip, now);
    }
  }

  function AfterSuccess(s: State, username: string, ip: Option<Ip>): State {
    s.(users := ClearAttempts(s.users, username),
       ips := if ip.Some? then ClearAttempts(s.ips, ip.value) else s.ips)
  }

  function AfterFailure(cfg: Settings, s: State, username: string, ip: Option<Ip>, now: nat): State {
    s.(users := RecordFailure(cfg.bruteForce, s.users, username, now),
       ips := if ip.Some? then RecordFailure(cfg.bruteForce, s.ips, ip.value, now) else s.ips)
  }

  // ---- Lockout durations --------------------------------------------------------------

  /** What the documentation promises: the duration doubles with each lockout. */
  function PromisedDuration(cfg: Config, k: nat): nat {
    if cfg.progressiveLockout then cfg.lockoutDurationSecs * Pow2(if k == 0 then 0 else k - 1)
    else cfg.lockoutDurationSecs
  }

  lemma ProductBounds(a: nat, p: nat)
    requires p >= 1
    ensures a <= a * p && (a >= 1 ==> p <= a * p)
  {
  }

  /** The k-th lockout lasts base * 2^(k-1) seconds exactly as long as that fits into 64 bits. */
  lemma DurationIsPromisedIff(cfg: Config, k: nat)
    requires cfg.lockoutDurationSecs < TWO_TO_64
    ensures LockDuration(cfg, k) == PromisedDuration(cfg, k) <==> PromisedDuration(cfg, k) < TWO_TO_64
    ensures cfg.lockoutDurationSecs <= PromisedDuration(cfg, k)
  {
    var p := Pow2(if k == 0 then 0 else k - 1);
    ProductBounds(cfg.lockoutDurationSecs, p);
    if cfg.progressiveLockout && PromisedDuration(cfg, k) < TWO_TO_64 {
      if cfg.lockoutDurationSecs == 0 {
        assert 0 * (p % TWO_TO_64) == 0;
      } else {
        assert p % TWO_TO_64 == p;
      }
    }
  }

  lemma {:induction false} Pow2Sum(a: nat, b: nat)
    ensures Pow2(a + b) == Pow2(a) * Pow2(b)
  {
    if a > 0 {
      Pow2Sum(a - 1, b);
      assert Pow2(a) * Pow2(b) == 2 * (Pow2(a - 1) * Pow2(b));
    }
  }

  lemma Pow2Of64()
    ensures Pow2(64) == TWO_TO_64
  {
    assert Pow2(4) == 16;
    hide Pow2;
    Pow2Sum(4, 4);
    Pow2Sum(8, 8);
    Pow2Sum(16, 16);
    Pow2Sum(32, 32);
  }

  /** From the 65th progressive lockout on the wrapped duration is zero: it locks nothing. */
  lemma LateLockoutsAreEmpty<K>(cfg: Config, t: Table<K>, k: K, now: nat, later: nat)
    requires cfg.progressiveLockout && now <= later && now < TWO_TO_64
    requires k in t.locked && 64 <= t.locked[k].lockoutCount < TWO_TO_32 - 1
    ensures Lock(cfg, t, k, now).locked[k].durationSecs == 0
    ensures !IsLocked(Lock(cfg, t, k, now), k, later)
  {
    hide LockDuration;
    DurationWrapsToZero(cfg, t.locked[k].lockoutCount + 1);
  }

  lemma DurationWrapsToZero(cfg: Config, k: nat)
    requires cfg.progressiveLockout && 65 <= k
    ensures LockDuration(cfg, k) == 0
  {
    hide Pow2;
    Pow2Of64();
    Pow2Sum(64, k - 65);
    MultipleOfModulus(Pow2(k - 65));
    assert Pow2(k - 1) % TWO_TO_64 == 0;
  }

  lemma MultipleOfModulus(q: nat)
    ensures (q * TWO_TO_64) % TWO_TO_64 == 0
  {
  }

  /** When a lockout ends: after its duration, unless that lies beyond 64 bits; then the time wraps,
      and it ends that much earlier. */
  lemma UnlockTimeWraps<K>(t: Table<K>, k: K, now: nat)
    requires k in t.locked && t.locked[k].lockedAt < TWO_TO_64 && t.locked[k].durationSecs < TWO_TO_64
    ensures var end := t.locked[k].lockedAt + t.locked[k].durationSecs;
            IsLocked(t, k, now) <==> now < if end < TWO_TO_64 then end else end - TWO_TO_64
  {
  }

  /** The number of lockouts wraps in 32 bits: the one after 2^32 - 1 of them counts as none and lasts
      as long as a first one. */
  lemma LockoutCountWraps<K>(cfg: Config, t: Table<K>, k: K, now: nat)
    requires k in t.locked && t.locked[k].lockoutCount == 0xFFFF_FFFF && cfg.lockoutDurationSecs < TWO_TO_64
    ensures Lock(cfg, t, k, now).locked[k] == Lockout(now, cfg.lockoutDurationSecs, 0)
  {
    assert Pow2(0) == 1;
  }

  // ---- Runs --------------------------------------------------------------------------

  const EMPTY: State := State(Table(map[], map[]), Table(map[], map[]), map[])

  datatype Op =
    | Check(user: string, ip: Option<Ip>, now: nat)
    | Success(user: string, ip: Option<Ip>, now: nat)
    | Failure(user: string, ip: Option<Ip>, now: nat)
    | AdminUnlockUser(user: string, now: nat)
    | AdminUnlockIp(address: Ip, now: nat)

  function Apply(cfg: Settings, s: State, op: Op): State {
    match op
    case Check(u, ip, now) => CheckAttempt(cfg, s, u, ip, now).0
    case Success(u, ip, _) => AfterSuccess(s, u, ip)
    case Failure(u, ip, now) => AfterFailure(cfg, s, u, ip, now)
    case AdminUnlockUser(u, _) => s.(users := Unlock(s.users, u))
    case AdminUnlockIp(ip, _) => s.(ips := Unlock(s.ips, ip))
  }

  ghost function After(cfg: Settings, ops: seq<Op>): State {
    if ops == [] then EMPTY else Apply(cfg, After(cfg, ops[..|ops| - 1]), ops[|ops| - 1])
  }

  /** The clock never goes back and is past one attempt window since its epoch. */
  ghost predicate Timed(cfg: Settings, ops: seq<Op>) {
    && (forall i, j :: 0 <= i <= j < |ops| ==> ops[i].now <= ops[j].now)
    && (forall i :: 0 <= i < |ops| ==> cfg.bruteForce.attemptWindowSecs <= ops[i].now)
  }

  // ---- Lockout accounting --------------------------------------------------------------

  /** Failures recorded for `user` since the last admin unlock. */
  ghost function RecordedFailures(ops: seq<Op>, user: string): nat {
    if ops == [] then 0
    else
      var front, last := ops[..|ops| - 1], ops[|ops| - 1];
      if last.AdminUnlockUser? && last.user == user then 0
      else RecordedFailures(front, user) + (if last.Failure? && last.user == user then 1 else 0)
  }

  function LockoutsOf(t: Table<string>, user: string): nat {
    if user in t.locked then t.locked[user].lockoutCount else 0
  }

  lemma {:induction false} FailuresBounded(ops: seq<Op>, user: string)
    ensures RecordedFailures(ops, user) <= |ops|
  {
    if ops != [] {
      FailuresBounded(ops[..|ops| - 1], user);
    }
  }

  /** What one step does to the entries of `user`. */
  lemma StepOnUser(cfg: Settings, s: State, op: Op, user: string)
    ensures var t, t1 := s.users, Apply(cfg, s, op).users;
            if op.Failure? && op.user == user then t1 == RecordFailure(cfg.bruteForce, t, user, op.now)
            else if op.AdminUnlockUser? && op.user == user then user !in t1.attempts && user !in t1.locked
            else
              && (AttemptsOf(t1, user) == AttemptsOf(t, user) || AttemptsOf(t1, user) == [])
              && (user in t1.locked <==> user in t.locked)
              && (user in t.locked ==> t1.locked[user] == t.locked[user])
  {
    hide Retain, Cutoff, LockDuration;
  }

  /** Every lockout costs the maximum number of failures: between admin unlocks, the lockouts
      times the maximum plus the pending attempts never exceed the recorded failures; the pending
      list stays below the maximum; and each lockout lasts what its number says. */
  lemma {:induction false} LockoutAccounting(cfg: Settings, ops: seq<Op>, user: string)
    requires 1 <= cfg.bruteForce.maxAttempts < TWO_TO_32 && |ops| < TWO_TO_32
    ensures var users := After(cfg, ops).users;
            && |AttemptsOf(users, user)| < cfg.bruteForce.maxAttempts
            && LockoutsOf(users, user) * cfg.bruteForce.maxAttempts + |AttemptsOf(users, user)|
               <= RecordedFailures(ops, user)
            && (user in users.locked ==>
                  && 1 <= users.locked[user].lockoutCount
                  && users.locked[user].durationSecs == LockDuration(cfg.bruteForce, users.locked[user].lockoutCount))
  {
    if ops != [] {
      hide LockDuration, Apply, RecordFailure;
      var front, last := ops[..|ops| - 1], ops[|ops| - 1];
      LockoutAccounting(cfg, front, user);
      StepOnUser(cfg, After(cfg, front), last, user);
      if last.Failure? && last.user == user {
        FailuresBounded(front, user);
        OneMoreFailure(cfg.bruteForce, After(cfg, front).users, user, last.now, RecordedFailures(front, user));
      }
    }
  }

  lemma OneMoreFailure(cfg: Config, t: Table<string>, user: string, now: nat, failures: nat)
    requires 1 <= cfg.maxAttempts < TWO_TO_32 && failures < TWO_TO_32 - 1
    requires |AttemptsOf(t, user)| < cfg.maxAttempts
    requires LockoutsOf(t, user) * cfg.maxAttempts + |AttemptsOf(t, user)| <= failures
    ensures var t1 := RecordFailure(cfg, t, user, now);
            && |AttemptsOf(t1, user)| < cfg.maxAttempts
            && LockoutsOf(t1, user) * cfg.maxAttempts + |AttemptsOf(t1, user)| <= failures + 1
            && (user in t1.locked && (user in t.locked ==>
                  && 1 <= t.locked[user].lockoutCount
                  && t.locked[user].durationSecs == LockDuration(cfg, t.locked[user].lockoutCount))
                ==>
                  && 1 <= t1.locked[user].lockoutCount
                  && t1.locked[user].durationSecs == LockDuration(cfg, t1.locked[user].lockoutCount))
  {
    hide LockDuration, Retain, Cutoff;
    ProductBounds(LockoutsOf(t, user), cfg.maxAttempts);
    var count := LockoutsOf(t, user);
    assert (count + 1) * cfg.maxAttempts == count * cfg.maxAttempts + cfg.maxAttempts;
    assert (count + 1) % TWO_TO_32 == count + 1;
  }

  // ---- The sliding bound -----------------------------------------------------------------

  /** Each recorded outcome directly follows a check of the same login that allowed it. */
  ghost predicate Gated(cfg: Settings, ops: seq<Op>) {
    forall i :: 0 <= i < |ops| && (ops[i].Failure? || ops[i].Success?) ==>
      && 1 <= i
      && ops[i - 1].Check? && ops[i - 1].user == ops[i].user && ops[i - 1].ip == ops[i].ip
      && Allows(cfg, ops[..i - 1], ops[i - 1])
  }

  ghost predicate Allows(cfg: Settings, before: seq<Op>, check: Op)
    requires check.Check?
  {
    CheckAttempt(cfg, After(cfg, before), check.user, check.ip, check.now).1.Allowed?
  }

  /** Failure times of `user` since the last success or admin unlock. */
  ghost function Failures(ops: seq<Op>, user: string): seq<nat> {
    if ops == [] then []
    else
      var front, last := ops[..|ops| - 1], ops[|ops| - 1];
      if last.AdminUnlockIp? || last.Check? || last.user != user then Failures(front, user)
      else if last.Failure? then Failures(front, user) + [last.now]
      else []
  }

  /** No lockout of the run runs past the 64-bit clock. */
  ghost predicate NoOverflow(cfg: Settings, ops: seq<Op>, user: string) {
    forall i :: 0 <= i <= |ops| ==> Representable(cfg.bruteForce, After(cfg, ops[..i]).users, user)
  }

  ghost predicate Representable(cfg: Config, t: Table<string>, user: string) {
    user in t.locked ==>
      t.locked[user].lockedAt + PromisedDuration(cfg, t.locked[user].lockoutCount) < TWO_TO_64
  }

  /** The failures of a user, cut at the last lockout: those before it lie at or before the time
      of the lockout, those after it at least a window later, and these are what the log holds. */
  ghost predicate CutAtLockout(
    cfg: Config, before: seq<nat>, pending: seq<nat>, t: Table<string>, user: string, now: nat)
  {
    && SameFrom(AttemptsOf(t, user), pending, now, cfg.attemptWindowSecs)
    && |AttemptsOf(t, user)| < cfg.maxAttempts
    && (user in t.locked ==>
          t.locked[user].lockedAt + cfg.attemptWindowSecs <= UnlockTime(t.locked[user]))
    && (before != [] ==>
          && user in t.locked
          && AllAtMost(before, t.locked[user].lockedAt)
          && AllAtLeast(pending, t.locked[user].lockedAt + cfg.attemptWindowSecs))
  }

  ghost predicate Strict(cfg: Config) {
    && 1 <= cfg.maxAttempts < TWO_TO_32
    && cfg.attemptWindowSecs <= cfg.lockoutDurationSecs < TWO_TO_64
  }

  /** A failure admitted after the lockout ran out keeps the cut, or makes a new one. */
  lemma FailureCut(
    cfg: Config, before: seq<nat>, pending: seq<nat>, t: Table<string>, user: string, last: nat, checked: nat, now: nat)
    returns (before1: seq<nat>, pending1: seq<nat>)
    requires Strict(cfg) && CutAtLockout(cfg, before, pending, t, user, last)
    requires last <= now && checked <= now && cfg.attemptWindowSecs <= now
    requires !IsLocked(t, user, checked)
    requires AllAtMost(before + pending, now)
    requires Representable(cfg, RecordFailure(cfg, t, user, now), user)
    ensures before1 + pending1 == before + pending + [now]
    ensures CutAtLockout(cfg, before1, pending1, RecordFailure(cfg, t, user, now), user, now)
  {
    hide Retain, SameFrom, LockDuration, PromisedDuration;
    var w := cfg.attemptWindowSecs;
    var t1 := RecordFailure(cfg, t, user, now);
    PruneKeepsSame(AttemptsOf(t, user), pending, last, now, w);
    if user in t1.locked && user !in t1.attempts {
      before1, pending1 := before + pending + [now], [];
      EmptyIsSame(now, w);
      DurationIsPromisedIff(cfg, t1.locked[user].lockoutCount);
    } else {
      before1, pending1 := before, pending + [now];
      assert before1 + pending1 == before + pending + [now];
    }
  }

  function LastTime(ops: seq<Op>): nat {
    if ops == [] then 0 else ops[|ops| - 1].now
  }

  lemma FrontOfRun(cfg: Settings, ops: seq<Op>, user: string)
    requires ops != [] && Timed(cfg, ops) && Gated(cfg, ops) && NoOverflow(cfg, ops, user)
    ensures var front, last := ops[..|ops| - 1], ops[|ops| - 1];
            && Timed(cfg, front) && Gated(cfg, front) && NoOverflow(cfg, front, user)
            && LastTime(front) <= last.now && cfg.bruteForce.attemptWindowSecs <= last.now
            && Representable(cfg.bruteForce, After(cfg, ops).users, user)
            && (last.Failure? ==>
                  && front != [] && front[|front| - 1].Check?
                  && !IsLocked(After(cfg, front).users, last.user, front[|front| - 1].now))
  {
    hide *;
    FrontIsGated(cfg, ops);
    FrontIsTimedAndRepresentable(cfg, ops, user);
  }

  lemma FrontIsGated(cfg: Settings, ops: seq<Op>)
    requires ops != [] && Gated(cfg, ops)
    ensures var front, last := ops[..|ops| - 1], ops[|ops| - 1];
            && Gated(cfg, front)
            && (last.Failure? ==>
                  && front != [] && front[|front| - 1].Check?
                  && !IsLocked(After(cfg, front).users, last.user, front[|front| - 1].now))
  {
    hide Allows, After, IsLocked;
    var front := ops[..|ops| - 1];
    assert forall i :: 0 <= i <= |front| ==> front[..i] == ops[..i];
    if ops[|ops| - 1].Failure? {
      LastFailureWasChecked(cfg, ops);
    }
  }

  lemma LastFailureWasChecked(cfg: Settings, ops: seq<Op>)
    requires ops != [] && Gated(cfg, ops) && ops[|ops| - 1].Failure?
    ensures var front, last := ops[..|ops| - 1], ops[|ops| - 1];
            && front != [] && front[|front| - 1].Check?
            && !IsLocked(After(cfg, front).users, last.user, front[|front| - 1].now)
  {
    hide Allows, After, IsLocked;
    var front := ops[..|ops| - 1];
    var check := ops[|ops| - 2];
    assert front == ops[..|ops| - 2] + [check];
    AllowedMeansUnlocked(cfg, ops[..|ops| - 2], check);
  }

  lemma FrontIsTimedAndRepresentable(cfg: Settings, ops: seq<Op>, user: string)
    requires ops != [] && Timed(cfg, ops) && NoOverflow(cfg, ops, user)
    ensures var front, last := ops[..|ops| - 1], ops[|ops| - 1];
            && Timed(cfg, front) && NoOverflow(cfg, front, user)
            && LastTime(front) <= last.now && cfg.bruteForce.attemptWindowSecs <= last.now
            && Representable(cfg.bruteForce, After(cfg, ops).users, user)
  {
    hide Representable, After;
    var front := ops[..|ops| - 1];
    assert ops[..|ops|] == ops;
    assert forall i :: 0 <= i <= |front| ==> front[..i] == ops[..i];
  }

  /** A check leaves the users' table alone, and allows only unlocked users. */
  lemma AllowedMeansUnlocked(cfg: Settings, before: seq<Op>, check: Op)
    requires check.Check? && Allows(cfg, before, check)
    ensures !IsLocked(After(cfg, before + [check]).users, check.user, check.now)
  {
    var all := before + [check];
    assert all[..|all| - 1] == before;
  }

  lemma {:induction false} FailuresNotAfter(cfg: Settings, ops: seq<Op>, user: string, now: nat)
    requires Timed(cfg, ops) && LastTime(ops) <= now
    ensures AllAtMost(Failures(ops, user), now)
  {
    if ops != [] {
      FailuresNotAfter(cfg, ops[..|ops| - 1], user, LastTime(ops));
    }
  }

  lemma CutMovesOn(
    cfg: Config, before: seq<nat>, pending: seq<nat>, t: Table<string>, user: string, now: nat, later: nat)
    requires CutAtLockout(cfg, before, pending, t, user, now) && now <= later
    ensures CutAtLockout(cfg, before, pending, t, user, later)
  {
    SameFromLater(AttemptsOf(t, user), pending, now, later, cfg.attemptWindowSecs);
  }

  /** Clearing the attempts, with or without the lockout, leaves nothing to cut. */
  lemma ClearedCut(cfg: Config, t: Table<string>, user: string, now: nat)
    requires 1 <= cfg.maxAttempts
    requires user in t.locked ==> t.locked[user].lockedAt + cfg.attemptWindowSecs <= UnlockTime(t.locked[user])
    ensures CutAtLockout(cfg, [], [], ClearAttempts(t, user), user, now)
    ensures CutAtLockout(cfg, [], [], Unlock(t, user), user, now)
  {
    EmptyIsSame(now, cfg.attemptWindowSecs);
  }

  /** Steps about other users, and checks, leave this user's entries alone. */
  lemma OtherSubjects(cfg: Settings, s: State, op: Op, user: string)
    requires op.Check? || op.AdminUnlockIp? || op.user != user
    ensures var t, t1 := s.users, Apply(cfg, s, op).users;
            && AttemptsOf(t1, user) == AttemptsOf(t, user)
            && (user in t1.locked <==> user in t.locked)
            && (user in t.locked ==> t1.locked[user] == t.locked[user])
  {
    hide Retain, LockDuration, Cutoff;
  }

  lemma {:induction false} CutHistory(cfg: Settings, ops: seq<Op>, user: string)
    returns (before: seq<nat>, pending: seq<nat>)
    requires Strict(cfg.bruteForce)
    requires Timed(cfg, ops) && Gated(cfg, ops) && NoOverflow(cfg, ops, user)
    ensures Failures(ops, user) == before + pending
    ensures CutAtLockout(cfg.bruteForce, before, pending, After(cfg, ops).users, user, LastTime(ops))
  {
    if ops == [] {
      before, pending := [], [];
      EmptyIsSame(0, cfg.bruteForce.attemptWindowSecs);
    } else {
      hide Timed, Gated, NoOverflow, Representable, IsLocked, CheckAttempt;
      var front, last := ops[..|ops| - 1], ops[|ops| - 1];
      FrontOfRun(cfg, ops, user);
      before, pending := CutHistory(cfg, front, user);
      var t := After(cfg, front).users;
      if last.Failure? && last.user == user {
        hide CutAtLockout, RecordFailure;
        FailuresNotAfter(cfg, front, user, last.now);
        before, pending := FailureCut(
          cfg.bruteForce, before, pending, t, user, LastTime(front), front[|front| - 1].now, last.now);
      } else {
        CutMovesOn(cfg.bruteForce, before, pending, t, user, LastTime(front), last.now);
        if (last.Success? || last.AdminUnlockUser?) && last.user == user {
          before, pending := [], [];
          ClearedCut(cfg.bruteForce, t, user, last.now);
        } else {
          OtherSubjects(cfg, After(cfg, front), last, user);
        }
      }
    }
  }

  /** With a lockout at least as long as the window, no half-open window of that length holds more
      than the maximum of admitted failures of one user without a success or an admin unlock
      between them, in any run whose logins are all gated. */
  lemma {:induction false} AtMostMaximumFailuresPerWindow(cfg: Settings, ops: seq<Op>, user: string, t: int)
    requires Strict(cfg.bruteForce)
    requires Timed(cfg, ops) && Gated(cfg, ops) && NoOverflow(cfg, ops, user)
    ensures CountIn(Failures(ops, user), t - cfg.bruteForce.attemptWindowSecs, t) <= cfg.bruteForce.maxAttempts
  {
    hide Timed, Gated, NoOverflow, Representable, IsLocked, CountIn, After;
    var w := cfg.bruteForce.attemptWindowSecs;
    if ops == [] {
      CountNone([], t - w, t);
    } else {
      var front, last := ops[..|ops| - 1], ops[|ops| - 1];
      FrontOfRun(cfg, ops, user);
      AtMostMaximumFailuresPerWindow(cfg, front, user, t);
      if last.Failure? && last.user == user {
        FailuresNotAfter(cfg, front, user, last.now);
        var before, pending := CutHistory(cfg, front, user);
        FailureFits(cfg.bruteForce, before, pending, After(cfg, front).users, user, LastTime(front),
                    front[|front| - 1].now, last.now, t);
      } else if (last.Success? || last.AdminUnlockUser?) && last.user == user {
        CountNone([], t - w, t);
      }
    }
  }

  lemma FailureFits(
    cfg: Config, before: seq<nat>, pending: seq<nat>, t: Table<string>, user: string,
    last: nat, checked: nat, now: nat, end: int)
    requires Strict(cfg) && CutAtLockout(cfg, before, pending, t, user, last)
    requires last <= now && checked <= now && cfg.attemptWindowSecs <= now
    requires !IsLocked(t, user, checked)
    requires AllAtMost(before + pending, now)
    requires CountIn(before + pending, end - cfg.attemptWindowSecs, end) <= cfg.maxAttempts
    ensures CountIn(before + pending + [now], end - cfg.attemptWindowSecs, end) <= cfg.maxAttempts
  {
    hide CountIn, Retain;
    var w := cfg.attemptWindowSecs;
    CountSnoc(before + pending, now, end - w, end);
    if now <= end {
      CountAppend(before, pending, end - w, end);
      CountNone(before, end - w, end);
      CountCovered(pending, end - w, end, now - w, now);
      CountIsRetained(pending, now - w, now);
      SameFromLater(AttemptsOf(t, user), pending, last, now, w);
      SameMeans(AttemptsOf(t, user), pending, now, w);
    }
  }

  // ---- A lockout shorter than the window -------------------------------------------------------

  /** `k` gated failures at one time. */
  ghost function Burst(user: string, now: nat, k: nat): (ops: seq<Op>)
    ensures forall i :: 0 <= i < |ops| ==> ops[i].now == now
  {
    if k == 0 then [] else Burst(user, now, k - 1) + [Check(user, None, now), Failure(user, None, now)]
  }

  /** The users' table after a burst of at most the maximum. */
  function BurstTable(cfg: Config, user: string, now: nat, k: nat): Table<string> {
    if k == cfg.maxAttempts then Table(map[], map[user := Lockout(now, cfg.lockoutDurationSecs, 1)])
    else if k == 0 then Table(map[], map[])
    else Table(map[user := Copies(now, k)], map[])
  }

  ghost predicate ShortLockout(cfg: Config, now: nat) {
    && 1 <= cfg.maxAttempts < TWO_TO_32
    && cfg.lockoutDurationSecs < cfg.attemptWindowSecs <= now
    && now + 3 * cfg.lockoutDurationSecs < TWO_TO_64
  }

  lemma AfterSnoc(cfg: Settings, ops: seq<Op>, op: Op)
    ensures After(cfg, ops + [op]) == Apply(cfg, After(cfg, ops), op)
  {
    hide Apply;
    assert (ops + [op])[..|ops|] == ops;
  }

  /** What a gated failure without an address adds to a run. */
  lemma AttemptAdds(cfg: Settings, ops: seq<Op>, user: string, now: nat)
    ensures var more := ops + [Check(user, None, now), Failure(user, None, now)];
            && After(cfg, more).users == RecordFailure(cfg.bruteForce, After(cfg, ops).users, user, now)
            && After(cfg, ops + [Check(user, None, now)]).users == After(cfg, ops).users
            && Failures(more, user) == Failures(ops, user) + [now]
  {
    hide RecordFailure;
    var check, failure := Check(user, None, now), Failure(user, None, now);
    AfterSnoc(cfg, ops, check);
    AfterSnoc(cfg, ops + [check], failure);
    assert ops + [check] + [failure] == ops + [check, failure];
    assert (ops + [check, failure])[..|ops| + 1] == ops + [check];
    assert (ops + [check])[..|ops|] == ops;
  }

  lemma AttemptIsGated(cfg: Settings, ops: seq<Op>, user: string, now: nat)
    requires Gated(cfg, ops) && !IsLocked(After(cfg, ops).users, user, now)
    ensures Gated(cfg, ops + [Check(user, None, now), Failure(user, None, now)])
  {
    hide After, IsLocked;
    var more := ops + [Check(user, None, now), Failure(user, None, now)];
    forall i | 0 <= i < |more| && (more[i].Failure? || more[i].Success?)
      ensures && 1 <= i
              && more[i - 1].Check? && more[i - 1].user == more[i].user && more[i - 1].ip == more[i].ip
              && Allows(cfg, more[..i - 1], more[i - 1])
    {
      if i < |ops| {
        assert more[..i - 1] == ops[..i - 1];
      } else {
        assert more[..i - 1] == ops;
      }
    }
  }

  lemma AttemptDoesNotOverflow(cfg: Settings, ops: seq<Op>, user: string, now: nat)
    requires NoOverflow(cfg, ops, user)
    requires Representable(cfg.bruteForce, RecordFailure(cfg.bruteForce, After(cfg, ops).users, user, now), user)
    ensures NoOverflow(cfg, ops + [Check(user, None, now), Failure(user, None, now)], user)
  {
    AttemptAdds(cfg, ops, user, now);
    hide After, Representable, RecordFailure, Failures;
    var more := ops + [Check(user, None, now), Failure(user, None, now)];
    forall i | 0 <= i <= |more| ensures Representable(cfg.bruteForce, After(cfg, more[..i]).users, user) {
      if i <= |ops| {
        assert more[..i] == ops[..i];
      } else if i == |ops| + 1 {
        assert more[..i] == ops + [Check(user, None, now)];
        assert ops[..|ops|] == ops;
      } else {
        assert more[..i] == more;
      }
    }
  }

  lemma RecentInBurst(cfg: Config, user: string, now: nat, k: nat)
    requires ShortLockout(cfg, now) && k < cfg.maxAttempts
    ensures var t := BurstTable(cfg, user, now, k);
            && t.locked == map[] && t.attempts - {user} == map[]
            && (k > 0 ==> t.attempts == map[user := Copies(now, k)]) && (k == 0 ==> t.attempts == map[])
            && Retain(AttemptsOf(t, user), Cutoff(now, cfg.attemptWindowSecs)) + [now] == Copies(now, k + 1)
  {
    var t := BurstTable(cfg, user, now, k);
    RetainAll(Copies(now, k), Cutoff(now, cfg.attemptWindowSecs));
    hide Retain, Cutoff;
    assert AttemptsOf(t, user) == Copies(now, k);
  }

  lemma FailureInBurst(cfg: Config, user: string, now: nat, k: nat)
    requires ShortLockout(cfg, now) && k < cfg.maxAttempts
    ensures RecordFailure(cfg, BurstTable(cfg, user, now, k), user, now) == BurstTable(cfg, user, now, k + 1)
    ensures !IsLocked(BurstTable(cfg, user, now, k), user, now)
  {
    RecentInBurst(cfg, user, now, k);
    FirstDuration(cfg);
    var t := BurstTable(cfg, user, now, k);
    hide LockDuration, Retain, Cutoff, Copies;
    assert (k + 1) % TWO_TO_32 == k + 1;
    assert map[user := Copies(now, k)][user := Copies(now, k + 1)] == map[user := Copies(now, k + 1)];
  }

  lemma FirstDuration(cfg: Config)
    requires cfg.lockoutDurationSecs < TWO_TO_64
    ensures LockDuration(cfg, 1) == cfg.lockoutDurationSecs
  {
    assert Pow2(0) == 1;
  }

  lemma BurstIsTimed(cfg: Settings, user: string, now: nat, k: nat, later: nat)
    requires ShortLockout(cfg.bruteForce, now) && now <= later
    ensures Timed(cfg, Burst(user, now, k) + [Check(user, None, later), Failure(user, None, later)])
  {
  }

  lemma {:induction false} BurstRuns(cfg: Settings, user: string, now: nat, k: nat)
    requires ShortLockout(cfg.bruteForce, now) && k <= cfg.bruteForce.maxAttempts
    ensures var ops := Burst(user, now, k);
            && After(cfg, ops).users == BurstTable(cfg.bruteForce, user, now, k)
            && Failures(ops, user) == Copies(now, k)
            && Gated(cfg, ops) && NoOverflow(cfg, ops, user)
  {
    hide After, Gated, NoOverflow, RecordFailure, Failures, BurstTable, IsLocked, Representable, ShortLockout;
    if k == 0 {
      NoBurst(cfg, user, now);
    } else {
      var ops := Burst(user, now, k - 1);
      BurstRuns(cfg, user, now, k - 1);
      FailureInBurst(cfg.bruteForce, user, now, k - 1);
      BurstIsRepresentable(cfg.bruteForce, user, now, k);
      AttemptAdds(cfg, ops, user, now);
      AttemptIsGated(cfg, ops, user, now);
      AttemptDoesNotOverflow(cfg, ops, user, now);
    }
  }

  lemma NoBurst(cfg: Settings, user: string, now: nat)
    requires ShortLockout(cfg.bruteForce, now)
    ensures After(cfg, []).users == BurstTable(cfg.bruteForce, user, now, 0)
    ensures Failures([], user) == [] && Gated(cfg, []) && NoOverflow(cfg, [], user)
  {
  }

  lemma BurstIsRepresentable(cfg: Config, user: string, now: nat, k: nat)
    requires ShortLockout(cfg, now)
    ensures Representable(cfg, BurstTable(cfg, user, now, k), user)
  {
    assert Pow2(0) == 1;
  }

  /** The last failure, once the lockout has run out. */
  lemma LastFailure(cfg: Config, user: string, now: nat)
    requires ShortLockout(cfg, now)
    ensures var t, later := BurstTable(cfg, user, now, cfg.maxAttempts), now + cfg.lockoutDurationSecs;
            !IsLocked(t, user, later) && Representable(cfg, RecordFailure(cfg, t, user, later), user)
  {
    hide Retain, Cutoff;
    assert Pow2(0) == 1 && Pow2(1) == 2;
  }

  lemma ShortWindow(cfg: Config, now: nat)
    requires ShortLockout(cfg, now)
    ensures cfg.maxAttempts >= 1 && now + cfg.lockoutDurationSecs - cfg.attemptWindowSecs < now
  {
  }

  /** With a lockout shorter than the window, whatever the settings otherwise are, some gated run
      puts one failure more than the maximum into one window. */
  lemma ShortLockoutBreaksTheBound(cfg: Settings, user: string, now: nat) returns (ops: seq<Op>, t: int)
    requires ShortLockout(cfg.bruteForce, now)
    ensures Timed(cfg, ops) && Gated(cfg, ops) && NoOverflow(cfg, ops, user)
    ensures CountIn(Failures(ops, user), t - cfg.bruteForce.attemptWindowSecs, t) == cfg.bruteForce.maxAttempts + 1
  {
    var max, later := cfg.bruteForce.maxAttempts, now + cfg.bruteForce.lockoutDurationSecs;
    hide *;
    var lo := later - cfg.bruteForce.attemptWindowSecs;
    ShortWindow(cfg.bruteForce, now);
    var burst := Burst(user, now, max);
    BurstRuns(cfg, user, now, max);
    LastFailure(cfg.bruteForce, user, now);
    ops, t := burst + [Check(user, None, later), Failure(user, None, later)], later;
    BurstIsTimed(cfg, user, now, max, later);
    AttemptAdds(cfg, burst, user, later);
    AttemptIsGated(cfg, burst, user, later);
    AttemptDoesNotOverflow(cfg, burst, user, later);
    CountCopies(now, max, lo, t);
    CountSnoc(Copies(now, max), later, lo, t);
  }

  ghost predicate Bounded(cfg: Settings, ops: seq<Op>, user: string, t: int) {
    Timed(cfg, ops) && Gated(cfg, ops) && NoOverflow(cfg, ops, user) ==>
      CountIn(Failures(ops, user), t - cfg.bruteForce.attemptWindowSecs, t) <= cfg.bruteForce.maxAttempts
  }

  /** The bound holds of all runs exactly when the lockout is at least as long as the window. */
  lemma BoundHoldsIffLockoutCoversWindow(cfg: Settings)
    requires 1 <= cfg.bruteForce.maxAttempts < TWO_TO_32
    requires cfg.bruteForce.attemptWindowSecs + 3 * cfg.bruteForce.lockoutDurationSecs < TWO_TO_64
    ensures (forall ops, user, t :: Bounded(cfg, ops, user, t))
       <==> cfg.bruteForce.attemptWindowSecs <= cfg.bruteForce.lockoutDurationSecs
  {
    hide Timed, Gated, NoOverflow, CountIn, Failures;
    if cfg.bruteForce.attemptWindowSecs <= cfg.bruteForce.lockoutDurationSecs {
      forall ops, user, t ensures Bounded(cfg, ops, user, t) {
        if Timed(cfg, ops) && Gated(cfg, ops) && NoOverflow(cfg, ops, user) {
          AtMostMaximumFailuresPerWindow(cfg, ops, user, t);
        }
      }
    } else {
      var ops, t := ShortLockoutBreaksTheBound(cfg, "u", cfg.bruteForce.attemptWindowSecs);
      assert !Bounded(cfg, ops, "u", t);
    }
  }
}
