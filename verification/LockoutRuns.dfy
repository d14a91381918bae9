/** Two more results about runs of the brute-force protection: addresses are bounded as users are, and
    the lockouts that the 64-bit arithmetic empties are reached. */
module LockoutRuns {
  import opened Basics
  import opened Wrappers
  import opened Timestamps
  import opened A = AuthSecurity

  // ---- Addresses -----------------------------------------------------------------------

  /** Failure times from `address` since its last success or admin unlock. */
  ghost function AddressFailures(ops: seq<Op>, address: Ip): seq<nat> {
    if ops == [] then []
    else
      var front, last := ops[..|ops| - 1], ops[|ops| - 1];
      if last.Failure? && last.ip == Some(address) then AddressFailures(front, address) + [last.now]
      else if last.Success? && last.ip == Some(address) then []
      else if last.AdminUnlockIp? && last.address == address then []
      else AddressFailures(front, address)
  }

  ghost predicate AddressRepresentable(cfg: Config, t: Table<Ip>, address: Ip) {
    address in t.locked ==>
      t.locked[address].lockedAt + PromisedDuration(cfg, t.locked[address].lockoutCount) < TWO_TO_64
  }

  /** No lockout of the address runs past the 64-bit clock. */
  ghost predicate NoAddressOverflow(cfg: Settings, ops: seq<Op>, address: Ip) {
    forall i :: 0 <= i <= |ops| ==> AddressRepresentable(cfg.bruteForce, After(cfg, ops[..i]).ips, address)
  }

  const STAND_IN: string := "address"
  const NOBODY: string := "nobody"

  /** The same step about a user that stands in for the address; steps about anything else become
      checks, which change no table. */
  function Viewed(op: Op, address: Ip): Op {
    match op
    case Check(_, ip, now) => Check(if ip == Some(address) then STAND_IN else NOBODY, None, now)
    case Success(_, ip, now) => if ip == Some(address) then Success(STAND_IN, None, now) else Check(NOBODY, None, now)
    case Failure(_, ip, now) => if ip == Some(address) then Failure(STAND_IN, None, now) else Check(NOBODY, None, now)
    case AdminUnlockUser(_, now) => Check(NOBODY, None, now)
    case AdminUnlockIp(ip, now) =>
      if ip == address then AdminUnlockUser(STAND_IN, now) else Check(NOBODY, None, now)
  }

  function View(ops: seq<Op>, address: Ip): (r: seq<Op>)
    ensures |r| == |ops| && forall i :: 0 <= i < |ops| ==> r[i] == Viewed(ops[i], address)
  {
    seq(|ops|, i requires 0 <= i < |ops| => Viewed(ops[i], address))
  }

  lemma ViewOfPrefix(ops: seq<Op>, address: Ip, n: nat)
    requires n <= |ops|
    ensures View(ops, address)[..n] == View(ops[..n], address)
  {
  }

  /** Two tables hold the same for their subjects. */
  ghost predicate SameEntry(t: Table<Ip>, address: Ip, u: Table<string>, user: string) {
    && AttemptsOf(t, address) == AttemptsOf(u, user)
    && (address in t.locked <==> user in u.locked)
    && (address in t.locked ==> t.locked[address] == u.locked[user])
  }

  lemma FailureKeepsSame(cfg: Config, t: Table<Ip>, address: Ip, u: Table<string>, user: string, now: nat)
    requires SameEntry(t, address, u, user)
    ensures SameEntry(RecordFailure(cfg, t, address, now), address, RecordFailure(cfg, u, user, now), user)
  {
    hide Retain, Cutoff, LockDuration;
  }

  lemma {:induction false} ViewFollows(cfg: Settings, ops: seq<Op>, address: Ip)
    ensures SameEntry(After(cfg, ops).ips, address, After(cfg, View(ops, address)).users, STAND_IN)
    ensures AddressFailures(ops, address) == Failures(View(ops, address), STAND_IN)
  {
    if ops != [] {
      hide RecordFailure;
      var front, last := ops[..|ops| - 1], ops[|ops| - 1];
      ViewFollows(cfg, front, address);
      ViewOfPrefix(ops, address, |front|);
      var s, v := After(cfg, front), After(cfg, View(front, address));
      if last.Failure? && last.ip == Some(address) {
        FailureKeepsSame(cfg.bruteForce, s.ips, address, v.users, STAND_IN, last.now);
      }
      if !About(last, address) {
        OtherAddress(cfg, s, last, address);
      }
    }
  }

  /** The step changes the entry of the address. */
  predicate About(op: Op, address: Ip) {
    ((op.Failure? || op.Success?) && op.ip == Some(address)) || (op.AdminUnlockIp? && op.address == address)
  }

  /** Steps that are not about the address leave its entry alone. */
  lemma OtherAddress(cfg: Settings, s: State, op: Op, address: Ip)
    requires !About(op, address)
    ensures var t, t1 := s.ips, Apply(cfg, s, op).ips;
            && AttemptsOf(t1, address) == AttemptsOf(t, address)
            && (address in t1.locked <==> address in t.locked)
            && (address in t.locked ==> t1.locked[address] == t.locked[address])
  {
  }

  lemma ViewIsTimed(cfg: Settings, ops: seq<Op>, address: Ip)
    requires Timed(cfg, ops)
    ensures Timed(cfg, View(ops, address))
  {
    assert forall i :: 0 <= i < |ops| ==> View(ops, address)[i].now == ops[i].now;
  }

  /** A check that let the address through lets its stand-in through. */
  lemma ViewAllows(cfg: Settings, before: seq<Op>, check: Op, address: Ip)
    requires check.Check? && check.ip == Some(address) && Allows(cfg, before, check)
    ensures Allows(cfg, View(before, address), Viewed(check, address))
  {
    hide After;
    ViewFollows(cfg, before, address);
  }

  lemma ViewIsGated(cfg: Settings, ops: seq<Op>, address: Ip)
    requires Gated(cfg, ops)
    ensures Gated(cfg, View(ops, address))
  {
    hide After, Allows;
    var view := View(ops, address);
    forall i | 0 <= i < |view| && (view[i].Failure? || view[i].Success?)
      ensures && 1 <= i
              && view[i - 1].Check? && view[i - 1].user == view[i].user && view[i - 1].ip == view[i].ip
              && Allows(cfg, view[..i - 1], view[i - 1])
    {
      ViewAllows(cfg, ops[..i - 1], ops[i - 1], address);
      ViewOfPrefix(ops, address, i - 1);
    }
  }

  lemma ViewDoesNotOverflow(cfg: Settings, ops: seq<Op>, address: Ip)
    requires NoAddressOverflow(cfg, ops, address)
    ensures NoOverflow(cfg, View(ops, address), STAND_IN)
  {
    hide After, PromisedDuration;
    var view := View(ops, address);
    forall i | 0 <= i <= |view| ensures Representable(cfg.bruteForce, After(cfg, view[..i]).users, STAND_IN) {
      ViewOfPrefix(ops, address, i);
      ViewFollows(cfg, ops[..i], address);
      assert AddressRepresentable(cfg.bruteForce, After(cfg, ops[..i]).ips, address);
    }
  }

  /** Addresses are bounded as users are: with a lockout at least as long as the window, no half-open
      window of any gated run holds more than the maximum of admitted failures from one address. */
  lemma AtMostMaximumFailuresPerAddress(cfg: Settings, ops: seq<Op>, address: Ip, t: int)
    requires Strict(cfg.bruteForce)
    requires Timed(cfg, ops) && Gated(cfg, ops) && NoAddressOverflow(cfg, ops, address)
    ensures CountIn(AddressFailures(ops, address), t - cfg.bruteForce.attemptWindowSecs, t)
            <= cfg.bruteForce.maxAttempts
  {
    hide Timed, Gated, NoOverflow, NoAddressOverflow, CountIn, Failures, AddressFailures, After, Strict;
    ViewIsTimed(cfg, ops, address);
    ViewIsGated(cfg, ops, address);
    ViewDoesNotOverflow(cfg, ops, address);
    ViewFollows(cfg, ops, address);
    AtMostMaximumFailuresPerWindow(cfg, View(ops, address), STAND_IN, t);
  }

  // ---- Reaching the empty lockouts -----------------------------------------------------------

  /** `n` failures at one time, as any caller may record them without asking first. */
  ghost function Barrage(user: string, now: nat, n: nat): (ops: seq<Op>)
    ensures |ops| == n
    ensures forall i :: 0 <= i < |ops| ==> ops[i] == Failure(user, None, now)
  {
    if n == 0 then [] else Barrage(user, now, n - 1) + [Failure(user, None, now)]
  }

  /** `k` barrages of the maximum each. */
  ghost function Barrages(user: string, now: nat, max: nat, k: nat): (ops: seq<Op>)
    ensures |ops| == k * max
    ensures forall i :: 0 <= i < |ops| ==> ops[i] == Failure(user, None, now)
  {
    if k == 0 then [] else Barrages(user, now, max, k - 1) + Barrage(user, now, max)
  }

  /** The user has been locked `k` times and has `j` attempts since. */
  ghost predicate Counted(cfg: Config, t: Table<string>, user: string, now: nat, k: nat, j: nat) {
    && AttemptsOf(t, user) == Copies(now, j)
    && (if k == 0 then user !in t.locked
        else user in t.locked && t.locked[user] == Lockout(now, LockDuration(cfg, k), k))
  }

  lemma OneMoreCounted(cfg: Config, t: Table<string>, user: string, now: nat, k: nat, j: nat)
    requires 1 <= cfg.maxAttempts < TWO_TO_32 && 1 <= cfg.attemptWindowSecs <= now && k + 1 < TWO_TO_32
    requires Counted(cfg, t, user, now, k, j) && j < cfg.maxAttempts
    ensures var t1 := RecordFailure(cfg, t, user, now);
            if j + 1 == cfg.maxAttempts then Counted(cfg, t1, user, now, k + 1, 0)
            else Counted(cfg, t1, user, now, k, j + 1)
  {
    RecentIsOneMore(now, cfg.attemptWindowSecs, j);
    hide Retain, LockDuration, Cutoff, Copies;
    assert (j + 1) % TWO_TO_32 == j + 1 && (k + 1) % TWO_TO_32 == k + 1;
  }

  lemma RecentIsOneMore(now: nat, window: nat, j: nat)
    requires 1 <= window <= now
    ensures Retain(Copies(now, j), Cutoff(now, window)) + [now] == Copies(now, j + 1)
    ensures |Copies(now, j + 1)| == j + 1 && Copies(now, 0) == []
  {
    RetainAll(Copies(now, j), Cutoff(now, window));
    assert Copies(now, j) + [now] == Copies(now, j + 1);
  }

  lemma {:induction false} BarrageCounts(cfg: Settings, ops: seq<Op>, user: string, now: nat, k: nat, n: nat)
    requires var c := cfg.bruteForce;
             && 1 <= c.maxAttempts < TWO_TO_32 && 1 <= c.attemptWindowSecs <= now && k + 1 < TWO_TO_32
             && n <= c.maxAttempts && Counted(c, After(cfg, ops).users, user, now, k, 0)
    ensures var users := After(cfg, ops + Barrage(user, now, n)).users;
            if n == cfg.bruteForce.maxAttempts then Counted(cfg.bruteForce, users, user, now, k + 1, 0)
            else Counted(cfg.bruteForce, users, user, now, k, n)
  {
    hide Counted, RecordFailure, After;
    if n == 0 {
      assert ops + [] == ops;
    } else {
      var shorter := ops + Barrage(user, now, n - 1);
      BarrageCounts(cfg, ops, user, now, k, n - 1);
      OneMoreCounted(cfg.bruteForce, After(cfg, shorter).users, user, now, k, n - 1);
      AfterSnoc(cfg, shorter, Failure(user, None, now));
      assert ops + Barrage(user, now, n) == shorter + [Failure(user, None, now)];
    }
  }

  lemma NothingCounted(cfg: Settings, user: string, now: nat)
    ensures Counted(cfg.bruteForce, After(cfg, []).users, user, now, 0, 0)
  {
    assert Copies(now, 0) == [];
  }

  lemma {:induction false} BarragesCount(cfg: Settings, user: string, now: nat, k: nat)
    requires var c := cfg.bruteForce;
             1 <= c.maxAttempts < TWO_TO_32 && 1 <= c.attemptWindowSecs <= now && k < TWO_TO_32
    ensures var ops := Barrages(user, now, cfg.bruteForce.maxAttempts, k);
            Counted(cfg.bruteForce, After(cfg, ops).users, user, now, k, 0)
  {
    hide Counted, After;
    if k == 0 {
      NothingCounted(cfg, user, now);
    } else {
      BarragesCount(cfg, user, now, k - 1);
      var earlier := Barrages(user, now, cfg.bruteForce.maxAttempts, k - 1);
      BarrageCounts(cfg, earlier, user, now, k - 1, cfg.bruteForce.maxAttempts);
    }
  }

  /** Sixty-five times the maximum of failures, recorded without checks between them, reach the first
      progressive lockout that is empty: the user is not locked, then or later. */
  lemma EmptyLockoutIsReached(cfg: Settings, user: string, now: nat, later: nat) returns (ops: seq<Op>)
    requires var c := cfg.bruteForce;
             && 1 <= c.maxAttempts < TWO_TO_32 && 1 <= c.attemptWindowSecs <= now <= later && now < TWO_TO_64
             && c.progressiveLockout
    ensures |ops| == 65 * cfg.bruteForce.maxAttempts && Timed(cfg, ops)
    ensures forall i :: 0 <= i < |ops| ==> ops[i] == Failure(user, None, now)
    ensures var users := After(cfg, ops).users;
            && user in users.locked && users.locked[user] == Lockout(now, 0, 65)
            && !IsLocked(users, user, later)
  {
    assert 65 < TWO_TO_32;
    hide *;
    ops := Barrages(user, now, cfg.bruteForce.maxAttempts, 65);
    BarragesCount(cfg, user, now, 65);
    DurationWrapsToZero(cfg.bruteForce, 65);
    BarragesAreTimed(cfg, user, now, ops);
    EmptyLockout(cfg.bruteForce, After(cfg, ops).users, user, now, later);
  }

  lemma BarragesAreTimed(cfg: Settings, user: string, now: nat, ops: seq<Op>)
    requires cfg.bruteForce.attemptWindowSecs <= now
    requires forall i :: 0 <= i < |ops| ==> ops[i] == Failure(user, None, now)
    ensures Timed(cfg, ops)
  {
  }

  lemma EmptyLockout(cfg: Config, t: Table<string>, user: string, now: nat, later: nat)
    requires Counted(cfg, t, user, now, 65, 0) && LockDuration(cfg, 65) == 0 && now <= later && now < TWO_TO_64
    ensures user in t.locked && t.locked[user] == Lockout(now, 0, 65) && !IsLocked(t, user, later)
  {
    hide LockDuration;
  }
}
