/** The fixed-window limiter of messages per address, per sender, or per pair of both. */
module MessageRateLimiter {
  import opened Basics
  import opened Timestamps

  // ---- Keys --------------------------------------------------------------------

  /** An address is its printed text. */
  datatype Key =
    | ByIp(ip: string)
    | BySender(sender: string)
    | ByIpAndSender(ip: string, sender: string)

  function KeyString(key: Key): string {
    match key
    case ByIp(ip) => "ip:" + ip
    case BySender(sender) => "sender:" + sender
    case ByIpAndSender(ip, sender) => "ip+sender:" + ip + ":" + sender
  }

  /** The address text of a combined key has no colon, as every IPv4 address. */
  predicate ColonFree(key: Key) {
    key.ByIpAndSender? ==> ':' !in key.ip
  }

  lemma KeyStringStarts(key: Key)
    ensures var s := KeyString(key);
            match key
            case ByIp(ip) => s[..3] == "ip:" && s[3..] == ip
            case BySender(sender) => s[..7] == "sender:" && s[7..] == sender
            case ByIpAndSender(ip, sender) => s[..10] == "ip+sender:" && s[10..] == ip + [':'] + sender
  {
    if key.ByIpAndSender? {
      assert KeyString(key) == "ip+sender:" + (key.ip + [':'] + key.sender);
    }
  }

  /** `b` moves a piece of `a`'s sender, up to a colon, to the address. */
  ghost predicate Shifted(a: Key, b: Key, piece: string) {
    && a.ByIpAndSender? && b.ByIpAndSender?
    && b.ip == a.ip + [':'] + piece && a.sender == piece + [':'] + b.sender
  }

  lemma ShiftedText(a: Key, b: Key, piece: string)
    requires Shifted(a, b, piece)
    ensures a != b && KeyString(a) == KeyString(b)
  {
    KeyStringStarts(a);
    KeyStringStarts(b);
    assert a.ip + [':'] + (piece + [':'] + b.sender) == (a.ip + [':'] + piece) + [':'] + b.sender;
    assert KeyString(a) == "ip+sender:" + (a.ip + [':'] + a.sender);
    assert KeyString(b) == "ip+sender:" + (b.ip + [':'] + b.sender);
    assert |b.ip| > |a.ip|;
  }

  lemma LongerAddress(ip: string, sender: string, ip1: string, sender1: string) returns (piece: string)
    requires ip + [':'] + sender == ip1 + [':'] + sender1 && |ip| < |ip1|
    ensures ip1 == ip + [':'] + piece && sender == piece + [':'] + sender1
  {
    var s := ip + [':'] + sender;
    piece := ip1[|ip| + 1..];
    assert ip1 == s[..|ip1|] && ip == s[..|ip|] && s[|ip|] == ':';
    assert sender == s[|ip| + 1..];
    assert s == ip1 + [':'] + sender1;
    assert sender == piece + [':'] + sender1;
  }

  /** Two different keys share a bucket exactly when both are pairs and one is the other shifted. */
  lemma KeysCollideIff(a: Key, b: Key)
    requires a != b
    ensures KeyString(a) == KeyString(b) <==> exists piece :: Shifted(a, b, piece) || Shifted(b, a, piece)
  {
    forall piece | Shifted(a, b, piece) ensures KeyString(a) == KeyString(b) { ShiftedText(a, b, piece); }
    forall piece | Shifted(b, a, piece) ensures KeyString(a) == KeyString(b) { ShiftedText(b, a, piece); }
    if KeyString(a) == KeyString(b) {
      SameKind(a, b);
      if |a.ip| < |b.ip| {
        var piece := LongerAddress(a.ip, a.sender, b.ip, b.sender);
        assert Shifted(a, b, piece);
      } else if |a.ip| == |b.ip| {
        EqualLengths(a.ip, a.sender, b.ip, b.sender);
      } else {
        var piece := LongerAddress(b.ip, b.sender, a.ip, a.sender);
        assert Shifted(b, a, piece);
      }
    }
  }

  /** The third character tells the kinds of keys apart. */
  function Mark(key: Key): char {
    match key case ByIp(_) => ':' case BySender(_) => 'n' case ByIpAndSender(_, _) => '+'
  }

  lemma KeyMark(key: Key)
    ensures |KeyString(key)| > 2 && KeyString(key)[2] == Mark(key)
  {
  }

  /** With IPv6 addresses this happens: `::1` with the sender `2:bob`, and `::1:2` with `bob`. */
  lemma Ipv6AddressesCollide()
    ensures var a, b := ByIpAndSender("::1", "2:bob"), ByIpAndSender("::1:2", "bob");
            a != b && KeyString(a) == KeyString(b)
  {
    var a, b := ByIpAndSender("::1", "2:bob"), ByIpAndSender("::1:2", "bob");
    assert b.ip == a.ip + [':'] + "2" && a.sender == "2" + [':'] + b.sender;
    hide KeyString;
    ShiftedText(a, b, "2");
  }

  /** Different keys with one string are both pairs, of the same text. */
  lemma SameKind(a: Key, b: Key)
    requires a != b && KeyString(a) == KeyString(b)
    ensures a.ByIpAndSender? && b.ByIpAndSender? && a.ip + [':'] + a.sender == b.ip + [':'] + b.sender
  {
    KeyStringStarts(a);
    KeyStringStarts(b);
    KeyMark(a);
    KeyMark(b);
    hide KeyString;
  }

  lemma EqualLengths(ip: string, sender: string, ip1: string, sender1: string)
    requires ip + [':'] + sender == ip1 + [':'] + sender1 && |ip| == |ip1|
    ensures ip == ip1 && sender == sender1
  {
    var s := ip + [':'] + sender;
    assert ip == s[..|ip|] == ip1;
    assert sender == s[|ip| + 1..] == sender1;
  }

  lemma ShiftedHasColon(a: Key, b: Key, piece: string)
    requires Shifted(a, b, piece)
    ensures !ColonFree(b)
  {
    assert b.ip[|a.ip|] == ':';
  }

  /** So keys whose combined addresses are colon-free never share a bucket. */
  lemma KeyStringsAreDistinct(a: Key, b: Key)
    requires ColonFree(a) && ColonFree(b)
    ensures KeyString(a) == KeyString(b) <==> a == b
  {
    hide KeyString;
    if a != b {
      KeysCollideIff(a, b);
      forall piece ensures !Shifted(a, b, piece) && !Shifted(b, a, piece) {
        if Shifted(a, b, piece) {
          ShiftedHasColon(a, b, piece);
        } else if Shifted(b, a, piece) {
          ShiftedHasColon(b, a, piece);
        }
      }
    }
  }

  // ---- The limiter ----------------------------------------------------------------

  datatype Config = Config(maxMessages: nat, windowSecs: nat)

  datatype Bucket = Bucket(count: nat, windowStart: nat)

  type Buckets = map<string, Bucket>

  /** Elapsed time saturates at zero if the wall clock went back. */
  predicate Expired(b: Bucket, now: nat, windowSecs: nat) {
    (if b.windowStart <= now then now - b.windowStart else 0) >= windowSecs
  }

  function Allow(cfg: Config, buckets: Buckets, key: string, now: nat): (Buckets, bool) {
    if key !in buckets || Expired(buckets[key], now, cfg.windowSecs) then
      (buckets[key := Bucket(1, now)], true)
    else if buckets[key].count >= cfg.maxMessages then (buckets, false)
    else (buckets[key := buckets[key].(count := buckets[key].count + 1)], true)
  }

  class RateLimiter {
    var config: Config
    var buckets: Buckets

    constructor (config: Config)
      ensures this.config == config && buckets == map[]
    {
      this.config := config;
      buckets := map[];
    }

    method AllowMessageKeyed(key: Key, now: nat) returns (allowed: bool)
      modifies this`buckets
      ensures (buckets, allowed) == Allow(config, old(buckets), KeyString(key), now)
    {
      var keyString := KeyString(key);
      if keyString in buckets {
        var entry := buckets[keyString];
        if Expired(entry, now, config.windowSecs) {
          buckets := buckets[keyString := Bucket(1, now)];
          allowed := true;
        } else if entry.count >= config.maxMessages {
          allowed := false;
        } else {
          buckets := buckets[keyString := entry.(count := entry.count + 1)];
          allowed := true;
        }
      } else {
        buckets := buckets[keyString := Bucket(1, now)];
        allowed := true;
      }
    }
  }

  /** A wall clock that is set back keeps the window open: it then counts as just begun. */
  lemma ClockSetBackKeepsWindow(cfg: Config, buckets: Buckets, key: string, now: nat)
    requires key in buckets && now < buckets[key].windowStart && cfg.windowSecs > 0
    ensures var (after, allowed) := Allow(cfg, buckets, key, now);
            && (allowed <==> buckets[key].count < cfg.maxMessages)
            && after == if allowed then buckets[key := Bucket(buckets[key].count + 1, buckets[key].windowStart)]
                        else buckets
  {
  }

  // ---- Timed runs --------------------------------------------------------------------

  datatype Offer = Offer(key: Key, now: nat)

  ghost function After(cfg: Config, offers: seq<Offer>): Buckets {
    if offers == [] then map[]
    else
      var last := offers[|offers| - 1];
      Allow(cfg, After(cfg, offers[..|offers| - 1]), KeyString(last.key), last.now).0
  }

  ghost predicate Allowed(cfg: Config, before: seq<Offer>, offer: Offer) {
    Allow(cfg, After(cfg, before), KeyString(offer.key), offer.now).1
  }

  /** The times of the admitted messages whose key has the string `key`. */
  ghost function Admitted(cfg: Config, offers: seq<Offer>, key: string): seq<nat> {
    if offers == [] then []
    else
      var front, last := offers[..|offers| - 1], offers[|offers| - 1];
      if KeyString(last.key) == key && Allowed(cfg, front, last) then Admitted(cfg, front, key) + [last.now]
      else Admitted(cfg, front, key)
  }

  /** The times of all messages offered under that string. */
  ghost function Offered(offers: seq<Offer>, key: string): seq<nat> {
    if offers == [] then []
    else
      var front, last := offers[..|offers| - 1], offers[|offers| - 1];
      if KeyString(last.key) == key then Offered(front, key) + [last.now] else Offered(front, key)
  }

  ghost predicate Timed(offers: seq<Offer>) {
    forall i, j :: 0 <= i <= j < |offers| ==> offers[i].now <= offers[j].now
  }

  ghost predicate NotAfter(offers: seq<Offer>, now: nat) {
    offers != [] ==> offers[|offers| - 1].now <= now
  }

  lemma TimedFront(offers: seq<Offer>)
    requires Timed(offers) && offers != []
    ensures Timed(offers[..|offers| - 1]) && NotAfter(offers[..|offers| - 1], offers[|offers| - 1].now)
  {
  }

  // ---- How much one window length can hold ------------------------------------------------

  function AtLeastOne(n: nat): nat { if n == 0 then 1 else n }

  /** The most messages of one key that any interval of one window length can hold: the length is
      counted in whole seconds, and the first message of a window opens it. */
  function MostPerInterval(cfg: Config): nat {
    var max := AtLeastOne(cfg.maxMessages);
    if cfg.windowSecs == 0 then 0 else if cfg.windowSecs == 1 then max else 2 * max - 1
  }

  /** From the first to the last second of a window. */
  function LastSecond(cfg: Config): nat { if cfg.windowSecs == 0 then 0 else cfg.windowSecs - 1 }

  /** The admissions of a key, cut into those of its current window, those of the one before
      except its first, and older ones, which lie at least a whole window length before the current
      one starts. */
  ghost predicate Windows(cfg: Config, older: seq<nat>, previous: seq<nat>, current: seq<nat>, b: Bucket) {
    && 1 <= |current| == b.count <= AtLeastOne(cfg.maxMessages)
    && current[0] == b.windowStart
    && AllAtMost(current, b.windowStart + LastSecond(cfg))
    && |previous| < AtLeastOne(cfg.maxMessages)
    && AllAtMost(previous, b.windowStart + LastSecond(cfg) - cfg.windowSecs)
    && AllAtMost(older, b.windowStart - cfg.windowSecs)
  }

  lemma WindowsBound(cfg: Config, older: seq<nat>, previous: seq<nat>, current: seq<nat>, b: Bucket, t: int)
    requires Windows(cfg, older, previous, current, b) && b.windowStart <= t
    ensures CountIn(older + previous + current, t - cfg.windowSecs, t) <= MostPerInterval(cfg)
  {
    var lo := t - cfg.windowSecs;
    if cfg.windowSecs == 0 {
      CountEmpty(older + previous + current, t);
    } else {
      CountAppend(older + previous, current, lo, t);
      CountAppend(older, previous, lo, t);
      CountNone(older, lo, t);
      if cfg.windowSecs == 1 {
        CountNone(previous, lo, t);
      }
    }
  }

  lemma {:induction false} CountEmpty(s: seq<nat>, t: int)
    ensures CountIn(s, t, t) == 0
  {
    if s != [] {
      CountEmpty(s[..|s| - 1], t);
    }
  }

  lemma AtMostAppend(a: seq<nat>, b: seq<nat>, t: int)
    ensures AllAtMost(a + b, t) <==> AllAtMost(a, t) && AllAtMost(b, t)
  {
    assert forall i :: 0 <= i < |a| ==> (a + b)[i] == a[i];
    assert forall i :: 0 <= i < |b| ==> (a + b)[|a| + i] == b[i];
  }

  lemma NextWindow(cfg: Config, older: seq<nat>, previous: seq<nat>, current: seq<nat>, b: Bucket, now: nat)
    requires Windows(cfg, older, previous, current, b) && b.windowStart + cfg.windowSecs <= now
    ensures Windows(cfg, older + previous + current[..1], current[1..], [now], Bucket(1, now))
    ensures older + previous + current == (older + previous + current[..1]) + current[1..]
  {
    assert current == current[..1] + current[1..];
    AtMostAppend(current[..1], current[1..], now + LastSecond(cfg) - cfg.windowSecs);
    AtMostAppend(older, previous, now - cfg.windowSecs);
    AtMostAppend(older + previous, current[..1], now - cfg.windowSecs);
    AtMostAppend([now], [], now + LastSecond(cfg));
  }

  lemma {:induction false} AdmittedNotAfter(cfg: Config, offers: seq<Offer>, key: string, now: nat)
    requires Timed(offers) && NotAfter(offers, now)
    ensures AllAtMost(Admitted(cfg, offers, key), now)
  {
    if offers != [] {
      hide Timed, Allowed;
      TimedFront(offers);
      AdmittedNotAfter(cfg, offers[..|offers| - 1], key, offers[|offers| - 1].now);
    }
  }

  function LastTime(offers: seq<Offer>): nat {
    if offers == [] then 0 else offers[|offers| - 1].now
  }

  lemma {:induction false} CutIntoWindows(cfg: Config, offers: seq<Offer>, key: string)
    returns (older: seq<nat>, previous: seq<nat>, current: seq<nat>)
    requires Timed(offers)
    ensures Admitted(cfg, offers, key) == older + previous + current
    ensures var buckets := After(cfg, offers);
            if key in buckets then
              Windows(cfg, older, previous, current, buckets[key]) && buckets[key].windowStart <= LastTime(offers)
            else older == previous == current == []
  {
    older, previous, current := [], [], [];
    if offers != [] {
      hide Windows, Timed, KeyString;
      var front, last := offers[..|offers| - 1], offers[|offers| - 1];
      TimedFront(offers);
      older, previous, current := CutIntoWindows(cfg, front, key);
      if KeyString(last.key) == key && Allowed(cfg, front, last) {
        var buckets := After(cfg, front);
        AdmittedNotAfter(cfg, front, key, last.now);
        if key !in buckets {
          current := [last.now];
          FirstWindow(cfg, last.now);
        } else if Expired(buckets[key], last.now, cfg.windowSecs) {
          WindowIsNotEmpty(cfg, older, previous, current, buckets[key]);
          NextWindow(cfg, older, previous, current, buckets[key], last.now);
          older, previous, current := older + previous + current[..1], current[1..], [last.now];
        } else {
          SameWindow(cfg, older, previous, current, buckets[key], last.now);
          current := current + [last.now];
        }
      }
    }
  }

  lemma WindowIsNotEmpty(cfg: Config, older: seq<nat>, previous: seq<nat>, current: seq<nat>, b: Bucket)
    requires Windows(cfg, older, previous, current, b)
    ensures current != []
  {
  }

  lemma FirstWindow(cfg: Config, now: nat)
    ensures Windows(cfg, [], [], [now], Bucket(1, now))
  {
  }

  lemma SameWindow(cfg: Config, older: seq<nat>, previous: seq<nat>, current: seq<nat>, b: Bucket, now: nat)
    requires Windows(cfg, older, previous, current, b) && b.count < cfg.maxMessages
    requires !Expired(b, now, cfg.windowSecs)
    ensures Windows(cfg, older, previous, current + [now], b.(count := b.count + 1))
  {
    AtMostAppend(current, [now], b.windowStart + LastSecond(cfg));
  }

  /** No interval of one window length admits more than that for a key: fewer than twice the
      maximum, where a maximum of 0 acts as 1. */
  lemma {:induction false} FewerThanTwiceTheMaximum(cfg: Config, offers: seq<Offer>, key: string, t: int)
    requires Timed(offers)
    ensures CountIn(Admitted(cfg, offers, key), t - cfg.windowSecs, t) <= MostPerInterval(cfg)
    ensures MostPerInterval(cfg) < 2 * AtLeastOne(cfg.maxMessages)
  {
    if offers != [] {
      hide Timed, Windows, After, CountIn, KeyString, Allowed;
      var front, last := offers[..|offers| - 1], offers[|offers| - 1];
      TimedFront(offers);
      if last.now <= t {
        var older, previous, current := CutIntoWindows(cfg, offers, key);
        if key in After(cfg, offers) {
          WindowsBound(cfg, older, previous, current, After(cfg, offers)[key], t);
        } else {
          CountNone([], t - cfg.windowSecs, t);
        }
      } else {
        FewerThanTwiceTheMaximum(cfg, front, key, t);
        CountSnoc(Admitted(cfg, front, key), last.now, t - cfg.windowSecs, t);
      }
    } else {
      CountNone([], t - cfg.windowSecs, t);
    }
  }

  /** `k` messages at one time, all under one key. */
  ghost function Burst(key: Key, now: nat, k: nat): seq<Offer> {
    if k == 0 then [] else Burst(key, now, k - 1) + [Offer(key, now)]
  }

  lemma OneMoreOffer(cfg: Config, offers: seq<Offer>, key: Key, now: nat)
    ensures var s, more := KeyString(key), offers + [Offer(key, now)];
            && After(cfg, more) == Allow(cfg, After(cfg, offers), s, now).0
            && Admitted(cfg, more, s)
               == Admitted(cfg, offers, s) + (if Allow(cfg, After(cfg, offers), s, now).1 then [now] else [])
  {
    hide KeyString, Expired;
    assert (offers + [Offer(key, now)])[..|offers|] == offers;
  }

  /** A burst into an open window with room for it is admitted. */
  lemma {:induction false} BurstIsAdmitted(cfg: Config, offers: seq<Offer>, key: Key, now: nat, k: nat)
    requires var s := KeyString(key); s in After(cfg, offers)
    requires var b := After(cfg, offers)[KeyString(key)];
             !Expired(b, now, cfg.windowSecs) && 1 <= b.count && b.count + k <= AtLeastOne(cfg.maxMessages)
    ensures var s, buckets := KeyString(key), After(cfg, offers);
            After(cfg, offers + Burst(key, now, k)) == buckets[s := buckets[s].(count := buckets[s].count + k)]
    ensures Admitted(cfg, offers + Burst(key, now, k), KeyString(key))
            == Admitted(cfg, offers, KeyString(key)) + Copies(now, k)
  {
    hide KeyString, After, Admitted;
    if k == 0 {
      assert offers + [] == offers;
      assert Admitted(cfg, offers, KeyString(key)) + [] == Admitted(cfg, offers, KeyString(key));
    } else {
      var shorter := offers + Burst(key, now, k - 1);
      BurstIsAdmitted(cfg, offers, key, now, k - 1);
      OneMoreOffer(cfg, shorter, key, now);
      assert offers + Burst(key, now, k) == shorter + [Offer(key, now)];
      assert Admitted(cfg, offers, KeyString(key)) + Copies(now, k)
          == (Admitted(cfg, offers, KeyString(key)) + Copies(now, k - 1)) + [now];
    }
  }

  lemma OfferIsTimed(offers: seq<Offer>, key: Key, now: nat)
    requires Timed(offers) && NotAfter(offers, now)
    ensures Timed(offers + [Offer(key, now)])
  {
  }

  lemma {:induction false} BurstIsTimed(offers: seq<Offer>, key: Key, now: nat, k: nat)
    requires Timed(offers) && NotAfter(offers, now)
    ensures Timed(offers + Burst(key, now, k)) && NotAfter(offers + Burst(key, now, k), now)
  {
    if k == 0 {
      assert offers + [] == offers;
    } else {
      BurstIsTimed(offers, key, now, k - 1);
      assert offers + Burst(key, now, k) == (offers + Burst(key, now, k - 1)) + [Offer(key, now)];
      hide Timed;
      OfferIsTimed(offers + Burst(key, now, k - 1), key, now);
    }
  }

  /** One message opens a window, and the rest of its maximum follows at the time `fill`. */
  ghost function FullWindow(cfg: Config, key: Key, open: nat, fill: nat): seq<Offer> {
    [Offer(key, open)] + Burst(key, fill, AtLeastOne(cfg.maxMessages) - 1)
  }

  lemma FullWindowIsTimed(cfg: Config, offers: seq<Offer>, key: Key, open: nat, fill: nat)
    requires open <= fill && Timed(offers) && NotAfter(offers, open)
    ensures var more := offers + FullWindow(cfg, key, open, fill); Timed(more) && NotAfter(more, fill)
  {
    var rest := AtLeastOne(cfg.maxMessages) - 1;
    OfferIsTimed(offers, key, open);
    BurstIsTimed(offers + [Offer(key, open)], key, fill, rest);
    assert offers + ([Offer(key, open)] + Burst(key, fill, rest))
        == (offers + [Offer(key, open)]) + Burst(key, fill, rest);
  }

  /** No window of the key is open. */
  ghost predicate Closed(cfg: Config, offers: seq<Offer>, key: Key, now: nat) {
    var s, buckets := KeyString(key), After(cfg, offers);
    s in buckets ==> Expired(buckets[s], now, cfg.windowSecs)
  }

  /** Whatever the limit is, the first message of a window passes. */
  lemma WindowOpens(cfg: Config, offers: seq<Offer>, key: Key, open: nat)
    requires Closed(cfg, offers, key, open)
    ensures Allowed(cfg, offers, Offer(key, open))
    ensures var s, more := KeyString(key), offers + [Offer(key, open)];
            && s in After(cfg, more) && After(cfg, more)[s] == Bucket(1, open)
            && Admitted(cfg, more, s) == Admitted(cfg, offers, s) + [open]
  {
    hide KeyString, After, Admitted, Expired;
    OneMoreOffer(cfg, offers, key, open);
  }

  /** With a limit of 0 exactly the messages that open a window pass. */
  lemma ZeroLimitAdmitsFirstMessages(cfg: Config, offers: seq<Offer>, key: Key, now: nat)
    requires cfg.maxMessages == 0
    ensures Allowed(cfg, offers, Offer(key, now)) <==> Closed(cfg, offers, key, now)
  {
    hide KeyString, After, Expired;
  }

  lemma FullWindowParts(cfg: Config, key: Key, open: nat, fill: nat)
    requires open <= fill < open + cfg.windowSecs
    ensures FullWindow(cfg, key, open, fill) == [Offer(key, open)] + Burst(key, fill, AtLeastOne(cfg.maxMessages) - 1)
    ensures !Expired(Bucket(1, open), fill, cfg.windowSecs)
    ensures Expired(Bucket(AtLeastOne(cfg.maxMessages), open), open + cfg.windowSecs, cfg.windowSecs)
    ensures AtLeastOne(cfg.maxMessages) >= 1
  {
    hide Burst;
  }

  lemma FullWindowIsAdmitted(cfg: Config, offers: seq<Offer>, key: Key, open: nat, fill: nat)
    requires open <= fill < open + cfg.windowSecs && Closed(cfg, offers, key, open)
    ensures var s, more, max := KeyString(key), offers + FullWindow(cfg, key, open, fill), AtLeastOne(cfg.maxMessages);
            && s in After(cfg, more) && After(cfg, more)[s] == Bucket(max, open)
            && Admitted(cfg, more, s) == Admitted(cfg, offers, s) + ([open] + Copies(fill, max - 1))
  {
    hide *;
    FullWindowParts(cfg, key, open, fill);
    var one, rest := [Offer(key, open)], Burst(key, fill, AtLeastOne(cfg.maxMessages) - 1);
    WindowOpens(cfg, offers, key, open);
    BurstIsAdmitted(cfg, offers + one, key, fill, AtLeastOne(cfg.maxMessages) - 1);
    Regroup(offers, one, rest);
    Regroup(Admitted(cfg, offers, KeyString(key)), [open], Copies(fill, AtLeastOne(cfg.maxMessages) - 1));
  }

  lemma NothingYet(cfg: Config, key: Key, now: nat)
    ensures After(cfg, []) == map[] && Admitted(cfg, [], KeyString(key)) == [] && Timed([]) && NotAfter([], now)
    ensures Closed(cfg, [], key, now)
  {
  }

  lemma LaterIsNotAfter(offers: seq<Offer>, now: nat, later: nat)
    requires NotAfter(offers, now) && now <= later
    ensures NotAfter(offers, later)
  {
  }

  lemma FullBucketCloses(cfg: Config, offers: seq<Offer>, key: Key, open: nat)
    requires KeyString(key) in After(cfg, offers)
    requires After(cfg, offers)[KeyString(key)] == Bucket(AtLeastOne(cfg.maxMessages), open)
    ensures Closed(cfg, offers, key, open + cfg.windowSecs)
  {
    hide KeyString, After;
  }

  /** The run that meets the bound for windows of two seconds or more: a window filled in its last
      second, then a full next one. */
  lemma TwoFullWindows(cfg: Config, key: Key, start: nat) returns (offers: seq<Offer>)
    requires cfg.windowSecs >= 2
    ensures Timed(offers)
    ensures var rest, next := AtLeastOne(cfg.maxMessages) - 1, start + cfg.windowSecs;
            Admitted(cfg, offers, KeyString(key))
            == ([start] + Copies(next - 1, rest)) + ([next] + Copies(next, rest))
  {
    hide *;
    var late, next := start + cfg.windowSecs - 1, start + cfg.windowSecs;
    var first := FullWindow(cfg, key, start, late);
    offers := first + FullWindow(cfg, key, next, next);
    NothingYet(cfg, key, start);
    FullWindowParts(cfg, key, start, late);
    assert [] + first == first;
    FullWindowIsTimed(cfg, [], key, start, late);
    LaterIsNotAfter(first, late, next);
    FullWindowIsTimed(cfg, first, key, next, next);
    FullWindowIsAdmitted(cfg, [], key, start, late);
    var copies := Copies(late, AtLeastOne(cfg.maxMessages) - 1);
    assert [] + ([start] + copies) == [start] + copies;
    FullBucketCloses(cfg, first, key, start);
    FullWindowIsAdmitted(cfg, first, key, next, next);
  }

  lemma OneFullWindow(cfg: Config, key: Key, start: nat) returns (offers: seq<Offer>)
    requires cfg.windowSecs >= 1
    ensures Timed(offers)
    ensures Admitted(cfg, offers, KeyString(key)) == [start] + Copies(start, AtLeastOne(cfg.maxMessages) - 1)
  {
    hide *;
    offers := FullWindow(cfg, key, start, start);
    NothingYet(cfg, key, start);
    FullWindowParts(cfg, key, start, start);
    assert [] + offers == offers;
    FullWindowIsTimed(cfg, [], key, start, start);
    FullWindowIsAdmitted(cfg, [], key, start, start);
    var copies := Copies(start, AtLeastOne(cfg.maxMessages) - 1);
    assert [] + ([start] + copies) == [start] + copies;
  }

  lemma CountOneWindow(open: nat, fill: nat, rest: nat, lo: int, hi: int)
    ensures CountIn([open] + Copies(fill, rest), lo, hi)
            == (if lo < open <= hi then 1 else 0) + (if lo < fill <= hi then rest else 0)
  {
    hide CountIn, Copies;
    CountAppend([open], Copies(fill, rest), lo, hi);
    CountCopies(fill, rest, lo, hi);
    CountNone([], lo, hi);
    CountSnoc([], open, lo, hi);
    assert [] + [open] == [open];
  }

  /** The bound is met, for every configuration and key: some run admits that many messages in one
      interval of one window length. */
  lemma BoundIsTight(cfg: Config, key: Key, start: nat) returns (offers: seq<Offer>, t: int)
    ensures Timed(offers)
    ensures CountIn(Admitted(cfg, offers, KeyString(key)), t - cfg.windowSecs, t) == MostPerInterval(cfg)
  {
    hide Timed, KeyString, Admitted, CountIn, Copies;
    var rest := AtLeastOne(cfg.maxMessages) - 1;
    if cfg.windowSecs == 0 {
      offers, t := [], start;
      NothingYet(cfg, key, start);
      CountEmpty([], t);
    } else if cfg.windowSecs == 1 {
      offers := OneFullWindow(cfg, key, start);
      t := start;
      CountOneWindow(start, start, rest, t - cfg.windowSecs, t);
    } else {
      offers := TwoFullWindows(cfg, key, start);
      t := start + cfg.windowSecs;
      CountAppend([start] + Copies(t - 1, rest), [t] + Copies(t, rest), start, t);
      CountOneWindow(start, t - 1, rest, start, t);
      CountOneWindow(t, t, rest, start, t);
    }
  }

  // ---- A modest sender is never refused ---------------------------------------------------

  lemma {:induction false} OfferedNotAfter(offers: seq<Offer>, key: string, now: nat)
    requires Timed(offers) && NotAfter(offers, now)
    ensures AllAtMost(Offered(offers, key), now)
  {
    if offers != [] {
      hide Timed;
      TimedFront(offers);
      OfferedNotAfter(offers[..|offers| - 1], key, offers[|offers| - 1].now);
    }
  }

  /** A bucket never counts more messages than were offered since its window began. */
  lemma {:induction false} CountedMessagesWereOffered(cfg: Config, offers: seq<Offer>, key: string, now: nat)
    requires Timed(offers) && NotAfter(offers, now)
    ensures key in After(cfg, offers) ==>
              var b := After(cfg, offers)[key];
              b.count <= CountIn(Offered(offers, key), b.windowStart - 1, now) && b.windowStart <= now
  {
    hide Timed, KeyString, CountIn, Allowed;
    if offers != [] && key in After(cfg, offers) {
      var front, last := offers[..|offers| - 1], offers[|offers| - 1];
      TimedFront(offers);
      CountedMessagesWereOffered(cfg, front, key, last.now);
      var start: int, times := After(cfg, offers)[key].windowStart, Offered(front, key);
      OfferedNotAfter(front, key, last.now);
      CountCovered(times, start - 1, last.now, start - 1, now);
      CountSnoc(times, last.now, start - 1, now);
    }
  }

  /** If a message is refused, more than the maximum were offered under its key in the interval
      of one window length that ends with it. */
  lemma RefusedOnlyWhenOffersExceedMaximum(cfg: Config, before: seq<Offer>, offer: Offer)
    requires Timed(before + [offer])
    requires !Allowed(cfg, before, offer)
    ensures CountIn(Offered(before + [offer], KeyString(offer.key)), offer.now - cfg.windowSecs, offer.now)
            > cfg.maxMessages
  {
    hide KeyString, CountIn, Timed;
    var all, key := before + [offer], KeyString(offer.key);
    assert all[..|all| - 1] == before;
    TimedFront(all);
    CountedMessagesWereOffered(cfg, before, key, offer.now);
    var b, times := After(cfg, before)[key], Offered(before, key);
    var lo := offer.now - cfg.windowSecs;
    CountCovered(times, b.windowStart - 1, offer.now, lo, offer.now);
    assert Offered(all, key) == times + [offer.now];
    CountSnoc(times, offer.now, lo, offer.now);
  }

  // ---- Keys do not influence each other ------------------------------------------------------

  /** The run without the offers of other keys. */
  ghost function OnlyKey(offers: seq<Offer>, key: Key): seq<Offer> {
    if offers == [] then []
    else
      var front, last := offers[..|offers| - 1], offers[|offers| - 1];
      if last.key == key then OnlyKey(front, key) + [last] else OnlyKey(front, key)
  }

  /** No other key of the run has the string of `key`. */
  ghost predicate NoCollision(offers: seq<Offer>, key: Key) {
    forall i :: 0 <= i < |offers| && KeyString(offers[i].key) == KeyString(key) ==> offers[i].key == key
  }

  lemma {:induction false} BucketDependsOnItsKey(cfg: Config, offers: seq<Offer>, key: Key)
    requires NoCollision(offers, key)
    ensures var s := KeyString(key);
            var full, own := After(cfg, offers), After(cfg, OnlyKey(offers, key));
            (s in full <==> s in own) && (s in full ==> full[s] == own[s])
  {
    hide KeyString, Expired;
    if offers != [] {
      var front, last := offers[..|offers| - 1], offers[|offers| - 1];
      BucketDependsOnItsKey(cfg, front, key);
      if last.key == key {
        var own := OnlyKey(offers, key);
        assert own[..|own| - 1] == OnlyKey(front, key);
      } else {
        assert OnlyKey(offers, key) == OnlyKey(front, key);
      }
    }
  }

  /** Deleting all messages of other keys from a run leaves every decision for a key unchanged,
      if no other key has the same string. */
  lemma DecisionsAreIsolated(cfg: Config, before: seq<Offer>, offer: Offer)
    requires NoCollision(before, offer.key)
    ensures Allowed(cfg, before, offer) <==> Allowed(cfg, OnlyKey(before, offer.key), offer)
  {
    hide KeyString, After;
    BucketDependsOnItsKey(cfg, before, offer.key);
  }

  /** That is so in every run whose combined keys carry colon-free addresses. */
  lemma ColonFreeKeysAreIsolated(cfg: Config, before: seq<Offer>, offer: Offer)
    requires ColonFree(offer.key) && forall i :: 0 <= i < |before| ==> ColonFree(before[i].key)
    ensures Allowed(cfg, before, offer) <==> Allowed(cfg, OnlyKey(before, offer.key), offer)
  {
    hide KeyString, Allowed;
    forall i | 0 <= i < |before| && KeyString(before[i].key) == KeyString(offer.key)
      ensures before[i].key == offer.key
    {
      KeyStringsAreDistinct(before[i].key, offer.key);
    }
    DecisionsAreIsolated(cfg, before, offer);
  }

  /** Any two keys that do collide can refuse each other's messages. */
  lemma CollidingKeysInterfere(a: Key, b: Key, windowSecs: nat, now: nat)
    requires a != b && KeyString(a) == KeyString(b) && windowSecs > 0
    ensures var cfg, before := Config(1, windowSecs), [Offer(b, now)];
            !Allowed(cfg, before, Offer(a, now)) && Allowed(cfg, OnlyKey(before, a), Offer(a, now))
  {
    hide KeyString;
    var before := [Offer(b, now)];
    assert before[..0] == [];
  }
}
