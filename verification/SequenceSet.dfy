/** Sequence sets: "1", "1:5", "1,3,5", "1:*" as message numbers and as UIDs. */
module SequenceSet {
  import opened Wrappers
  import opened Text

  /** The pieces between commas, each without surrounding blanks. */
  function Parts(sequence: string): (parts: seq<string>)
    ensures |parts| >= 1
  {
    TrimAll(Split(sequence, ','))
  }

  function TrimAll(pieces: seq<string>): (parts: seq<string>)
    ensures |parts| == |pieces|
    ensures forall i :: 0 <= i < |pieces| ==> parts[i] == Trim(pieces[i])
  {
    seq(|pieces|, i requires 0 <= i < |pieces| => Trim(pieces[i]))
  }

  /** Piece `i` of the text is part `i` between blanks. */
  ghost predicate Padded(pieces: seq<string>, parts: seq<string>) {
    && |pieces| == |parts|
    && forall i :: 0 <= i < |pieces| ==> PaddedPart(pieces[i], parts[i])
  }

  ghost predicate PaddedPart(piece: string, part: string) {
    && ',' !in piece && !Untrimmed(part)
    && exists before, after :: piece == before + part + after && AllWhitespace(before) && AllWhitespace(after)
  }

  /** Blanks around the members of a set do not matter. */
  lemma BlanksDoNotMatter(pieces: seq<string>, parts: seq<string>)
    requires pieces != [] && Padded(pieces, parts)
    ensures Parts(Join(pieces, ',')) == parts
  {
    hide Trim, Split, Join;
    forall i | 0 <= i < |pieces| ensures ',' !in pieces[i] && Trim(pieces[i]) == parts[i] {
      assert PaddedPart(pieces[i], parts[i]);
      var before, after :| && pieces[i] == before + parts[i] + after
                           && AllWhitespace(before) && AllWhitespace(after);
      TrimOfPadded(before, parts[i], after);
    }
    SplitOfJoin(pieces, ',');
  }

  /** The numbers from `lo` up to, not including, `end`. */
  function Range(lo: nat, end: nat): (r: set<nat>)
    ensures forall n :: n in r <==> lo <= n < end
  {
    if end <= lo then {} else Range(lo, end - 1) + {end - 1}
  }

  // ---- Message sequence numbers ---------------------------------------------

  function NumberOr(s: string, fallback: nat): nat {
    match ParseUnsigned(s, U64_MAX)
    case Some(n) => n
    case None => fallback
  }

  /** The numbers one part stands for in a mailbox of `max` messages. Malformed bounds fall back
      to 1 and to `max`; a part with two colons, or that is no number at all, stands for nothing. */
  function PartNumbers(part: string, max: nat): set<nat> {
    if ':' in part then
      var bounds := Split(part, ':');
      if |bounds| == 2 then
        var end := if bounds[1] == "*" then max else NumberOr(bounds[1], max);
        Range(NumberOr(bounds[0], 1), (if end <= max then end else max) + 1)
      else {}
    else if part == "*" then (if max > 0 then {max} else {})
    else
      match ParseUnsigned(part, U64_MAX)
      case Some(n) => if 0 < n <= max then {n} else {}
      case None => {}
  }

  function Union(parts: seq<string>, max: nat): set<nat> {
    if parts == [] then {}
    else Union(parts[..|parts| - 1], max) + PartNumbers(parts[|parts| - 1], max)
  }

  ghost predicate StrictlyIncreasing(s: seq<nat>) {
    forall i, j :: 0 <= i < j < |s| ==> s[i] < s[j]
  }

  ghost predicate Distinct(s: seq<nat>) {
    forall i, j :: 0 <= i < j < |s| ==> s[i] != s[j]
  }

  ghost function Elements<T>(s: seq<T>): set<T> {
    set x | x in s
  }

  /** The numbers a sequence set selects, in increasing order and each once. */
  method ParseSequenceNumbers(sequence: string, max: nat) returns (numbers: seq<nat>)
    ensures StrictlyIncreasing(numbers)
    ensures Elements(numbers) == Union(Parts(sequence), max)
  {
    hide Trim, Split, PartNumbers, Distinct, Elements;
    var parts := Split(sequence, ',');
    ghost var trimmed := Parts(sequence);
    numbers := [];
    NoElements();
    for p := 0 to |parts|
      invariant Distinct(numbers)
      invariant Elements(numbers) == Union(trimmed[..p], max)
    {
      numbers := AddPart(numbers, Trim(parts[p]), max);
      assert trimmed[..p + 1][..p] == trimmed[..p];
    }
    assert trimmed[..|parts|] == trimmed;
    numbers := Sort(numbers);
  }

  lemma NoElements()
    ensures Distinct([]) && Elements<nat>([]) == {}
  {
  }

  /** Adds what one part of the set selects. */
  method AddPart(numbers: seq<nat>, part: string, max: nat) returns (r: seq<nat>)
    requires Distinct(numbers)
    ensures Distinct(r) && Elements(r) == Elements(numbers) + PartNumbers(part, max)
  {
    hide Split, ParseUnsigned, Range, Distinct, Elements;
    r := numbers;
    if ':' in part {
      var bounds := Split(part, ':');
      if |bounds| == 2 {
        var start := NumberOr(bounds[0], 1);
        var end := if bounds[1] == "*" then max else NumberOr(bounds[1], max);
        var last := if end <= max then end else max;
        r := AddRange(r, start, last);
      }
    } else if part == "*" {
      if max > 0 {
        r := AddNumber(r, max);
      }
    } else {
      var n := ParseUnsigned(part, U64_MAX);
      if n.Some? && 0 < n.value <= max {
        r := AddNumber(r, n.value);
      }
    }
  }

  method AddNumber(numbers: seq<nat>, n: nat) returns (r: seq<nat>)
    requires Distinct(numbers)
    ensures Distinct(r) && Elements(r) == Elements(numbers) + {n}
  {
    r := if n in numbers then numbers else numbers + [n];
  }

  method AddRange(numbers: seq<nat>, start: nat, last: nat) returns (r: seq<nat>)
    requires Distinct(numbers)
    ensures Distinct(r) && Elements(r) == Elements(numbers) + Range(start, last + 1)
  {
    r := numbers;
    var n := start;
    while n <= last
      invariant start <= n && (n <= last + 1 || n == start)
      invariant Distinct(r)
      invariant Elements(r) == Elements(numbers) + Range(start, n)
    {
      r := AddNumber(r, n);
      n := n + 1;
    }
    assert Range(start, n) == Range(start, last + 1);
  }

  /** Insertion sort, for the library's `sort` on a list without repetitions. */
  method Sort(s: seq<nat>) returns (r: seq<nat>)
    requires Distinct(s)
    ensures StrictlyIncreasing(r) && Elements(r) == Elements(s)
  {
    r := [];
    for i := 0 to |s|
      invariant StrictlyIncreasing(r)
      invariant Elements(r) == Elements(s[..i])
    {
      assert s[i] !in Elements(s[..i]);
      var k := 0;
      while k < |r| && r[k] < s[i]
        invariant k <= |r|
        invariant forall j :: 0 <= j < k ==> r[j] < s[i]
      {
        k := k + 1;
      }
      assert r == r[..k] + r[k..];
      ghost var was := Elements(r);
      r := r[..k] + [s[i]] + r[k..];
      assert Elements(r) == was + {s[i]};
      assert s[..i + 1] == s[..i] + [s[i]];
    }
    assert s[..|s|] == s;
  }

  lemma FirstElement(s: seq<nat>)
    ensures s != [] ==> s[0] in Elements(s)
    ensures s == [] ==> Elements(s) == {}
  {
  }

  /** An increasing list is determined by its elements. */
  lemma {:induction false} IncreasingListIsUnique(a: seq<nat>, b: seq<nat>)
    requires StrictlyIncreasing(a) && StrictlyIncreasing(b) && Elements(a) == Elements(b)
    ensures a == b
  {
    FirstElement(a);
    FirstElement(b);
    if a != [] && b != [] {
      assert a[0] == b[0];
      assert a == [a[0]] + a[1..] && b == [b[0]] + b[1..];
      forall n
        ensures n in Elements(a[1..]) <==> n in Elements(b[1..])
      {
        assert n in Elements(a[1..]) <==> n in Elements(a) && n != a[0];
        assert n in Elements(b[1..]) <==> n in Elements(b) && n != b[0];
      }
      assert Elements(a[1..]) == Elements(b[1..]);
      IncreasingListIsUnique(a[1..], b[1..]);
    }
  }

  lemma {:induction false} UnionHolds(parts: seq<string>, max: nat, n: nat)
    ensures n in Union(parts, max) <==> exists i :: 0 <= i < |parts| && n in PartNumbers(parts[i], max)
  {
    if parts != [] {
      var front := parts[..|parts| - 1];
      UnionHolds(front, max, n);
      assert forall i :: 0 <= i < |front| ==> front[i] == parts[i];
    }
  }

  /** Reordering the parts of a sequence set, or repeating one, selects the same messages in the
      same order. */
  lemma OrderAndRepetitionDoNotMatter(a: string, b: string, max: nat, numbersA: seq<nat>, numbersB: seq<nat>)
    requires Elements(Parts(a)) == Elements(Parts(b))
    requires StrictlyIncreasing(numbersA) && Elements(numbersA) == Union(Parts(a), max)
    requires StrictlyIncreasing(numbersB) && Elements(numbersB) == Union(Parts(b), max)
    ensures numbersA == numbersB
  {
    forall n: nat
      ensures n in Union(Parts(a), max) <==> n in Union(Parts(b), max)
    {
      UnionHolds(Parts(a), max, n);
      UnionHolds(Parts(b), max, n);
      assert forall i :: 0 <= i < |Parts(a)| ==> Parts(a)[i] in Elements(Parts(b));
      assert forall i :: 0 <= i < |Parts(b)| ==> Parts(b)[i] in Elements(Parts(a));
    }
    assert Union(Parts(a), max) == Union(Parts(b), max);
    IncreasingListIsUnique(numbersA, numbersB);
  }

  /** A part that is a range starting at an explicit zero. */
  predicate StartsAtZero(part: string) {
    && ':' in part
    && |Split(part, ':')| == 2
    && ParseUnsigned(Split(part, ':')[0], U64_MAX) == Some(0)
  }

  /** Every selected number is a message number, except that a range written from zero also
      selects the number zero. */
  lemma SelectedNumbersAreInRange(sequence: string, max: nat)
    ensures forall n :: n in Union(Parts(sequence), max) ==> n <= max
    ensures 0 in Union(Parts(sequence), max)
       <==> exists i :: 0 <= i < |Parts(sequence)| && StartsAtZero(Parts(sequence)[i])
  {
    hide PartNumbers, StartsAtZero, Parts;
    var parts := Parts(sequence);
    UnionHolds(parts, max, 0);
    forall i | 0 <= i < |parts|
      ensures 0 in PartNumbers(parts[i], max) <==> StartsAtZero(parts[i])
    {
      PartIsInRange(parts[i], max);
    }
    forall n | n in Union(parts, max)
      ensures n <= max
    {
      UnionHolds(parts, max, n);
      var i :| 0 <= i < |parts| && n in PartNumbers(parts[i], max);
      PartIsInRange(parts[i], max);
    }
  }

  lemma PartIsInRange(part: string, max: nat)
    ensures forall n :: n in PartNumbers(part, max) ==> n <= max
    ensures 0 in PartNumbers(part, max) <==> StartsAtZero(part)
  {
  }

  /** FETCH answers for the selected numbers that name a message whose content the store still has:
      `stored` says so for each message. The zero is passed over. */
  method FetchTargets(sequence: string, stored: seq<bool>) returns (targets: seq<nat>)
    ensures StrictlyIncreasing(targets)
    ensures forall n :: n in targets <==>
              n in Union(Parts(sequence), |stored|) && 1 <= n <= |stored| && stored[n - 1]
    ensures forall n :: n in Union(Parts(sequence), |stored|) && n != 0 ==> n <= |stored|
  {
    hide Union, Parts;
    var numbers := ParseSequenceNumbers(sequence, |stored|);
    SelectedNumbersAreInRange(sequence, |stored|);
    targets := [];
    for i := 0 to |numbers|
      invariant StrictlyIncreasing(targets)
      invariant forall n :: n in targets <==> n in numbers[..i] && Answerable(stored, n)
    {
      var n := numbers[i];
      assert numbers[..i + 1] == numbers[..i] + [n];
      if 0 < n <= |stored| && stored[n - 1] {
        assert forall k :: 0 <= k < |targets| ==> targets[k] in targets;
        ghost var before := targets;
        targets := targets + [n];
        assert forall x :: x in targets <==> x in before || x == n;
      }
    }
    assert numbers[..|numbers|] == numbers;
    assert forall n :: n in numbers <==> n in Elements(numbers);
  }

  predicate Answerable(stored: seq<bool>, n: nat) { 1 <= n <= |stored| && stored[n - 1] }

  // ---- UIDs -------------------------------------------------------------------

  datatype Error = InvalidRange | InvalidNumber

  /** One end of a UID range. */
  function UidBound(s: string, maxUid: nat): Option<nat> {
    if s == "*" then Some(maxUid) else ParseUnsigned(s, U32_MAX)
  }

  /** The two ends of a part; a single UID is a range from itself to itself. */
  function UidRange(part: string, maxUid: nat): Result<(nat, nat), Error> {
    if ':' in part then
      var bounds := Split(part, ':');
      if |bounds| != 2 then Err(InvalidRange)
      else
        match (UidBound(bounds[0], maxUid), UidBound(bounds[1], maxUid))
        case (Some(lo), Some(hi)) => Ok((lo, hi))
        case _ => Err(InvalidNumber)
    else
      match UidBound(part, maxUid)
      case Some(uid) => Ok((uid, uid))
      case None => Err(InvalidNumber)
  }

  /** Every part has two readable ends. */
  predicate AllReadable(parts: seq<string>, maxUid: nat) {
    forall i :: 0 <= i < |parts| ==> UidRange(parts[i], maxUid).Ok?
  }

  /** What the code selects: a range counts upwards from its first end. */
  ghost function CodeUids(parts: seq<string>, maxUid: nat): set<nat>
    requires AllReadable(parts, maxUid)
  {
    if parts == [] then {}
    else
      var (lo, hi) := UidRange(parts[|parts| - 1], maxUid).value;
      CodeUids(parts[..|parts| - 1], maxUid) + Range(lo, hi + 1)
  }

  /** What section 9 of RFC 3501 denotes: all UIDs between the two ends, in either order. */
  ghost predicate RfcSelects(parts: seq<string>, maxUid: nat, uid: nat)
    requires AllReadable(parts, maxUid)
  {
    exists i :: 0 <= i < |parts| && Between(UidRange(parts[i], maxUid).value, uid)
  }

  predicate Between(ends: (nat, nat), uid: nat) {
    ends.0 <= uid <= ends.1 || ends.1 <= uid <= ends.0
  }

  predicate Upwards(ends: (nat, nat), uid: nat) { ends.0 <= uid <= ends.1 }

  predicate Ascending(ends: (nat, nat)) { ends.0 <= ends.1 }

  /** The highest UID in the mailbox, which `*` stands for; 0 in an empty one. */
  function MaxUid(uids: seq<nat>): (m: nat)
    ensures uids == [] ==> m == 0
    ensures uids != [] ==> m in uids
    ensures forall i :: 0 <= i < |uids| ==> uids[i] <= m
  {
    if uids == [] then 0
    else
      var m := MaxUid(uids[..|uids| - 1]);
      if |uids| > 1 && m > uids[|uids| - 1] then m else uids[|uids| - 1]
  }

  method AddUids(selected: set<nat>, lo: nat, hi: nat) returns (r: set<nat>)
    ensures r == selected + Range(lo, hi + 1)
  {
    r := selected;
    var uid := lo;
    while uid <= hi
      invariant lo <= uid && (uid <= hi + 1 || uid == lo)
      invariant r == selected + Range(lo, uid)
    {
      r := r + {uid};
      uid := uid + 1;
    }
    assert Range(lo, uid) == Range(lo, hi + 1);
  }

  lemma CodeUidsStep(parts: seq<string>, p: nat, maxUid: nat)
    requires p < |parts| && AllReadable(parts[..p], maxUid) && UidRange(parts[p], maxUid).Ok?
    ensures AllReadable(parts[..p + 1], maxUid)
    ensures var (lo, hi) := UidRange(parts[p], maxUid).value;
            CodeUids(parts[..p + 1], maxUid) == CodeUids(parts[..p], maxUid) + Range(lo, hi + 1)
  {
    hide UidRange, Range;
    assert parts[..p + 1][..p] == parts[..p];
  }

  lemma UnreadablePart(sequence: string, p: nat, maxUid: nat, error: Error)
    requires p < |Parts(sequence)| && UidRange(Parts(sequence)[p], maxUid).Err?
    ensures Selection(sequence, maxUid, Err(error))
  {
    hide UidRange, Parts, CodeUids;
  }

  /** Succeeds exactly when every part is readable; then it is the union of the upward ranges. */
  method ParseUidSequenceSet(sequence: string, uids: seq<nat>) returns (r: Result<set<nat>, Error>)
    ensures Selection(sequence, MaxUid(uids), r)
  {
    hide UidRange, Split, Trim, Range, CodeUids, AllReadable;
    var maxUid := MaxUid(uids);
    var selected: set<nat> := {};
    var pieces := Split(sequence, ',');
    ghost var parts := Parts(sequence);
    NothingSelected(maxUid);
    assert parts[..0] == [];
    for p := 0 to |pieces|
      invariant AllReadable(parts[..p], maxUid)
      invariant selected == CodeUids(parts[..p], maxUid)
    {
      assert parts[p] == Trim(pieces[p]);
      var range := UidRange(Trim(pieces[p]), maxUid);
      if range.Err? {
        UnreadablePart(sequence, p, maxUid, range.error);
        return Err(range.error);
      }
      CodeUidsStep(parts, p, maxUid);
      selected := AddUids(selected, range.value.0, range.value.1);
    }
    assert parts[..|pieces|] == parts;
    return Ok(selected);
  }

  lemma NothingSelected(maxUid: nat)
    ensures AllReadable([], maxUid) && CodeUids([], maxUid) == {}
  {
  }

  ghost predicate Selection(sequence: string, maxUid: nat, r: Result<set<nat>, Error>) {
    var parts := Parts(sequence);
    && (r.Ok? <==> AllReadable(parts, maxUid))
    && (r.Ok? ==> r.value == CodeUids(parts, maxUid))
  }

  lemma {:induction false} CodeUidsHold(parts: seq<string>, maxUid: nat, uid: nat)
    requires AllReadable(parts, maxUid)
    ensures uid in CodeUids(parts, maxUid)
       <==> exists i :: 0 <= i < |parts| && Upwards(UidRange(parts[i], maxUid).value, uid)
  {
    hide UidRange;
    if parts != [] {
      var front := parts[..|parts| - 1];
      CodeUidsHold(front, maxUid, uid);
      assert forall i :: 0 <= i < |front| ==> front[i] == parts[i];
    }
  }

  /** The code agrees with the RFC up to reversed ranges, which select nothing at all: a UID that
      the RFC selects is missing exactly when only reversed ranges denote it. */
  lemma OnlyReversedRangesAreLost(parts: seq<string>, maxUid: nat, uid: nat)
    requires AllReadable(parts, maxUid)
    ensures uid in CodeUids(parts, maxUid) ==> RfcSelects(parts, maxUid, uid)
    ensures RfcSelects(parts, maxUid, uid) && uid !in CodeUids(parts, maxUid)
       <==> && (exists i :: 0 <= i < |parts| && Between(UidRange(parts[i], maxUid).value, uid))
            && (forall i :: 0 <= i < |parts| && Between(UidRange(parts[i], maxUid).value, uid) ==>
                  !Ascending(UidRange(parts[i], maxUid).value))
  {
    hide UidRange, CodeUids;
    CodeUidsHold(parts, maxUid, uid);
  }

  /** Some ascending range of the set denotes the UID. */
  ghost predicate CoveredUpwards(parts: seq<string>, maxUid: nat, uid: nat)
    requires AllReadable(parts, maxUid)
  {
    exists j :: && 0 <= j < |parts| && Ascending(UidRange(parts[j], maxUid).value)
                && Between(UidRange(parts[j], maxUid).value, uid)
  }

  predicate InReversedRange(ends: (nat, nat), uid: nat) { !Ascending(ends) && Between(ends, uid) }

  /** Every UID of every reversed range is denoted by an ascending range as well. */
  ghost predicate ReversedRangesAreCovered(parts: seq<string>, maxUid: nat)
    requires AllReadable(parts, maxUid)
  {
    forall i, uid: nat ::
      0 <= i < |parts| && InReversedRange(UidRange(parts[i], maxUid).value, uid) ==> CoveredUpwards(parts, maxUid, uid)
  }

  /** A whole set meets RFC 3501 exactly when its ascending ranges cover its reversed ones. */
  lemma SetMeetsRfcIffReversedRangesAreCovered(parts: seq<string>, maxUid: nat)
    requires AllReadable(parts, maxUid)
    ensures (forall uid :: uid in CodeUids(parts, maxUid) <==> RfcSelects(parts, maxUid, uid))
       <==> ReversedRangesAreCovered(parts, maxUid)
  {
    hide UidRange, CodeUids;
    forall uid: nat
      ensures uid in CodeUids(parts, maxUid) <==> CoveredUpwards(parts, maxUid, uid)
    {
      CodeUidsHold(parts, maxUid, uid);
    }
  }

  /** On ascending ranges the parser meets RFC 3501. */
  lemma AscendingSetsMeetTheRfc(parts: seq<string>, maxUid: nat)
    requires AllReadable(parts, maxUid)
    requires forall i :: 0 <= i < |parts| ==> Ascending(UidRange(parts[i], maxUid).value)
    ensures forall uid :: uid in CodeUids(parts, maxUid) <==> RfcSelects(parts, maxUid, uid)
  {
    forall uid: nat
      ensures uid in CodeUids(parts, maxUid) <==> RfcSelects(parts, maxUid, uid)
    {
      OnlyReversedRangesAreLost(parts, maxUid, uid);
    }
  }

  /** A single range meets the RFC exactly when it ascends. */
  lemma RangeMeetsRfcIffAscending(part: string, maxUid: nat)
    requires UidRange(part, maxUid).Ok?
    ensures (forall uid :: uid in CodeUids([part], maxUid) <==> RfcSelects([part], maxUid, uid))
       <==> Ascending(UidRange(part, maxUid).value)
  {
    var ends := UidRange(part, maxUid).value;
    if Ascending(ends) {
      AscendingSetsMeetTheRfc([part], maxUid);
    } else {
      CodeUidsHold([part], maxUid, ends.0);
      assert Between(UidRange([part][0], maxUid).value, ends.0);
    }
  }

  /** `5:3` selects nothing, although the RFC denotes 3, 4 and 5. */
  lemma ReversedRangeSelectsNothing(maxUid: nat)
    ensures UidRange("5:3", maxUid) == Ok((5, 3))
    ensures CodeUids(["5:3"], maxUid) == {} && RfcSelects(["5:3"], maxUid, 4)
  {
    SplitOfJoin(["5", "3"], ':');
    assert Join(["5", "3"], ':') == "5:3";
    assert ['5'][..0] == [] && DigitsValue("5") == 5;
    assert ['3'][..0] == [] && DigitsValue("3") == 3;
    assert ["5:3"][..0] == [];
    assert Between(UidRange(["5:3"][0], maxUid).value, 4);
  }
}
