/** Message sequence sets against section 9 of RFC 3501: what the parser selects for grammatical
    text, and when that is what the RFC denotes in a mailbox of a given size. */
module SequenceRfc {
  import opened Basics
  import opened Wrappers
  import opened Text
  import opened SequenceSet

  /** A `seq-number`: a non-zero unsigned 32-bit number, or the star. */
  datatype SeqNumber = Number(n: nat) | Star

  /** One member of a `sequence-set`: a number or a range. */
  datatype Member = Single(only: SeqNumber) | Pair(first: SeqNumber, second: SeqNumber)

  predicate InGrammar(e: SeqNumber) { e.Number? ==> 1 <= e.n <= U32_MAX }

  predicate Grammatical(p: Member) {
    match p
    case Single(e) => InGrammar(e)
    case Pair(a, b) => InGrammar(a) && InGrammar(b)
  }

  function NumberText(e: SeqNumber): string { if e.Star? then "*" else Decimal(e.n) }

  function MemberText(p: Member): string {
    match p
    case Single(e) => NumberText(e)
    case Pair(a, b) => NumberText(a) + [':'] + NumberText(b)
  }

  function MemberTexts(members: seq<Member>): (texts: seq<string>)
    ensures |texts| == |members| && forall i :: 0 <= i < |members| ==> texts[i] == MemberText(members[i])
  {
    seq(|members|, i requires 0 <= i < |members| => MemberText(members[i]))
  }

  function SetText(members: seq<Member>): string
    requires members != []
  {
    Join(MemberTexts(members), ',')
  }

  // ---- What the RFC denotes --------------------------------------------------------------

  /** The star is the largest number in use. */
  function NumberValue(e: SeqNumber, max: nat): nat { if e.Star? then max else e.n }

  /** The message numbers of a member in a mailbox of `max` messages: everything between the two
      ends, in either order, that is in use. */
  ghost function RfcNumbers(p: Member, max: nat): set<nat> {
    match p
    case Single(e) => if 1 <= NumberValue(e, max) <= max then {NumberValue(e, max)} else {}
    case Pair(a, b) => set n: nat | 1 <= n <= max && Between((NumberValue(a, max), NumberValue(b, max)), n)
  }

  ghost predicate RfcHas(members: seq<Member>, max: nat, n: nat) {
    exists i :: 0 <= i < |members| && n in RfcNumbers(members[i], max)
  }

  // ---- What the parser selects -------------------------------------------------------------

  /** A star in first place is read as 1; a range only counts upwards. */
  function CodeNumbers(p: Member, max: nat): set<nat> {
    match p
    case Single(e) => if 1 <= NumberValue(e, max) <= max then {NumberValue(e, max)} else {}
    case Pair(a, b) => Range(if a.Star? then 1 else a.n, Min(NumberValue(b, max), max) + 1)
  }

  lemma StarIsNoNumber(s: string)
    requires s == ['*']
    ensures s != "" && !Untrimmed(s) && ':' !in s && ',' !in s && ParseUnsigned(s, U64_MAX).None?
  {
    assert !IsDigit(s[0]);
  }

  lemma DigitsAreClean(s: string)
    requires s != "" && AllDigits(s)
    ensures !Untrimmed(s) && ':' !in s && ',' !in s && s != "*"
  {
    assert IsDigit(s[0]) && IsDigit(s[|s| - 1]);
  }

  lemma NumberTextIsClean(e: SeqNumber)
    requires InGrammar(e)
    ensures var s := NumberText(e);
            && s != "" && !Untrimmed(s) && ':' !in s && ',' !in s && (s == "*" <==> e.Star?)
            && ParseUnsigned(s, U64_MAX) == if e.Star? then None else Some(e.n)
  {
    if e.Number? {
      hide Untrimmed, ParseUnsigned, Decimal;
      ParseOfDecimal(e.n, U64_MAX);
      DigitsAreClean(Decimal(e.n));
    } else {
      hide Untrimmed, ParseUnsigned;
      StarIsNoNumber("*");
    }
  }

  lemma PairParts(x: string, y: string)
    requires ':' !in x && ':' !in y
    ensures Split(x + [':'] + y, ':') == [x, y] && ':' in x + [':'] + y
  {
    assert [x, y][1..] == [y];
    assert Join([x, y], ':') == x + [':'] + y;
    SplitOfJoin([x, y], ':');
    assert (x + [':'] + y)[|x|] == ':';
  }

  lemma ParsedMember(p: Member, max: nat)
    requires Grammatical(p)
    ensures PartNumbers(MemberText(p), max) == CodeNumbers(p, max)
  {
    match p
    case Single(e) => NumberTextIsClean(e);
    case Pair(a, b) =>
      NumberTextIsClean(a);
      NumberTextIsClean(b);
      var x, y := NumberText(a), NumberText(b);
      PairParts(x, y);
      hide NumberText, ParseUnsigned, Split, Range;
      assert MemberText(p) == x + [':'] + y;
      var bounds := Split(x + [':'] + y, ':');
      assert bounds[0] == x && bounds[1] == y;
  }

  lemma MemberTextIsClean(p: Member)
    requires Grammatical(p)
    ensures ',' !in MemberText(p) && Trim(MemberText(p)) == MemberText(p)
  {
    match p
    case Single(e) => NumberTextIsClean(e);
    case Pair(a, b) =>
      NumberTextIsClean(a);
      NumberTextIsClean(b);
      hide NumberText;
      var s, x, y := MemberText(p), NumberText(a), NumberText(b);
      assert s[0] == x[0] && s[|s| - 1] == y[|y| - 1];
  }

  lemma PartsOfSetText(members: seq<Member>)
    requires members != [] && forall i :: 0 <= i < |members| ==> Grammatical(members[i])
    ensures Parts(SetText(members)) == MemberTexts(members)
  {
    var texts := MemberTexts(members);
    forall i | 0 <= i < |members| ensures ',' !in texts[i] && Trim(texts[i]) == texts[i] {
      MemberTextIsClean(members[i]);
    }
    SplitOfJoin(texts, ',');
  }

  ghost predicate CodeHas(members: seq<Member>, max: nat, n: nat) {
    exists i :: 0 <= i < |members| && n in CodeNumbers(members[i], max)
  }

  /** The parser's result for grammatical text, member by member. */
  lemma ParsedSet(members: seq<Member>, max: nat, n: nat)
    requires members != [] && forall i :: 0 <= i < |members| ==> Grammatical(members[i])
    ensures n in Union(Parts(SetText(members)), max) <==> CodeHas(members, max, n)
  {
    var texts := MemberTexts(members);
    PartsOfSetText(members);
    UnionHolds(texts, max, n);
    hide PartNumbers, CodeNumbers, MemberText, Union, Parts;
    forall i | 0 <= i < |members| ensures PartNumbers(texts[i], max) == CodeNumbers(members[i], max) {
      ParsedMember(members[i], max);
    }
  }

  // ---- When the two agree --------------------------------------------------------------------

  /** The numbers that the RFC denotes and the parser does not select. */
  ghost function Lost(p: Member, max: nat): set<nat> {
    match p
    case Single(_) => {}
    case Pair(Number(a), Number(b)) => if a > b then Range(b, Min(a, max) + 1) else {}
    case Pair(Number(a), Star) => if a > max > 0 then {max} else {}
    case Pair(Star, Number(b)) => if b <= max then Range(b + 1, max + 1) else {}
    case Pair(Star, Star) => {}
  }

  /** The numbers that the parser selects beyond what the RFC denotes. */
  ghost function Gained(p: Member, max: nat): set<nat> {
    if p.Pair? && p.first.Star? then Range(1, Min(NumberValue(p.second, max), max)) else {}
  }

  lemma PartDifference(p: Member, max: nat, n: nat)
    requires Grammatical(p)
    ensures n in Lost(p, max) <==> n in RfcNumbers(p, max) && n !in CodeNumbers(p, max)
    ensures n in Gained(p, max) <==> n in CodeNumbers(p, max) && n !in RfcNumbers(p, max)
  {
  }

  /** When a member means to the parser what it means in the RFC: always for a single number; for a
      range of numbers if it ascends or lies beyond the mailbox; for a range up to the star if it
      starts inside a mailbox that is not empty; for a range from the star only in mailboxes of at
      most one message. */
  predicate Agrees(p: Member, max: nat) {
    match p
    case Single(_) => true
    case Pair(Number(a), Number(b)) => a <= b || b > max
    case Pair(Number(a), Star) => a <= max || max == 0
    case Pair(Star, _) => max <= 1
  }

  /** The parser selects what section 9 of RFC 3501 denotes exactly for these members. */
  lemma MemberMeetsRfcIff(p: Member, max: nat)
    requires Grammatical(p)
    ensures PartNumbers(MemberText(p), max) == RfcNumbers(p, max) <==> Agrees(p, max)
  {
    ParsedMember(p, max);
    hide PartNumbers, MemberText;
    forall n: nat
      ensures n in Lost(p, max) <==> n in RfcNumbers(p, max) && n !in CodeNumbers(p, max)
      ensures n in Gained(p, max) <==> n in CodeNumbers(p, max) && n !in RfcNumbers(p, max)
    {
      PartDifference(p, max, n);
    }
    hide RfcNumbers, CodeNumbers;
    DifferenceIsEmptyIff(p, max);
  }

  lemma DifferenceIsEmptyIff(p: Member, max: nat)
    requires Grammatical(p)
    ensures Lost(p, max) == {} && Gained(p, max) == {} <==> Agrees(p, max)
  {
    match p
    case Single(_) =>
    case Pair(Number(a), Number(b)) => assert b in Range(b, Min(a, max) + 1) <==> b < Min(a, max) + 1;
    case Pair(Number(a), Star) => assert a > max > 0 ==> max in Lost(p, max);
    case Pair(Star, Number(b)) =>
      assert 1 in Gained(p, max) <==> 1 < Min(b, max);
      assert b <= max ==> (max in Lost(p, max) <==> b < max);
    case Pair(Star, Star) => assert 1 in Gained(p, max) <==> 1 < max;
  }

  ghost predicate DifferenceIs(p: Member, max: nat, n: nat) {
    && (n in Lost(p, max) <==> n in RfcNumbers(p, max) && n !in CodeNumbers(p, max))
    && (n in Gained(p, max) <==> n in CodeNumbers(p, max) && n !in RfcNumbers(p, max))
  }

  /** The parser counts up to `n`: from the first end (1 for a star) to the second, or to the end of
      the mailbox. */
  predicate CountsThrough(p: Member, max: nat, n: nat) {
    match p
    case Single(e) => n == NumberValue(e, max) && 1 <= n <= max
    case Pair(a, b) => (if a.Star? then 1 else a.n) <= n && n <= NumberValue(b, max) && n <= max
  }

  /** The number is in use and lies between the ends, in either order. */
  predicate LiesBetween(p: Member, max: nat, n: nat) {
    match p
    case Single(e) => n == NumberValue(e, max) && 1 <= n <= max
    case Pair(a, b) =>
      var first, second := NumberValue(a, max), NumberValue(b, max);
      1 <= n <= max && (first <= n <= second || second <= n <= first)
  }

  lemma RangesInNumbers(p: Member, max: nat, n: nat)
    requires Grammatical(p)
    ensures n in CodeNumbers(p, max) <==> CountsThrough(p, max, n)
    ensures n in RfcNumbers(p, max) <==> LiesBetween(p, max, n)
  {
  }

  /** What a member loses is a stretch of numbers. */
  predicate IsLost(p: Member, max: nat, n: nat) {
    match p
    case Single(_) => false
    case Pair(Number(a), Number(b)) => b < a && b <= n <= a && n <= max
    case Pair(Number(a), Star) => a > max > 0 && n == max
    case Pair(Star, Number(b)) => b < n <= max
    case Pair(Star, Star) => false
  }

  /** And so is what it gains. */
  predicate IsGained(p: Member, max: nat, n: nat) {
    match p
    case Pair(Star, Number(b)) => 1 <= n < b && n < max
    case Pair(Star, Star) => 1 <= n < max
    case _ => false
  }

  lemma DifferenceInNumbers(p: Member, max: nat, n: nat)
    requires Grammatical(p)
    ensures n in Lost(p, max) <==> IsLost(p, max, n)
    ensures n in Gained(p, max) <==> IsGained(p, max, n)
  {
  }

  /** Some member counts through the number. */
  predicate CountedThrough(members: seq<Member>, max: nat, n: nat) {
    exists j :: 0 <= j < |members| && CountsThrough(members[j], max, n)
  }

  /** Some member has the number between its ends. */
  predicate Enclosed(members: seq<Member>, max: nat, n: nat) {
    exists j :: 0 <= j < |members| && LiesBetween(members[j], max, n)
  }

  /** A whole set meets the RFC exactly when its other members make up for the difference: each
      number of a reversed or overshooting range, or above the second end of a range from the star,
      is counted through by some member, and each number below such an end lies between the ends of
      some member. */
  lemma SetMeetsRfcIff(members: seq<Member>, max: nat)
    requires members != [] && forall i :: 0 <= i < |members| ==> Grammatical(members[i])
    ensures (forall n :: n in Union(Parts(SetText(members)), max) <==> RfcHas(members, max, n))
       <==> forall i, n: nat :: 0 <= i < |members| ==>
              && (IsLost(members[i], max, n) ==> CountedThrough(members, max, n))
              && (IsGained(members[i], max, n) ==> Enclosed(members, max, n))
  {
    hide Parts, Union, SetText, Lost, Gained, RfcNumbers, CodeNumbers, Grammatical, IsLost, IsGained, CountsThrough,
      LiesBetween;
    forall n: nat
      ensures n in Union(Parts(SetText(members)), max) <==> CodeHas(members, max, n)
      ensures CodeHas(members, max, n) <==> CountedThrough(members, max, n)
      ensures RfcHas(members, max, n) <==> Enclosed(members, max, n)
    {
      ParsedSet(members, max, n);
      forall i | 0 <= i < |members|
        ensures n in CodeNumbers(members[i], max) <==> CountsThrough(members[i], max, n)
        ensures n in RfcNumbers(members[i], max) <==> LiesBetween(members[i], max, n)
      {
        RangesInNumbers(members[i], max, n);
      }
    }
    forall i, n: nat | 0 <= i < |members|
      ensures DifferenceIs(members[i], max, n)
      ensures n in Lost(members[i], max) <==> IsLost(members[i], max, n)
      ensures n in Gained(members[i], max) <==> IsGained(members[i], max, n)
    {
      PartDifference(members[i], max, n);
      DifferenceInNumbers(members[i], max, n);
    }
    hide CodeHas, RfcHas, CountedThrough, Enclosed, DifferenceIs;
    SameUnion(members, max);
  }

  lemma SameUnion(members: seq<Member>, max: nat)
    requires forall i, n: nat :: 0 <= i < |members| ==> DifferenceIs(members[i], max, n)
    ensures (forall n :: CodeHas(members, max, n) <==> RfcHas(members, max, n))
       <==> && (forall i, n :: 0 <= i < |members| && n in Lost(members[i], max) ==> CodeHas(members, max, n))
            && (forall i, n :: 0 <= i < |members| && n in Gained(members[i], max) ==> RfcHas(members, max, n))
  {
    hide Lost, Gained, RfcNumbers, CodeNumbers;
    forall i, n: nat | 0 <= i < |members| && (n in Lost(members[i], max) || n in Gained(members[i], max))
      ensures n in Lost(members[i], max) ==> RfcHas(members, max, n)
      ensures n in Gained(members[i], max) ==> CodeHas(members, max, n)
    {
      assert DifferenceIs(members[i], max, n);
    }
    if (forall i, n :: 0 <= i < |members| && n in Lost(members[i], max) ==> CodeHas(members, max, n))
      && (forall i, n :: 0 <= i < |members| && n in Gained(members[i], max) ==> RfcHas(members, max, n))
    {
      forall n: nat ensures CodeHas(members, max, n) <==> RfcHas(members, max, n) {
        if RfcHas(members, max, n) {
          var i :| 0 <= i < |members| && n in RfcNumbers(members[i], max);
          assert DifferenceIs(members[i], max, n);
        }
        if CodeHas(members, max, n) {
          var i :| 0 <= i < |members| && n in CodeNumbers(members[i], max);
          assert DifferenceIs(members[i], max, n);
        }
      }
    }
  }

  // ---- UIDs -----------------------------------------------------------------------------------

  /** The member counts up to this UID: from its first end to its second, where the star is the
      highest UID in use, in either place. */
  predicate ListsUid(p: Member, maxUid: nat, uid: nat) {
    match p
    case Single(e) => uid == (if e.Star? then maxUid else e.n)
    case Pair(a, b) => (if a.Star? then maxUid else a.n) <= uid <= (if b.Star? then maxUid else b.n)
  }

  lemma ParsedUidMember(p: Member, maxUid: nat)
    requires Grammatical(p)
    ensures UidRange(MemberText(p), maxUid).Ok?
    ensures forall uid :: Upwards(UidRange(MemberText(p), maxUid).value, uid) <==> ListsUid(p, maxUid, uid)
  {
    match p
    case Single(e) => UidBoundOf(e, maxUid);
    case Pair(a, b) =>
      UidBoundOf(a, maxUid);
      UidBoundOf(b, maxUid);
      var x, y := NumberText(a), NumberText(b);
      PairParts(x, y);
      hide NumberText, UidBound, Split;
      assert MemberText(p) == x + [':'] + y;
  }

  lemma UidBoundOf(e: SeqNumber, maxUid: nat)
    requires InGrammar(e)
    ensures UidBound(NumberText(e), maxUid) == Some(if e.Star? then maxUid else e.n)
    ensures ':' !in NumberText(e)
  {
    NumberTextIsClean(e);
    if e.Number? {
      hide Decimal, ParseUnsigned;
      ParseOfDecimal(e.n, U32_MAX);
    }
  }

  /** What the UID parser selects for grammatical text, member by member. */
  lemma ParsedUidSet(members: seq<Member>, maxUid: nat, uid: nat)
    requires members != [] && forall i :: 0 <= i < |members| ==> Grammatical(members[i])
    ensures AllReadable(Parts(SetText(members)), maxUid)
    ensures uid in CodeUids(Parts(SetText(members)), maxUid)
       <==> exists i :: 0 <= i < |members| && ListsUid(members[i], maxUid, uid)
  {
    var texts := MemberTexts(members);
    PartsOfSetText(members);
    hide UidRange, CodeUids, MemberText, Parts, ListsUid, Upwards;
    forall i | 0 <= i < |members|
      ensures UidRange(texts[i], maxUid).Ok?
      ensures Upwards(UidRange(texts[i], maxUid).value, uid) <==> ListsUid(members[i], maxUid, uid)
    {
      ParsedUidMember(members[i], maxUid);
    }
    CodeUidsHold(texts, maxUid, uid);
  }

  // ---- Text outside the grammar -----------------------------------------------------------------

  /** An optional plus sign and digits, of a value up to `max`. */
  ghost predicate IsNumber(s: string, max: nat, n: nat) {
    exists digits :: && (s == digits || s == "+" + digits) && digits != [] && AllDigits(digits)
                     && DigitsValue(digits) == n && n <= max
  }

  lemma NumbersAreParsed(s: string, max: nat, n: nat)
    ensures ParseUnsigned(s, max) == Some(n) <==> IsNumber(s, max, n)
  {
    if s != [] && s[0] == '+' {
      assert s == "+" + s[1..] && !IsDigit('+');
      forall digits | s == "+" + digits ensures digits == s[1..] {
      }
      assert !AllDigits(s);
    } else {
      assert forall digits: string :: ("+" + digits)[0] == '+';
    }
  }

  ghost predicate IsUidBound(s: string) { s == "*" || exists n :: IsNumber(s, 0xFFFF_FFFF, n) }

  /** One end, or two ends around the only colon. */
  ghost predicate IsUidPart(part: string) {
    if ':' in part then exists x, y :: && part == x + [':'] + y && ':' !in x && ':' !in y
                                       && IsUidBound(x) && IsUidBound(y)
    else IsUidBound(part)
  }

  lemma UidBoundReadableIff(s: string, maxUid: nat)
    ensures UidBound(s, maxUid).Some? <==> IsUidBound(s)
  {
    hide ParseUnsigned, IsNumber;
    forall n: nat ensures ParseUnsigned(s, 0xFFFF_FFFF) == Some(n) <==> IsNumber(s, 0xFFFF_FFFF, n) {
      NumbersAreParsed(s, 0xFFFF_FFFF, n);
    }
  }

  /** The UID parser rejects exactly the sets with another kind of part. */
  lemma UidPartReadableIff(part: string, maxUid: nat)
    ensures UidRange(part, maxUid).Ok? <==> IsUidPart(part)
  {
    hide UidBound, IsUidBound, Split;
    if ':' in part {
      var bounds := Split(part, ':');
      if |bounds| == 2 {
        assert bounds == [bounds[0], bounds[1]];
        JoinOfSplit(part, ':');
        JoinOfTwo(bounds[0], bounds[1]);
        UidBoundReadableIff(bounds[0], maxUid);
        UidBoundReadableIff(bounds[1], maxUid);
      }
      forall x, y | part == x + [':'] + y && ':' !in x && ':' !in y ensures bounds == [x, y] {
        PairParts(x, y);
      }
    } else {
      UidBoundReadableIff(part, maxUid);
    }
  }

  lemma JoinOfTwo(x: string, y: string)
    ensures Join([x, y], ':') == x + [':'] + y
  {
    assert [x, y][1..] == [y];
  }

  /** In message numbers nothing is rejected: an unreadable first end counts as 1, an unreadable
      second end as the size of the mailbox; two colons, or no number at all, select nothing. */
  lemma MalformedParts(x: string, first: Option<nat>, y: string, second: Option<nat>, z: string, max: nat)
    requires ':' !in x && ':' !in y
    requires first == ParseUnsigned(x, 0xFFFF_FFFF_FFFF_FFFF) && second == ParseUnsigned(y, 0xFFFF_FFFF_FFFF_FFFF)
    ensures forall n :: n in PartNumbers(x + [':'] + y, max)
                   <==> && (if first.Some? then first.value else 1) <= n <= max
                        && (second.Some? ==> n <= second.value)
    ensures PartNumbers(x + [':'] + (y + [':'] + z), max) == {}
    ensures x != "*" && first.None? ==> PartNumbers(x, max) == {}
  {
    PairParts(x, y);
    SplitOfPiece(x, y + [':'] + z, ':');
    SplitOfPiece(y, z, ':');
    StarIsNoNumber("*");
    var two := x + [':'] + (y + [':'] + z);
    assert two[|x|] == ':';
    hide Split, ParseUnsigned;
    assert Split(x + [':'] + y, ':')[1] == y;
  }
}
