/** The string operations of Rust's standard library that the parsers of the mail server call:
    splitting, trimming, searching, and decimal numbers. */
module Text {
  import opened Wrappers

  // ---- Searching ----------------------------------------------------------

  /** Position of the first `c` in `s`, or `|s|` when there is none. */
  function IndexOf<T(==)>(s: seq<T>, c: T): (k: nat)
    ensures k <= |s|
    ensures k < |s| ==> s[k] == c
    ensures forall i :: 0 <= i < k ==> s[i] != c
  {
    if s == [] || s[0] == c then 0 else 1 + IndexOf(s[1..], c)
  }

  /** `pat` occurs in `s` at position `k`. */
  predicate OccursAt<T(==)>(s: seq<T>, pat: seq<T>, k: int) {
    0 <= k && k + |pat| <= |s| && s[k..k + |pat|] == pat
  }

  /** Position of the first occurrence of `pat`, as `str::find`. */
  function Find<T(==)>(s: seq<T>, pat: seq<T>): (r: Option<nat>)
    ensures r.Some? ==> OccursAt(s, pat, r.value)
    ensures r.Some? ==> forall i :: 0 <= i < r.value ==> !OccursAt(s, pat, i)
    ensures r.None? ==> forall i :: !OccursAt(s, pat, i)
  {
    FindFrom(s, pat, 0)
  }

  function FindFrom<T(==)>(s: seq<T>, pat: seq<T>, from: nat): (r: Option<nat>)
    requires from <= |s| + 1
    ensures r.Some? ==> from <= r.value && OccursAt(s, pat, r.value)
    ensures r.Some? ==> forall i :: from <= i < r.value ==> !OccursAt(s, pat, i)
    ensures r.None? ==> forall i :: from <= i ==> !OccursAt(s, pat, i)
    decreases |s| + 1 - from
  {
    if from > |s| then None
    else if OccursAt(s, pat, from) then Some(from)
    else FindFrom(s, pat, from + 1)
  }

  /** Position of the last occurrence of `pat`, as `str::rfind`. */
  function FindLast<T(==)>(s: seq<T>, pat: seq<T>): (r: Option<nat>)
    ensures r.Some? ==> OccursAt(s, pat, r.value)
    ensures r.Some? ==> forall i :: r.value < i ==> !OccursAt(s, pat, i)
    ensures r.None? ==> forall i :: !OccursAt(s, pat, i)
  {
    FindLastUpTo(s, pat, |s|)
  }

  function FindLastUpTo<T(==)>(s: seq<T>, pat: seq<T>, upTo: nat): (r: Option<nat>)
    ensures r.Some? ==> r.value <= upTo && OccursAt(s, pat, r.value)
    ensures r.Some? ==> forall i :: r.value < i <= upTo ==> !OccursAt(s, pat, i)
    ensures r.None? ==> forall i :: i <= upTo ==> !OccursAt(s, pat, i)
  {
    if OccursAt(s, pat, upTo) then Some(upTo)
    else if upTo == 0 then None
    else FindLastUpTo(s, pat, upTo - 1)
  }

  // ---- Splitting and joining ----------------------------------------------

  /** `s.split(sep)`: the pieces between separators; always at least one piece. */
  function Split<T(==)>(s: seq<T>, sep: T): (parts: seq<seq<T>>)
    ensures |parts| >= 1
    ensures forall i :: 0 <= i < |parts| ==> sep !in parts[i]
    decreases |s|
  {
    var k := IndexOf(s, sep);
    if k == |s| then [s] else [s[..k]] + Split(s[k + 1..], sep)
  }

  function Join<T>(parts: seq<seq<T>>, sep: T): seq<T>
    requires |parts| >= 1
  {
    if |parts| == 1 then parts[0] else parts[0] + [sep] + Join(parts[1..], sep)
  }

  lemma {:induction false} JoinOfSplit<T>(s: seq<T>, sep: T)
    ensures Join(Split(s, sep), sep) == s
    decreases |s|
  {
    var k := IndexOf(s, sep);
    if k < |s| {
      JoinOfSplit(s[k + 1..], sep);
      var rest := Split(s[k + 1..], sep);
      var parts := [s[..k]] + rest;
      assert parts[1..] == rest && |parts| > 1 && parts[0] == s[..k];
      assert s == s[..k] + [sep] + s[k + 1..];
    }
  }

  lemma IndexOfUnique<T>(s: seq<T>, c: T, k: nat)
    requires k <= |s| && forall i :: 0 <= i < k ==> s[i] != c
    requires k < |s| ==> s[k] == c
    ensures IndexOf(s, c) == k
  {
  }

  lemma SplitOfPiece<T>(head: seq<T>, rest: seq<T>, sep: T)
    requires sep !in head
    ensures Split(head + [sep] + rest, sep) == [head] + Split(rest, sep)
  {
    var s := head + [sep] + rest;
    IndexOfUnique(s, sep, |head|);
    hide IndexOf;
    assert s[..|head|] == head;
    assert s[|head| + 1..] == rest;
  }

  lemma {:induction false} SplitOfJoin<T>(parts: seq<seq<T>>, sep: T)
    requires |parts| >= 1
    requires forall i :: 0 <= i < |parts| ==> sep !in parts[i]
    ensures Split(Join(parts, sep), sep) == parts
  {
    if |parts| == 1 {
      IndexOfUnique(parts[0], sep, |parts[0]|);
    } else {
      hide Split;
      SplitOfJoin(parts[1..], sep);
      SplitOfPiece(parts[0], Join(parts[1..], sep), sep);
      assert parts == [parts[0]] + parts[1..];
    }
  }

  /** Splitting a concatenation at a separator splits both sides. */
  lemma SplitOfAppend<T>(a: seq<T>, b: seq<T>, sep: T)
    ensures Split(a + [sep] + b, sep) == Split(a, sep) + Split(b, sep)
  {
    JoinOfSplit(a, sep);
    JoinOfSplit(b, sep);
    JoinOfAppend(Split(a, sep), Split(b, sep), sep);
    SplitOfJoin(Split(a, sep) + Split(b, sep), sep);
  }

  lemma {:induction false} JoinOfAppend<T>(p: seq<seq<T>>, q: seq<seq<T>>, sep: T)
    requires |p| >= 1 && |q| >= 1
    ensures Join(p + q, sep) == Join(p, sep) + [sep] + Join(q, sep)
  {
    assert (p + q)[1..] == p[1..] + q;
    if |p| > 1 {
      JoinOfAppend(p[1..], q, sep);
      var x, y := Join(p[1..], sep), Join(q, sep);
      assert p[0] + [sep] + (x + [sep] + y) == (p[0] + [sep] + x) + [sep] + y;
    } else {
      assert p[1..] + q == q;
    }
  }

  // ---- Trimming -----------------------------------------------------------

  /** The Unicode `White_Space` property, which `char::is_whitespace` tests. */
  predicate IsWhitespace(c: char) {
    || '\U{0009}' <= c <= '\U{000D}'
    || c == ' ' || c == '\U{0085}' || c == '\U{00A0}' || c == '\U{1680}'
    || '\U{2000}' <= c <= '\U{200A}'
    || c == '\U{2028}' || c == '\U{2029}' || c == '\U{202F}' || c == '\U{205F}' || c == '\U{3000}'
  }

  /** In ASCII: the blank, and the controls from the tab to the carriage return. */
  lemma AsciiWhitespace(c: char)
    requires c < '\U{0080}'
    ensures IsWhitespace(c) <==> c == ' ' || 9 <= c as int <= 13
  {
  }

  predicate Untrimmed(s: string) {
    s != [] && (IsWhitespace(s[0]) || IsWhitespace(s[|s| - 1]))
  }

  /** `s.trim()`: drops whitespace at both ends and nothing else. */
  function Trim(s: string): (t: string)
    ensures !Untrimmed(t)
    ensures |t| <= |s|
    ensures forall c :: c in t ==> c in s
    ensures !Untrimmed(s) ==> t == s
    decreases |s|
  {
    if s == [] then s
    else if IsWhitespace(s[0]) then Trim(s[1..])
    else if IsWhitespace(s[|s| - 1]) then Trim(s[..|s| - 1])
    else s
  }

  predicate AllWhitespace(s: string) { forall i :: 0 <= i < |s| ==> IsWhitespace(s[i]) }

  /** Only whitespace is dropped: the text is what remains, between two blank pieces. */
  lemma {:induction false} TrimCuts(s: string) returns (before: string, after: string)
    ensures s == before + Trim(s) + after && AllWhitespace(before) && AllWhitespace(after)
    decreases |s|
  {
    hide IsWhitespace;
    before, after := "", "";
    if s != [] && IsWhitespace(s[0]) {
      before, after := TrimCuts(s[1..]);
      OneMoreInFront(s, before, Trim(s[1..]), after);
      before := [s[0]] + before;
    } else if s != [] && IsWhitespace(s[|s| - 1]) {
      before, after := TrimCuts(s[..|s| - 1]);
      OneMoreBehind(s, before, Trim(s[..|s| - 1]), after);
      after := after + [s[|s| - 1]];
    }
  }

  lemma OneMoreInFront(s: string, before: string, t: string, after: string)
    requires s != [] && s[1..] == before + t + after
    ensures s == ([s[0]] + before) + t + after
  {
    assert s == [s[0]] + s[1..];
  }

  lemma OneMoreBehind(s: string, before: string, t: string, after: string)
    requires s != [] && s[..|s| - 1] == before + t + after
    ensures s == before + t + (after + [s[|s| - 1]])
  {
    assert s == s[..|s| - 1] + [s[|s| - 1]];
  }

  /** And all of it: blanks around a text that has none at its ends do not matter. */
  lemma {:induction false} TrimOfPadded(before: string, s: string, after: string)
    requires AllWhitespace(before) && AllWhitespace(after) && !Untrimmed(s)
    ensures Trim(before + s + after) == s
    decreases |before| + |after|
  {
    var whole := before + s + after;
    if before != [] {
      assert whole[0] == before[0] && whole[1..] == before[1..] + s + after;
      TrimOfPadded(before[1..], s, after);
    } else if after != [] {
      TrimOfPadded(before, s, after[..|after| - 1]);
      assert whole[|whole| - 1] == after[|after| - 1];
      assert whole[..|whole| - 1] == before + s + after[..|after| - 1];
      if s == [] {
        BlankIsTrimmed(whole);
      }
    } else {
      assert whole == s;
    }
  }

  lemma {:induction false} BlankIsTrimmed(s: string)
    requires AllWhitespace(s)
    ensures Trim(s) == ""
    decreases |s|
  {
    if s != [] {
      BlankIsTrimmed(s[1..]);
    }
  }

  // ---- Decimal numbers ----------------------------------------------------

  const U32_MAX: nat := 0xFFFF_FFFF
  const U64_MAX: nat := 0xFFFF_FFFF_FFFF_FFFF

  predicate IsDigit(c: char) { '0' <= c <= '9' }

  function DigitValue(c: char): (d: nat)
    requires IsDigit(c)
    ensures d <= 9
  {
    c as int - '0' as int
  }

  function DigitChar(d: nat): (c: char)
    requires d <= 9
    ensures IsDigit(c) && DigitValue(c) == d
  {
    ['0', '1', '2', '3', '4', '5', '6', '7', '8', '9'][d]
  }

  predicate AllDigits(s: string) { forall i :: 0 <= i < |s| ==> IsDigit(s[i]) }

  function DigitsValue(s: string): nat
    requires AllDigits(s)
  {
    if s == [] then 0 else 10 * DigitsValue(s[..|s| - 1]) + DigitValue(s[|s| - 1])
  }

  /** `s.parse::<uN>()`: an optional plus sign, at least one digit, no value above `max`. */
  function ParseUnsigned(s: string, max: nat): (r: Option<nat>)
    ensures r.Some? ==> r.value <= max
    ensures r.Some? ==> s != [] && !IsWhitespace(s[0])
  {
    var digits := if s != [] && s[0] == '+' then s[1..] else s;
    if digits == [] || !AllDigits(digits) || DigitsValue(digits) > max then None
    else assert IsDigit(digits[0]); Some(DigitsValue(digits))
  }

  /** The decimal form `format!("{}", n)` writes. */
  function Decimal(n: nat): (s: string)
    ensures s != [] && AllDigits(s)
  {
    if n < 10 then [DigitChar(n)] else Decimal(n / 10) + [DigitChar(n % 10)]
  }

  lemma {:induction false} DecimalValue(n: nat)
    ensures DigitsValue(Decimal(n)) == n
  {
    var s := Decimal(n);
    if n < 10 {
      assert s[..|s| - 1] == [];
    } else {
      DecimalValue(n / 10);
      assert s[..|s| - 1] == Decimal(n / 10);
    }
  }

  /** No number is printed with a leading zero. */
  lemma {:induction false} DecimalIsCanonical(n: nat)
    ensures Decimal(n)[0] == '0' <==> n == 0
    ensures |Decimal(n)| == 1 <==> n < 10
  {
    if n >= 10 {
      DecimalIsCanonical(n / 10);
    }
  }

  /** Parsing undoes printing, up to the width of the integer type. */
  lemma ParseOfDecimal(n: nat, max: nat)
    requires n <= max
    ensures ParseUnsigned(Decimal(n), max) == Some(n)
  {
    DecimalValue(n);
    assert IsDigit(Decimal(n)[0]);
  }

  /** No separator of the text formats can occur inside a printed number. */
  lemma DecimalHasOnlyDigits(n: nat, c: char)
    requires !IsDigit(c)
    ensures c !in Decimal(n)
  {
    assert AllDigits(Decimal(n));
  }

  // ---- UTF-8 lengths ------------------------------------------------------------

  function Utf8Width(c: char): (w: nat)
    ensures 1 <= w <= 4
  {
    if c < '\U{0080}' then 1 else if c < '\U{0800}' then 2 else if c < '\U{10000}' then 3 else 4
  }

  /** `s.len()`: the number of bytes in the UTF-8 encoding. */
  function Utf8Length(s: string): (n: nat)
    ensures |s| <= n <= 4 * |s|
  {
    if s == "" then 0 else Utf8Width(s[0]) + Utf8Length(s[1..])
  }

  /** `Username::new` accepts 1 to 128 bytes. */
  predicate ValidUsername(name: string) { 1 <= Utf8Length(name) <= 128 }

  /** The table of section 3 of RFC 3629. */
  lemma WidthByCode(c: char)
    ensures Utf8Width(c) == 1 <==> c as int <= 0x7F
    ensures Utf8Width(c) == 2 <==> 0x80 <= c as int <= 0x7FF
    ensures Utf8Width(c) == 3 <==> 0x800 <= c as int <= 0xFFFF
    ensures Utf8Width(c) == 4 <==> 0x1_0000 <= c as int
  {
  }

  lemma {:induction false} LengthOfAppend(a: string, b: string)
    ensures Utf8Length(a + b) == Utf8Length(a) + Utf8Length(b)
  {
    if a == "" {
      assert a + b == b;
    } else {
      LengthOfAppend(a[1..], b);
      assert (a + b)[1..] == a[1..] + b;
    }
  }

  lemma {:induction false} LengthOfAscii(s: string)
    requires forall i :: 0 <= i < |s| ==> s[i] as int <= 0x7F
    ensures Utf8Length(s) == |s|
  {
    if s != "" {
      LengthOfAscii(s[1..]);
    }
  }

  /** A user name has 1 to 128 bytes: as many characters in ASCII, fewer in other scripts. */
  lemma NamesByCharacters(name: string)
    ensures (forall i :: 0 <= i < |name| ==> name[i] as int <= 0x7F) ==> (ValidUsername(name) <==> 1 <= |name| <= 128)
    ensures ValidUsername(name) ==> 1 <= |name| <= 128
    ensures 1 <= |name| <= 32 ==> ValidUsername(name)
  {
    if forall i :: 0 <= i < |name| ==> name[i] as int <= 0x7F {
      LengthOfAscii(name);
    }
  }
}
