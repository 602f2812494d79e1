/** Day 4, "Secure Container": count the integers of a range whose decimal
    digits never decrease and contain a double (part 1), and, in part 2,
    some digit that occurs exactly twice. */
module SecureContainer {
  import opened Wrappers
  import opened Sequences

  // ---------------------------------------------------------------------
  // str(i) for a non-negative integer
  // ---------------------------------------------------------------------

  predicate IsDigit(c: char) { '0' <= c <= '9' }

  function DigitChar(d: nat): (c: char)
    requires d < 10
    ensures IsDigit(c) && c as int - '0' as int == d
  {
    ('0' as int + d) as char
  }

  /** The decimal representation `str(n)`: no sign, no leading zero. */
  function Digits(n: nat): (s: string)
    ensures 1 <= |s|
    ensures forall i :: 0 <= i < |s| ==> IsDigit(s[i])
    ensures |s| > 1 ==> s[0] != '0'
    decreases n
  {
    if n < 10 then [DigitChar(n)] else Digits(n / 10) + [DigitChar(n % 10)]
  }

  /** The integer a string of decimal digits denotes, as `int(s)` reads it. */
  function Value(s: string): nat
    requires forall i :: 0 <= i < |s| ==> IsDigit(s[i])
  {
    if s == [] then 0
    else
      var last := s[|s| - 1];
      assert IsDigit(last);
      10 * Value(s[..|s| - 1]) + (last as int - '0' as int)
  }

  lemma {:induction false} DigitsRoundTrip(n: nat)
    ensures Value(Digits(n)) == n
    decreases n
  {
    if n >= 10 {
      DigitsRoundTrip(n / 10);
      var s := Digits(n);
      assert s[..|s| - 1] == Digits(n / 10);
    }
  }

  // ---------------------------------------------------------------------
  // re.search(r"(\d)\1", s): a digit immediately followed by itself
  // ---------------------------------------------------------------------

  /** A match of `(\d)\1` starts at position i. */
  predicate DoubleAt(s: string, i: int)
  {
    0 <= i < |s| - 1 && IsDigit(s[i]) && s[i + 1] == s[i]
  }

  /** The leftmost match of `(\d)\1` in s at or after position i, as
      `re.search` scans for it. */
  function SearchDoubleFrom(s: string, i: nat): (r: Option<nat>)
    ensures r.Some? ==> i <= r.value && DoubleAt(s, r.value)
    ensures r.Some? ==> forall j :: i <= j < r.value ==> !DoubleAt(s, j)
    ensures r.None? ==> forall j :: i <= j ==> !DoubleAt(s, j)
    decreases |s| - i
  {
    if i + 1 >= |s| then None
    else if IsDigit(s[i]) && s[i + 1] == s[i] then Some(i)
    else SearchDoubleFrom(s, i + 1)
  }

  /** `re.search(r"(\d)\1", s)`: the leftmost match, if any. */
  function SearchDouble(s: string): (r: Option<nat>)
    ensures r.Some? <==> exists j :: DoubleAt(s, j)
  {
    SearchDoubleFrom(s, 0)
  }

  // ---------------------------------------------------------------------
  // [x for x in s] == sorted(s)
  // ---------------------------------------------------------------------

  /** The character at i is at most the one after it. */
  predicate NoDropAt(s: string, i: int)
    requires 0 <= i < |s| - 1
  {
    s[i] <= s[i + 1]
  }

  /** Each character is at most the next one. */
  predicate NonDecreasing(s: string)
  {
    forall i :: 0 <= i < |s| - 1 ==> NoDropAt(s, i)
  }

  /** Insertion into a sorted string, the step of `sorted`. */
  function Insert(c: char, t: string): (r: string)
    ensures multiset(r) == multiset(t) + multiset{c}
    ensures |r| == |t| + 1 && (r[0] == c || (t != [] && r[0] == t[0]))
  {
    if t == [] || c <= t[0] then [c] + t
    else
      assert t == [t[0]] + t[1..];
      [t[0]] + Insert(c, t[1..])
  }

  lemma TailNonDecreasing(s: string)
    requires NonDecreasing(s) && s != []
    ensures NonDecreasing(s[1..])
  {
    forall i | 0 <= i < |s| - 2 ensures NoDropAt(s[1..], i) { assert NoDropAt(s, i + 1); }
  }

  lemma {:induction false} InsertKeepsSorted(c: char, t: string)
    requires NonDecreasing(t)
    ensures NonDecreasing(Insert(c, t))
  {
    var r := Insert(c, t);
    if t == [] || c <= t[0] {
      forall i | 0 <= i < |r| - 1 ensures NoDropAt(r, i) {
        if i > 0 { assert NoDropAt(t, i - 1); }
      }
    } else {
      var rest := Insert(c, t[1..]);
      TailNonDecreasing(t);
      InsertKeepsSorted(c, t[1..]);
      if |t| > 1 { assert NoDropAt(t, 0); }
      forall i | 0 <= i < |r| - 1 ensures NoDropAt(r, i) {
        if i > 0 { assert NoDropAt(rest, i - 1); }
      }
    }
  }

  /** `sorted(s)`: the characters of s in code-point order. */
  function Sort(s: string): string
  {
    if s == [] then [] else Insert(s[0], Sort(s[1..]))
  }

  /** Sorting rearranges the characters into non-decreasing order. */
  lemma {:induction false} SortSpec(s: string)
    ensures multiset(Sort(s)) == multiset(s)
    ensures NonDecreasing(Sort(s))
  {
    if s != [] {
      assert s == [s[0]] + s[1..];
      SortSpec(s[1..]);
      InsertKeepsSorted(s[0], Sort(s[1..]));
    }
  }

  lemma {:induction false} SortKeepsSorted(s: string)
    requires NonDecreasing(s)
    ensures Sort(s) == s
  {
    if s != [] {
      TailNonDecreasing(s);
      SortKeepsSorted(s[1..]);
      assert Sort(s) == Insert(s[0], s[1..]);
      if |s| > 1 { assert NoDropAt(s, 0); }
      assert [s[0]] + s[1..] == s;
    }
  }

  /** The source's sortedness test means exactly "the digits never decrease". */
  lemma {:induction false} EqualsSortedIff(s: string)
    ensures s == Sort(s) <==> NonDecreasing(s)
  {
    SortSpec(s);
    if NonDecreasing(s) { SortKeepsSorted(s); }
  }

  lemma {:induction false} NonDecreasingAt(s: string, i: int, j: int)
    requires NonDecreasing(s) && 0 <= i <= j < |s|
    ensures s[i] <= s[j]
    decreases j - i
  {
    if i < j {
      assert NoDropAt(s, i);
      NonDecreasingAt(s, i + 1, j);
    }
  }

  // ---------------------------------------------------------------------
  // 2 in [s.count(d) for d in s]
  // ---------------------------------------------------------------------

  /** Some character of s occurs in s exactly twice. */
  predicate SomeCountIsTwo(s: string)
  {
    exists i :: 0 <= i < |s| && Count(s, s[i]) == 2
  }

  /** Some maximal run of equal characters has length exactly two. */
  predicate RunOfTwoAt(s: string, i: int)
  {
    && 0 <= i < |s| - 1 && s[i] == s[i + 1]
    && (i == 0 || s[i - 1] != s[i])
    && (i + 2 == |s| || s[i + 2] != s[i])
  }

  predicate HasRunOfTwo(s: string)
  {
    exists i :: 0 <= i < |s| && RunOfTwoAt(s, i)
  }

  /** Where a non-decreasing string steps up at j, the character before
      the step does not occur from j on, and the one after it not before j. */
  lemma StepApart(s: string, j: int)
    requires NonDecreasing(s) && 0 < j < |s| && s[j - 1] != s[j]
    ensures s[j] !in s[..j] && s[j - 1] !in s[j..]
  {
    assert NoDropAt(s, j - 1);
    assert s[j - 1] as int < s[j] as int;
    forall k | 0 <= k < j ensures s[..j][k] != s[j] {
      NonDecreasingAt(s, k, j - 1);
      assert s[k] as int < s[j] as int;
    }
    forall k | 0 <= k < |s| - j ensures s[j..][k] != s[j - 1] {
      NonDecreasingAt(s, j, j + k);
      assert s[j + k] as int > s[j - 1] as int;
    }
  }

  lemma {:induction false} RunOfTwoCounted(s: string, i: int)
    requires NonDecreasing(s) && RunOfTwoAt(s, i)
    ensures Count(s, s[i]) == 2
  {
    var c := s[i];
    var a, b, d := s[..i], s[i..i + 2], s[i + 2..];
    assert s == a + (b + d);
    if i > 0 { StepApart(s, i); }
    if i + 2 < |s| { StepApart(s, i + 2); }
    CountBounds(a, c);
    CountBounds(d, c);
    assert b == [c] + [c];
    CountCons(c, [c], c);
    CountConcat(a, b + d, c);
    CountConcat(b, d, c);
  }

  lemma {:induction false} NonDecreasingSuffix(s: string, f: nat)
    requires NonDecreasing(s) && f <= |s|
    ensures NonDecreasing(s[f..])
  {
    forall k | 0 <= k < |s[f..]| - 1 ensures NoDropAt(s[f..], k) {
      assert NoDropAt(s, f + k);
    }
  }

  /** A non-decreasing string that starts with the only two copies of c
      starts with exactly two of them. */
  lemma {:induction false} PairAtFront(t: string, c: char)
    requires NonDecreasing(t) && |t| >= 1 && t[0] == c && Count(t, c) == 2
    ensures |t| >= 2 && t[1] == c && (|t| > 2 ==> t[2] != c)
  {
    var u := t[1..];
    assert t == [c] + u;
    CountCons(c, u, c);
    CountBounds(u, c);
    var g := IndexOf(u, c);
    NonDecreasingAt(t, 0, 1);
    NonDecreasingAt(t, 1, 1 + g);
    assert t[1 + g] == c;
    assert t[1] as int == c as int;
    if |t| > 2 {
      var w := u[1..];
      assert u == [c] + w;
      CountCons(c, w, c);
      assert w[0] == t[2];
    }
  }

  lemma {:induction false} CountTwoIsRun(s: string, i: int)
    requires NonDecreasing(s) && 0 <= i < |s| && Count(s, s[i]) == 2
    ensures HasRunOfTwo(s)
  {
    var c := s[i];
    var f := IndexOf(s, c);
    var t := s[f..];
    assert c !in s[..f] by {
      forall k | 0 <= k < f ensures s[..f][k] != c { }
    }
    assert s == s[..f] + t;
    CountBounds(s[..f], c);
    CountConcat(s[..f], t, c);
    NonDecreasingSuffix(s, f);
    PairAtFront(t, c);
    assert RunOfTwoAt(s, f);
  }

  /** For digits that never decrease, "some digit's count is two" (the
      source's test) is "some run of equal digits has length two" (the
      puzzle's rule). */
  lemma {:induction false} CountTwoIffRunOfTwo(s: string)
    requires NonDecreasing(s)
    ensures SomeCountIsTwo(s) <==> HasRunOfTwo(s)
  {
    if SomeCountIsTwo(s) {
      var i :| 0 <= i < |s| && Count(s, s[i]) == 2;
      CountTwoIsRun(s, i);
    }
    if HasRunOfTwo(s) {
      var i :| 0 <= i < |s| && RunOfTwoAt(s, i);
      RunOfTwoCounted(s, i);
    }
  }

  // ---------------------------------------------------------------------
  // The two password rules and the counting loops
  // ---------------------------------------------------------------------

  predicate MeetsPart1(n: nat)
  {
    var s := Digits(n);
    SearchDouble(s).Some? && s == Sort(s)
  }

  predicate MeetsPart2(n: nat)
  {
    var s := Digits(n);
    SearchDouble(s).Some? && SomeCountIsTwo(s) && s == Sort(s)
  }

  /** The integers of [low, high) that pass a rule. */
  ghost function Window(low: nat, high: int, rule: nat -> bool): set<nat>
  {
    set n: nat | low <= n < high && rule(n)
  }

  lemma {:induction false} WindowStep(low: nat, i: nat, rule: nat -> bool)
    requires low <= i
    ensures |Window(low, i + 1, rule)| == |Window(low, i, rule)| + (if rule(i) then 1 else 0)
  {
    if rule(i) {
      assert Window(low, i + 1, rule) == Window(low, i, rule) + {i};
    } else {
      assert Window(low, i + 1, rule) == Window(low, i, rule);
    }
  }

  lemma WindowEmpty(low: nat, high: int, rule: nat -> bool)
    requires high <= low
    ensures |Window(low, high, rule)| == 0
  {
    assert Window(low, high, rule) == {};
  }

  /** The running total of a counting loop over [low, high). */
  ghost function Tally(low: nat, high: int, rule: nat -> bool): nat
    decreases high - low
  {
    if high <= low then 0 else Tally(low, high - 1, rule) + (if rule(high - 1) then 1 else 0)
  }

  lemma {:induction false} TallyIsWindow(low: nat, high: int, rule: nat -> bool)
    ensures Tally(low, high, rule) == |Window(low, high, rule)|
    decreases high - low
  {
    if high <= low {
      WindowEmpty(low, high, rule);
    } else {
      TallyIsWindow(low, high - 1, rule);
      WindowStep(low, high - 1, rule);
    }
  }

  /** The tests `part_1()` applies to one number, in the source's order. */
  method CheckPart1(i: nat) returns (ok: bool)
    ensures ok == MeetsPart1(i)
  {
    ok := false;
    var s := Digits(i);
    var found := SearchDouble(s);
    if found.Some? {
      if s == Sort(s) {
        ok := true;
      }
    }
  }

  /** The tests `part_2()` applies to one number, in the source's order. */
  method CheckPart2(i: nat) returns (ok: bool)
    ensures ok == MeetsPart2(i)
  {
    ok := false;
    var s := Digits(i);
    var found := SearchDouble(s);
    if found.Some? {
      if SomeCountIsTwo(s) {
        if s == Sort(s) {
          ok := true;
        }
      }
    }
  }

  /** `part_1()` with the bounds it reads from the input passed in: the
      number of integers in [low, high] meeting the part 1 rule. */
  method Part1(low: nat, high: int) returns (total: nat)
    ensures total == |Window(low, high + 1, MeetsPart1)|
  {
    total := 0;
    var i := low;
    while i < high + 1
      invariant low <= i && (i == low || i <= high + 1)
      invariant total == Tally(low, i, MeetsPart1)
    {
      var ok := CheckPart1(i);
      if ok {
        total := total + 1;
      }
      i := i + 1;
    }
    TallyIsWindow(low, high + 1, MeetsPart1);
  }

  /** `part_2()`: as `part_1()`, with the extra "some digit occurs exactly
      twice" test. */
  method Part2(low: nat, high: int) returns (total: nat)
    ensures total == |Window(low, high + 1, MeetsPart2)|
  {
    total := 0;
    var i := low;
    while i < high + 1
      invariant low <= i && (i == low || i <= high + 1)
      invariant total == Tally(low, i, MeetsPart2)
    {
      var ok := CheckPart2(i);
      if ok {
        total := total + 1;
      }
      i := i + 1;
    }
    TallyIsWindow(low, high + 1, MeetsPart2);
  }

  lemma {:induction false} WindowBound(low: nat, i: nat, rule: nat -> bool)
    ensures |Window(low, i, rule)| <= if low <= i then i - low else 0
    decreases i
  {
    if i <= low {
      assert Window(low, i, rule) == {};
    } else {
      WindowBound(low, i - 1, rule);
      WindowStep(low, i - 1, rule);
    }
  }

  lemma {:induction false} WindowMonotone(low: nat, i: nat, weaker: nat -> bool, stronger: nat -> bool)
    requires forall n :: stronger(n) ==> weaker(n)
    ensures |Window(low, i, stronger)| <= |Window(low, i, weaker)|
    decreases i
  {
    if i <= low {
      assert Window(low, i, stronger) == {};
    } else {
      WindowMonotone(low, i - 1, weaker, stronger);
      WindowStep(low, i - 1, weaker);
      WindowStep(low, i - 1, stronger);
    }
  }

  /** Part 1 counts at most the size of the range, and nothing when the
      range is empty; part 2's extra test can only lower the count. */
  lemma PartCountBounds(low: nat, high: nat)
    ensures |Window(low, high + 1, MeetsPart1)| <= if low <= high then high - low + 1 else 0
    ensures |Window(low, high + 1, MeetsPart2)| <= |Window(low, high + 1, MeetsPart1)|
  {
    WindowBound(low, high + 1, MeetsPart1);
    WindowMonotone(low, high + 1, MeetsPart1, MeetsPart2);
  }

  /** Part 1 accepts exactly the numbers whose digits never decrease and
      hold two equal adjacent digits. */
  lemma Part1Rule(n: nat)
    ensures MeetsPart1(n) <==> NonDecreasing(Digits(n)) && exists i :: DoubleAt(Digits(n), i)
  {
    EqualsSortedIff(Digits(n));
  }

  /** Part 2 accepts exactly the numbers whose digits never decrease and
      hold a run of exactly two equal digits, the rule the puzzle states. */
  lemma Part2Rule(n: nat)
    ensures MeetsPart2(n) <==> NonDecreasing(Digits(n)) && HasRunOfTwo(Digits(n))
  {
    var s := Digits(n);
    EqualsSortedIff(s);
    if NonDecreasing(s) {
      CountTwoIffRunOfTwo(s);
      if HasRunOfTwo(s) {
        var i :| 0 <= i < |s| && RunOfTwoAt(s, i);
        assert DoubleAt(s, i);
      }
    }
  }

  // The examples of the puzzle text.

  lemma Digits111111()
    ensures Digits(111111) == "111111"
  {
    assert Digits(1) == "1";
    assert Digits(11) == "11";
    assert Digits(111) == "111";
    assert Digits(1111) == "1111";
    assert Digits(11111) == "11111";
  }

  lemma Example111111()
    ensures MeetsPart1(111111)
  {
    var s := "111111";
    assert NonDecreasing(s) by {
      forall i | 0 <= i < |s| - 1 ensures NoDropAt(s, i) { }
    }
    assert DoubleAt(s, 0);
    Digits111111();
    Part1Rule(111111);
  }

  lemma Digits223450()
    ensures Digits(223450) == "223450"
  {
    assert Digits(2) == "2";
    assert Digits(22) == "22";
    assert Digits(223) == "223";
    assert Digits(2234) == "2234";
    assert Digits(22345) == "22345";
  }

  lemma Example223450()
    ensures !MeetsPart1(223450)
  {
    Digits223450();
    assert !NoDropAt("223450", 4);
    Part1Rule(223450);
  }

  lemma Digits123789()
    ensures Digits(123789) == "123789"
  {
    assert Digits(1) == "1";
    assert Digits(12) == "12";
    assert Digits(123) == "123";
    assert Digits(1237) == "1237";
    assert Digits(12378) == "12378";
  }

  lemma Example123789()
    ensures !MeetsPart1(123789)
  {
    var s := "123789";
    assert forall j :: !DoubleAt(s, j) by {
      forall j ensures !DoubleAt(s, j) { }
    }
    Digits123789();
    Part1Rule(123789);
  }

  lemma Digits112233()
    ensures Digits(112233) == "112233"
  {
    assert Digits(1) == "1";
    assert Digits(11) == "11";
    assert Digits(112) == "112";
    assert Digits(1122) == "1122";
    assert Digits(11223) == "11223";
  }

  lemma Example112233()
    ensures MeetsPart2(112233)
  {
    var s := "112233";
    assert NonDecreasing(s) by {
      forall i | 0 <= i < |s| - 1 ensures NoDropAt(s, i) { }
    }
    Digits112233();
    assert RunOfTwoAt(s, 0);
    Part2Rule(112233);
  }

  lemma Digits111122()
    ensures Digits(111122) == "111122"
  {
    assert Digits(1) == "1";
    assert Digits(11) == "11";
    assert Digits(111) == "111";
    assert Digits(1111) == "1111";
    assert Digits(11112) == "11112";
  }

  lemma Example111122()
    ensures MeetsPart2(111122)
  {
    var s := "111122";
    assert NonDecreasing(s) by {
      forall i | 0 <= i < |s| - 1 ensures NoDropAt(s, i) { }
    }
    Digits111122();
    assert RunOfTwoAt(s, 4);
    Part2Rule(111122);
  }

  lemma Digits123444()
    ensures Digits(123444) == "123444"
  {
    assert Digits(1) == "1";
    assert Digits(12) == "12";
    assert Digits(123) == "123";
    assert Digits(1234) == "1234";
    assert Digits(12344) == "12344";
  }

  lemma Example123444()
    ensures !MeetsPart2(123444)
  {
    var s := "123444";
    assert !HasRunOfTwo(s) by {
      forall i | 0 <= i < |s| ensures !RunOfTwoAt(s, i) { }
    }
    Digits123444();
    Part2Rule(123444);
  }
}
