/**
 * Decimal digits and the numbers they spell, with the digit assembly of
 * `highest` in Solution.java: all digits sorted ascending, then summed with
 * place values 1, 10, 100, ... so that the smallest digit is the units digit.
 */
module Digits {

  type Digit = d: int | 0 <= d <= 9

  function Pow10(k: nat): (p: nat)
    ensures p >= 1
  {
    if k == 0 then 1 else 10 * Pow10(k - 1)
  }

  /** The value of the decimal numeral `ds`, most significant digit first. */
  function Number(ds: seq<Digit>): nat
  {
    if |ds| == 0 then 0 else ds[0] * Pow10(|ds| - 1) + Number(ds[1..])
  }

  function Sum(s: seq<int>): int
  {
    if |s| == 0 then 0 else s[0] + Sum(s[1..])
  }

  predicate Ascending(s: seq<Digit>)
  {
    forall i, j | 0 <= i < j < |s| :: s[i] <= s[j]
  }

  predicate NonIncreasing(s: seq<Digit>)
  {
    forall i, j | 0 <= i < j < |s| :: s[i] >= s[j]
  }

  function Reverse(s: seq<Digit>): (r: seq<Digit>)
    ensures |r| == |s| && multiset(r) == multiset(s)
    ensures forall i | 0 <= i < |s| :: r[i] == s[|s| - 1 - i]
  {
    if |s| == 0 then []
    else
      assert s == s[..|s| - 1] + [s[|s| - 1]];
      [s[|s| - 1]] + Reverse(s[..|s| - 1])
  }

  /** Inserts `x` into the ascending sequence `s`. */
  function Insert(x: Digit, s: seq<Digit>): (r: seq<Digit>)
    requires Ascending(s)
    ensures Ascending(r) && multiset(r) == multiset(s) + multiset{x} && |r| == |s| + 1
  {
    if |s| == 0 || x <= s[0] then [x] + s
    else
      var rest := Insert(x, s[1..]);
      assert s == [s[0]] + s[1..];
      InsertedBelow(x, s, rest);
      ConsAscending(s[0], rest);
      [s[0]] + rest
  }

  /** Inserting x, which exceeds the first digit of s, into the rest of s keeps every digit above the first. */
  lemma InsertedBelow(x: Digit, s: seq<Digit>, rest: seq<Digit>)
    requires |s| > 0 && Ascending(s) && s[0] < x
    requires multiset(rest) == multiset(s[1..]) + multiset{x}
    ensures forall k | 0 <= k < |rest| :: s[0] <= rest[k]
  {
    forall k | 0 <= k < |rest|
      ensures s[0] <= rest[k]
    {
      assert rest[k] in multiset(rest);
      if rest[k] != x {
        assert rest[k] in multiset(s[1..]);
        var j :| 0 <= j < |s[1..]| && s[1..][j] == rest[k];
        assert s[j + 1] == rest[k];
      }
    }
  }

  /** A digit no larger than any of an ascending sequence may go in front of it. */
  lemma ConsAscending(x: Digit, rest: seq<Digit>)
    requires Ascending(rest) && forall k | 0 <= k < |rest| :: x <= rest[k]
    ensures Ascending([x] + rest)
  {
    var r := [x] + rest;
    forall i, j | 0 <= i < j < |r|
      ensures r[i] <= r[j]
    {
      assert r[j] == rest[j - 1];
      if i > 0 {
        assert r[i] == rest[i - 1];
      }
    }
  }

  /** Collections.sort: the digits of `s` in ascending order. */
  function Sort(s: seq<Digit>): (r: seq<Digit>)
    ensures Ascending(r) && multiset(r) == multiset(s) && |r| == |s|
  {
    if |s| == 0 then []
    else
      assert s == s[..|s| - 1] + [s[|s| - 1]];
      Insert(s[|s| - 1], Sort(s[..|s| - 1]))
  }

  /** The number `highest` forms from the digits `all`: largest digit first. */
  function HighestOf(all: seq<Digit>): nat
  {
    Number(Reverse(Sort(all)))
  }

  /**
   * highest(a, b, c): sorts the three lists together ascending and adds each
   * digit times its column, the columns growing tenfold from the units.
   */
  method Highest(a: seq<Digit>, b: seq<Digit>, c: seq<Digit>) returns (sum: nat)
    ensures sum == HighestOf(a + b + c)
  {
    var all := Sort(a + b + c);
    sum := 0;
    var column: nat := 1;
    var k := 0;
    while k < |all|
      invariant 0 <= k <= |all|
      invariant column == Pow10(k)
      invariant sum == Number(Reverse(all[..k]))
    {
      NumberOfReversedPrefix(all, k);
      sum := sum + all[k] * column;
      column := column * 10;
      k := k + 1;
    }
    assert all[..k] == all;
  }

  /** Extending the prefix by one digit puts that digit in front, at place value 10^k. */
  lemma NumberOfReversedPrefix(s: seq<Digit>, k: nat)
    requires k < |s|
    ensures Number(Reverse(s[..k + 1])) == s[k] * Pow10(k) + Number(Reverse(s[..k]))
  {
    assert s[..k + 1][..k] == s[..k];
    var r := Reverse(s[..k + 1]);
    assert r == [s[k]] + Reverse(s[..k]);
    assert r[1..] == Reverse(s[..k]);
  }

  lemma ReverseAscending(s: seq<Digit>)
    requires Ascending(s)
    ensures NonIncreasing(Reverse(s))
  {
  }

  /** Two non-increasing arrangements of the same digits are the same sequence. */
  lemma {:induction false} NonIncreasingUnique(a: seq<Digit>, b: seq<Digit>)
    requires NonIncreasing(a) && NonIncreasing(b) && multiset(a) == multiset(b)
    ensures a == b
    decreases |a|
  {
    assert |b| == |multiset(b)| == |a|;
    if |a| > 0 {
      SameHead(a, b);
      TailsPermutation(a, b);
      NonIncreasingTail(a);
      NonIncreasingTail(b);
      NonIncreasingUnique(a[1..], b[1..]);
      assert a == [a[0]] + a[1..] && b == [b[0]] + b[1..];
    }
  }

  /** Two non-increasing arrangements of the same digits start with the same, largest, digit. */
  lemma SameHead(a: seq<Digit>, b: seq<Digit>)
    requires NonIncreasing(a) && NonIncreasing(b) && multiset(a) == multiset(b) && |a| > 0
    ensures |b| > 0 && a[0] == b[0]
  {
    assert a[0] in multiset(b);
    assert b[0] in multiset(a);
    var j :| 0 <= j < |a| && a[j] == b[0];
    var i :| 0 <= i < |b| && b[i] == a[0];
  }

  /** highest's result is the number spelled by any non-increasing arrangement of its digits. */
  lemma HighestOfArrangement(all: seq<Digit>, d: seq<Digit>)
    requires NonIncreasing(d) && multiset(d) == multiset(all)
    ensures HighestOf(all) == Number(d)
  {
    ReverseAscending(Sort(all));
    NonIncreasingUnique(Reverse(Sort(all)), d);
  }

  /** The same digits, in whatever order, give the same highest number. */
  lemma HighestOfPermutation(u: seq<Digit>, v: seq<Digit>)
    requires multiset(u) == multiset(v)
    ensures HighestOf(u) == HighestOf(v)
  {
    ReverseAscending(Sort(v));
    HighestOfArrangement(u, Reverse(Sort(v)));
  }

  /** The sum of the digits, counted through their multiplicities. */
  function DigitTotal(m: multiset<Digit>): int
  {
    m[1] + 2 * m[2] + 3 * m[3] + 4 * m[4] + 5 * m[5] + 6 * m[6] + 7 * m[7] + 8 * m[8] + 9 * m[9]
  }

  /** How many digits of `m` leave remainder `rho` when divided by three. */
  function ResidueCount(m: multiset<Digit>, rho: nat): nat
    requires rho < 3
  {
    m[rho] + m[rho + 3] + m[rho + 6] + (if rho == 0 then m[9] else 0)
  }

  lemma DigitTotalSingle(x: Digit)
    ensures DigitTotal(multiset{x}) == x
  {
  }

  lemma DigitTotalUnion(a: multiset<Digit>, b: multiset<Digit>)
    ensures DigitTotal(a + b) == DigitTotal(a) + DigitTotal(b)
  {
  }

  lemma {:induction false} SumIsDigitTotal(s: seq<Digit>)
    ensures Sum(s) == DigitTotal(multiset(s))
    decreases |s|
  {
    if |s| > 0 {
      assert s == [s[0]] + s[1..];
      assert multiset(s) == multiset{s[0]} + multiset(s[1..]);
      SumIsDigitTotal(s[1..]);
      DigitTotalSingle(s[0]);
      DigitTotalUnion(multiset{s[0]}, multiset(s[1..]));
    }
  }

  lemma SumSnoc(s: seq<Digit>)
    requires |s| > 0
    ensures Sum(s) == Sum(s[..|s| - 1]) + s[|s| - 1]
  {
    assert s == s[..|s| - 1] + [s[|s| - 1]];
    assert multiset(s) == multiset(s[..|s| - 1]) + multiset{s[|s| - 1]};
    SumIsDigitTotal(s);
    SumIsDigitTotal(s[..|s| - 1]);
    DigitTotalUnion(multiset(s[..|s| - 1]), multiset{s[|s| - 1]});
    DigitTotalSingle(s[|s| - 1]);
  }

  /** Digits that all leave remainder rho are all counted by ResidueCount(_, rho) and by no other. */
  lemma {:induction false} PureResidueCount(s: seq<Digit>, rho: nat, other: nat)
    requires rho < 3 && other < 3 && rho != other
    requires forall x | x in s :: x % 3 == rho
    ensures ResidueCount(multiset(s), rho) == |s|
    ensures ResidueCount(multiset(s), other) == 0
    decreases |s|
  {
    if |s| > 0 {
      assert s == [s[0]] + s[1..];
      assert multiset(s) == multiset{s[0]} + multiset(s[1..]);
      assert s[0] in s;
      assert s[0] == rho || s[0] == rho + 3 || s[0] == rho + 6 || s[0] == 9;
      assert forall x | x in s[1..] :: x in s;
      PureResidueCount(s[1..], rho, other);
    }
  }

  /** A digit sum is congruent modulo three to the residue counts it is made of. */
  lemma DigitTotalMod3(m: multiset<Digit>)
    ensures DigitTotal(m) % 3 == (ResidueCount(m, 1) + 2 * ResidueCount(m, 2)) % 3
  {
    var rest := m[3] + 2 * m[6] + 3 * m[9] + m[4] + 2 * m[7] + m[5] + 2 * m[8];
    assert DigitTotal(m) == ResidueCount(m, 1) + 2 * ResidueCount(m, 2) + 3 * rest;
  }

  lemma {:induction false} Pow10Add(a: nat, b: nat)
    ensures Pow10(a + b) == Pow10(a) * Pow10(b)
    decreases a
  {
    if a > 0 {
      Pow10Add(a - 1, b);
      assert Pow10(a + b) == 10 * Pow10(a - 1 + b);
    }
  }

  lemma {:induction false} Pow10Monotone(a: nat, b: nat)
    requires a <= b
    ensures Pow10(a) <= Pow10(b)
    decreases b
  {
    if a < b {
      Pow10Monotone(a, b - 1);
    }
  }

  lemma TenTimesMod3(p: nat)
    requires p % 3 == 1
    ensures (10 * p) % 3 == 1
  {
    var q := p / 3;
    assert p == 3 * q + 1;
    assert 10 * p == 3 * (10 * q + 3) + 1;
  }

  lemma {:induction false} Pow10Mod3(k: nat)
    ensures Pow10(k) % 3 == 1
    decreases k
  {
    if k > 0 {
      Pow10Mod3(k - 1);
      TenTimesMod3(Pow10(k - 1));
    }
  }

  /** A numeral of n digits is below 10^n. */
  lemma {:induction false} NumberBound(ds: seq<Digit>)
    ensures Number(ds) < Pow10(|ds|)
    decreases |ds|
  {
    if |ds| > 0 {
      NumberBound(ds[1..]);
      var p := Pow10(|ds| - 1);
      assert ds[0] * p <= 9 * p;
    }
  }

  lemma Regroup(d: int, p: int, q: int, n: int, m: int)
    ensures d * (p * q) + n * q + m == (d * p + n) * q + m
  {
  }

  /** Writing y after x shifts x left by |y| places. */
  lemma {:induction false} NumberAppend(x: seq<Digit>, y: seq<Digit>)
    ensures Number(x + y) == Number(x) * Pow10(|y|) + Number(y)
    decreases |x|
  {
    if |x| == 0 {
      assert x + y == y;
    } else {
      var xy := x + y;
      assert xy[0] == x[0] && xy[1..] == x[1..] + y;
      NumberAppend(x[1..], y);
      Pow10Add(|x| - 1, |y|);
      var p, q := Pow10(|x| - 1), Pow10(|y|);
      assert Number(xy) == x[0] * (p * q) + Number(x[1..]) * q + Number(y);
      Regroup(x[0], p, q, Number(x[1..]), Number(y));
    }
  }

  /** The last digit of a numeral is its units digit. */
  lemma NumberUnits(ds: seq<Digit>)
    requires |ds| > 0
    ensures Number(ds) % 10 == ds[|ds| - 1]
  {
    var n := |ds|;
    var front, d := ds[..n - 1], ds[n - 1];
    assert ds == front + [d];
    NumberAppend(front, [d]);
    assert Number([d]) == d && Pow10(1) == 10;
    UnitsDigit(Number(front), d);
  }

  lemma UnitsDigit(a: nat, d: Digit)
    ensures (a * 10 + d) % 10 == d
  {
  }

  lemma Mod3Step(d: int, p: int, n: int, m: int)
    requires p % 3 == 1 && n % 3 == m % 3
    ensures (d * p + n) % 3 == (d + m) % 3
  {
    var q := p / 3;
    assert p == 3 * q + 1;
    assert d * p == 3 * (d * q) + d;
  }

  /** A number is congruent modulo three to the sum of its digits. */
  lemma {:induction false} NumberMod3(ds: seq<Digit>)
    ensures Number(ds) % 3 == Sum(ds) % 3
    decreases |ds|
  {
    if |ds| > 0 {
      NumberMod3(ds[1..]);
      Pow10Mod3(|ds| - 1);
      Mod3Step(ds[0], Pow10(|ds| - 1), Number(ds[1..]), Sum(ds[1..]));
    }
  }

  /** The units digit of highest's result is the smallest digit it was given. */
  lemma HighestOfUnits(all: seq<Digit>)
    requires |all| > 0
    ensures HighestOf(all) % 10 in multiset(all)
    ensures forall x | x in all :: HighestOf(all) % 10 <= x
  {
    var sorted := Sort(all);
    var d := Reverse(sorted);
    NumberUnits(d);
    assert d[|d| - 1] == sorted[0];
    assert sorted[0] in multiset(sorted);
    forall x | x in all
      ensures sorted[0] <= x
    {
      assert x in multiset(sorted);
    }
  }

  /** Some sequence holding exactly the digits of `m`. */
  ghost function SeqOf(m: multiset<Digit>): (s: seq<Digit>)
    ensures multiset(s) == m
    decreases |m|
  {
    if |m| == 0 then []
    else
      var x :| x in m;
      [x] + SeqOf(m - multiset{x})
  }

  lemma MulMonotone(a: int, b: int, c: nat)
    requires a <= b
    ensures a * c <= b * c
  {
  }

  /** Of two numerals with the same place value p, the larger leading digit wins. */
  lemma LeadingDigitWins(a: int, b: int, p: nat, n: int, m: int)
    requires 0 <= a < b && 0 <= n < p && 0 <= m
    ensures a * p + n < b * p + m
  {
    MulMonotone(a + 1, b, p);
  }

  /** The arrangement highest spells: the digits of `t`, largest first. */
  lemma DescendingArrangement(t: seq<Digit>) returns (d: seq<Digit>)
    ensures NonIncreasing(d) && multiset(d) == multiset(t) && |d| == |t|
    ensures HighestOf(t) == Number(d)
  {
    d := Reverse(Sort(t));
    ReverseAscending(Sort(t));
    assert |d| == |multiset(d)| == |multiset(t)| == |t|;
  }

  /** The leading digit of a non-increasing arrangement is its largest. */
  lemma LeadingIsLargest(d: seq<Digit>, x: Digit)
    requires NonIncreasing(d) && x in multiset(d)
    ensures |d| > 0 && x <= d[0]
  {
    var i :| 0 <= i < |d| && d[i] == x;
  }

  /** No arrangement of the digits spells a larger number than the non-increasing one. */
  lemma {:induction false} ArrangementAtMostDescending(t: seq<Digit>, d: seq<Digit>)
    requires NonIncreasing(d) && multiset(d) == multiset(t)
    ensures Number(t) <= Number(d)
    decreases |t|
  {
    assert |t| == |multiset(t)| == |d|;
    if |t| > 0 {
      LeadingIsLargest(d, t[0]);
      if t[0] == d[0] {
        TailsPermutation(t, d);
        NonIncreasingTail(d);
        ArrangementAtMostDescending(t[1..], d[1..]);
        SameLeadingDigit(t, d);
      } else {
        NumberBound(t[1..]);
        LeadingDigitWins(t[0], d[0], Pow10(|t| - 1), Number(t[1..]), Number(d[1..]));
      }
    }
  }

  /** No arrangement of the digits spells a larger number than highest's. */
  lemma ArrangementAtMostHighest(t: seq<Digit>)
    ensures Number(t) <= HighestOf(t)
  {
    var d := DescendingArrangement(t);
    ArrangementAtMostDescending(t, d);
  }

  lemma NonIncreasingTail(d: seq<Digit>)
    requires NonIncreasing(d) && |d| > 0
    ensures NonIncreasing(d[1..])
  {
  }

  lemma TailsPermutation(t: seq<Digit>, d: seq<Digit>)
    requires |t| > 0 && |d| > 0 && t[0] == d[0] && multiset(t) == multiset(d)
    ensures multiset(t[1..]) == multiset(d[1..])
  {
    assert t == [t[0]] + t[1..] && d == [d[0]] + d[1..];
    assert multiset(t) == multiset{t[0]} + multiset(t[1..]);
    assert multiset(d) == multiset{d[0]} + multiset(d[1..]);
    assert multiset(t[1..]) == multiset(t) - multiset{t[0]};
    assert multiset(d[1..]) == multiset(d) - multiset{d[0]};
  }

  lemma SameLeadingDigit(t: seq<Digit>, d: seq<Digit>)
    requires |t| == |d| > 0 && t[0] == d[0] && Number(t[1..]) <= Number(d[1..])
    ensures Number(t) <= Number(d)
  {
  }

  /** Highest's result can only grow when more digits are available. */
  lemma HighestOfMonotone(u: seq<Digit>, v: seq<Digit>)
    requires multiset(u) <= multiset(v)
    ensures HighestOf(u) <= HighestOf(v)
  {
    var du := DescendingArrangement(u);
    var dv := DescendingArrangement(v);
    SubArrangementAtMost(du, dv);
  }

  /** A non-increasing numeral is no larger than one spelled with at least its digits. */
  lemma SubArrangementAtMost(du: seq<Digit>, dv: seq<Digit>)
    requires NonIncreasing(dv) && multiset(du) <= multiset(dv)
    ensures Number(du) <= Number(dv)
  {
    var r := SeqOf(multiset(dv) - multiset(du));
    AppendNotSmaller(du, r);
    assert multiset(du + r) == multiset(dv);
    ArrangementAtMostDescending(du + r, dv);
  }

  /** Writing more digits after a numeral never makes it smaller. */
  lemma AppendNotSmaller(x: seq<Digit>, y: seq<Digit>)
    ensures Number(x) <= Number(x + y)
  {
    NumberAppend(x, y);
    NotSmaller(Number(x), Pow10(|y|), Number(y));
  }

  lemma NotSmaller(a: nat, p: nat, b: nat)
    requires p >= 1
    ensures a <= a * p + b
  {
    MulMonotone(1, p, a);
  }

  /** Raising one digit of a numeral never lowers its value. */
  lemma {:induction false} NumberUpdate(d: seq<Digit>, i: nat, y: Digit)
    requires i < |d| && d[i] <= y
    ensures Number(d[i := y]) >= Number(d)
    decreases |d|
  {
    var p := Pow10(|d| - 1);
    if i == 0 {
      assert d[i := y][1..] == d[1..];
      MulMonotone(d[0], y, p);
    } else {
      assert d[i := y][1..] == d[1..][i - 1 := y];
      NumberUpdate(d[1..], i - 1, y);
    }
  }

  /** Trading one available digit for a larger one never lowers highest's result. */
  lemma HighestOfReplace(b: seq<Digit>, p: Digit, q: Digit)
    requires p <= q
    ensures HighestOf(b + [p]) <= HighestOf(b + [q])
  {
    var d := DescendingArrangement(b + [p]);
    var dq := DescendingArrangement(b + [q]);
    ReplaceDescending(d, dq, p, q);
  }

  /** Raising one digit of a non-increasing numeral and re-sorting never lowers it. */
  lemma ReplaceDescending(d: seq<Digit>, dq: seq<Digit>, p: Digit, q: Digit)
    requires p <= q && p in multiset(d) && NonIncreasing(dq)
    requires multiset(d) - multiset{p} + multiset{q} == multiset(dq)
    ensures Number(d) <= Number(dq)
  {
    var i :| 0 <= i < |d| && d[i] == p;
    var e := d[i := q];
    UpdateMultiset(d, i, q);
    NumberUpdate(d, i, q);
    ArrangementAtMostDescending(e, dq);
  }

  /** Overwriting one digit trades it for the new one in the multiset. */
  lemma UpdateMultiset(d: seq<Digit>, i: nat, q: Digit)
    requires i < |d|
    ensures multiset(d[i := q]) == multiset(d) - multiset{d[i]} + multiset{q}
  {
    var front, back := d[..i], d[i + 1..];
    assert d == front + [d[i]] + back;
    assert d[i := q] == front + [q] + back;
  }

  /**
   * Leaving out a digit z instead of a smaller digit m never raises the result:
   * u is the pool without z, v the same pool without m.
   */
  lemma DropLargerIsWorse(u: seq<Digit>, v: seq<Digit>, z: Digit, m: Digit)
    requires m <= z && multiset(u) + multiset{z} == multiset(v) + multiset{m}
    ensures HighestOf(u) <= HighestOf(v)
  {
    var du := DescendingArrangement(u);
    var dv := DescendingArrangement(v);
    if z == m {
      CancelOne(multiset(u), multiset(v), z);
      NonIncreasingUnique(du, dv);
    } else {
      SwapCounts(multiset(u), multiset(v), z, m);
      ReplaceDescending(du, dv, m, z);
    }
  }

  lemma CancelOne(a: multiset<Digit>, b: multiset<Digit>, z: Digit)
    requires a + multiset{z} == b + multiset{z}
    ensures a == b
  {
    forall x
      ensures a[x] == b[x]
    {
      assert (a + multiset{z})[x] == (b + multiset{z})[x];
    }
  }

  lemma SwapCounts(a: multiset<Digit>, b: multiset<Digit>, z: Digit, m: Digit)
    requires z != m && a + multiset{z} == b + multiset{m}
    ensures m in a && a - multiset{m} + multiset{z} == b
  {
    assert a[m] == (a + multiset{z})[m] == (b + multiset{m})[m] >= 1;
    forall x
      ensures (a - multiset{m} + multiset{z})[x] == b[x]
    {
      assert (a + multiset{z})[x] == (b + multiset{m})[x];
    }
  }

  /** With a non-zero digit available, one more digit always gives a larger number. */
  lemma HighestOfLonger(u: seq<Digit>, v: seq<Digit>, x: Digit)
    requires |u| < |v| && x in v && x != 0
    ensures HighestOf(u) < HighestOf(v)
  {
    var du := DescendingArrangement(u);
    var dv := DescendingArrangement(v);
    assert x in multiset(v);
    LongerDescending(du, dv, x);
  }

  /** A non-increasing numeral led by a non-zero digit beats every shorter numeral. */
  lemma LongerDescending(du: seq<Digit>, dv: seq<Digit>, x: Digit)
    requires |du| < |dv| && x in multiset(dv) && x != 0 && NonIncreasing(dv)
    ensures Number(du) < Number(dv)
  {
    LeadingIsLargest(dv, x);
    var p := Pow10(|dv| - 1);
    MulMonotone(1, dv[0], p);
    assert Number(dv) >= p;
    NumberBound(du);
    Pow10Monotone(|du|, |dv| - 1);
  }
}
