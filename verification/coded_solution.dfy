/**
 * `solution` of Solution.java end to end: the digits it keeps spell a
 * multiple of three, and no selection of the given digits, in any order,
 * spells a larger one.
 */
module CodedSolution {
  import opened Digits
  import opened CodedMessages

  lemma RemoveAndRestore(s: multiset<Digit>, x: multiset<Digit>)
    requires x <= s
    ensures (s - x) + x == s && |s - x| == |s| - |x|
  {
    assert (s - x) + x == s;
  }

  /** What is kept after removing x from s still covers t when x lies outside t. */
  lemma SubAfterRemoving(s: multiset<Digit>, t: multiset<Digit>, x: multiset<Digit>)
    requires t <= s && x <= s - t
    ensures t <= s - x
  {
  }

  /** A digit of residue rho in d, when d has one. */
  lemma PickResidue(d: multiset<Digit>, rho: nat) returns (x: Digit)
    requires 0 < rho < 3 && ResidueCount(d, rho) > 0
    ensures x in d && x % 3 == rho
  {
    if d[rho] > 0 {
      x := rho;
    } else if d[rho + 3] > 0 {
      x := rho + 3;
    } else {
      x := rho + 6;
    }
  }

  /** Two digits x <= y of residue sigma in d, when d has two. */
  lemma PickPair(d: multiset<Digit>, sigma: nat) returns (x: Digit, y: Digit)
    requires 0 < sigma < 3 && ResidueCount(d, sigma) >= 2
    ensures multiset{x, y} <= d && x <= y && x % 3 == sigma && y % 3 == sigma
  {
    x := PickResidue(d, sigma);
    y := PickResidue(d - multiset{x}, sigma);
    if y < x {
      x, y := y, x;
    }
  }

  /** The digits `solution` keeps are digits of l and their sum is a multiple of three. */
  lemma UsedDigitsFormable(p: Residues, l: seq<Digit>)
    requires ResiduesOf(p, l)
    ensures multiset(UsedDigits(p, l)) <= multiset(l)
    ensures Sum(UsedDigits(p, l)) % 3 == 0
    ensures |UsedDigits(p, l)| + 2 >= |l|
  {
    if Sum(l) % 3 == 0 {
      FormableKeepAll(p, l);
    } else if ResidueCount(multiset(l), Sum(l) % 3) > 0 {
      FormableDropOne(p, l);
    } else {
      FormableDropPair(p, l);
    }
  }

  lemma FormableKeepAll(p: Residues, l: seq<Digit>)
    requires ResiduesOf(p, l) && Sum(l) % 3 == 0
    ensures multiset(UsedDigits(p, l)) <= multiset(l)
    ensures Sum(UsedDigits(p, l)) % 3 == 0
    ensures |UsedDigits(p, l)| == |l|
  {
    var u := UsedDigits(p, l);
    UsedKeepsAll(p, l);
    SumIsDigitTotal(u);
    SumIsDigitTotal(l);
    assert |u| == |multiset(u)| == |multiset(l)| == |l|;
  }

  lemma FormableDropOne(p: Residues, l: seq<Digit>)
    requires ResiduesOf(p, l) && Sum(l) % 3 != 0 && ResidueCount(multiset(l), Sum(l) % 3) > 0
    ensures multiset(UsedDigits(p, l)) <= multiset(l)
    ensures Sum(UsedDigits(p, l)) % 3 == 0
    ensures |UsedDigits(p, l)| + 1 == |l|
  {
    var m := UsedDropsSmallest(p, l);
    DigitTotalSingle(m);
    FormableAfterDrop(l, UsedDigits(p, l), multiset{m});
  }

  lemma FormableDropPair(p: Residues, l: seq<Digit>)
    requires ResiduesOf(p, l) && Sum(l) % 3 != 0 && ResidueCount(multiset(l), Sum(l) % 3) == 0
    ensures multiset(UsedDigits(p, l)) <= multiset(l)
    ensures Sum(UsedDigits(p, l)) % 3 == 0
    ensures |UsedDigits(p, l)| + 2 == |l|
  {
    var a, b := UsedDropsSmallestPair(p, l);
    assert a % 3 == 3 - Sum(l) % 3 && b % 3 == 3 - Sum(l) % 3;
    FormableAfterPair(l, UsedDigits(p, l), a, b);
  }

  /** Removing a pair of digits of the complementary residue leaves a multiple of three. */
  lemma FormableAfterPair(l: seq<Digit>, u: seq<Digit>, a: Digit, b: Digit)
    requires multiset(u) + multiset{a, b} == multiset(l) && Sum(l) % 3 != 0
    requires a % 3 == 3 - Sum(l) % 3 && b % 3 == 3 - Sum(l) % 3
    ensures multiset(u) <= multiset(l) && Sum(u) % 3 == 0 && |u| + 2 == |l|
  {
    var rho, dropped := Sum(l) % 3, multiset{a, b};
    PairTotal(a, b);
    PairRemainder(a, b, rho);
    assert DigitTotal(dropped) % 3 == rho;
    assert |dropped| == 2;
    FormableAfterDrop(l, u, dropped);
  }

  /** Two digits of residue 3 - rho together leave remainder rho. */
  lemma PairRemainder(a: Digit, b: Digit, rho: nat)
    requires 0 < rho < 3 && a % 3 == 3 - rho && b % 3 == 3 - rho
    ensures (a + b) % 3 == rho
  {
  }

  lemma PairTotal(a: Digit, b: Digit)
    ensures DigitTotal(multiset{a, b}) == a + b
  {
    assert multiset{a, b} == multiset{a} + multiset{b};
    DigitTotalUnion(multiset{a}, multiset{b});
    DigitTotalSingle(a);
    DigitTotalSingle(b);
  }

  /** Removing digits whose sum has the remainder of the whole leaves a multiple of three. */
  lemma FormableAfterDrop(l: seq<Digit>, u: seq<Digit>, dropped: multiset<Digit>)
    requires multiset(u) + dropped == multiset(l)
    requires DigitTotal(dropped) % 3 == Sum(l) % 3
    ensures multiset(u) <= multiset(l) && Sum(u) % 3 == 0 && |u| + |dropped| == |l|
  {
    SumIsDigitTotal(u);
    SumIsDigitTotal(l);
    DigitTotalUnion(multiset(u), dropped);
    assert |multiset(l)| == |multiset(u)| + |dropped|;
    SameRemainder(DigitTotal(multiset(l)), DigitTotal(multiset(u)), DigitTotal(dropped));
  }

  lemma SameRemainder(total: int, kept: int, dropped: int)
    requires total == kept + dropped && dropped % 3 == total % 3
    ensures kept % 3 == 0
  {
  }

  /**
   * If t uses only digits of l and its digit sum is a multiple of three while
   * that of l leaves remainder rho, and t leaves out no digit of residue rho,
   * then t leaves out at least two digits of residue 3 - rho.
   */
  lemma LeftOutPair(l: seq<Digit>, t: seq<Digit>)
    requires multiset(t) <= multiset(l) && Sum(t) % 3 == 0 && Sum(l) % 3 != 0
    requires ResidueCount(multiset(l) - multiset(t), Sum(l) % 3) == 0
    ensures ResidueCount(multiset(l) - multiset(t), 3 - Sum(l) % 3) >= 2
  {
    var d := multiset(l) - multiset(t);
    LeftOutSum(l, t);
    LeftOutRemainder(Sum(l), Sum(t), DigitTotal(d));
    LeftOutCounts(d, Sum(l) % 3);
  }

  /** Left-out digits summing to remainder rho, none of residue rho, hold two of residue 3 - rho. */
  lemma LeftOutCounts(d: multiset<Digit>, rho: nat)
    requires (rho == 1 || rho == 2) && DigitTotal(d) % 3 == rho && ResidueCount(d, rho) == 0
    ensures ResidueCount(d, 3 - rho) >= 2
  {
    DigitTotalMod3(d);
    RemainderCases(DigitTotal(d), ResidueCount(d, 1), ResidueCount(d, 2));
  }

  /** The digits left out make up the difference between the two digit sums. */
  lemma LeftOutSum(l: seq<Digit>, t: seq<Digit>)
    requires multiset(t) <= multiset(l)
    ensures Sum(l) == Sum(t) + DigitTotal(multiset(l) - multiset(t))
  {
    var d := multiset(l) - multiset(t);
    RemoveAndRestore(multiset(l), multiset(t));
    SumIsDigitTotal(l);
    SumIsDigitTotal(t);
    DigitTotalUnion(d, multiset(t));
  }

  lemma LeftOutRemainder(total: int, kept: int, left: int)
    requires total == kept + left && kept % 3 == 0 && total % 3 != 0
    ensures left % 3 == total % 3 && (total % 3 == 1 || total % 3 == 2)
  {
  }

  /**
   * Leaving the digits x out of l, where t does not use them: t is at most
   * the largest number spelled by the rest.
   */
  lemma RestCovers(l: seq<Digit>, t: seq<Digit>, x: multiset<Digit>) returns (w: seq<Digit>)
    requires multiset(t) <= multiset(l) && x <= multiset(l) - multiset(t)
    ensures multiset(w) + x == multiset(l) && |w| + |x| == |l|
    ensures HighestOf(t) <= HighestOf(w)
  {
    w := SeqOf(multiset(l) - x);
    SubAfterRemoving(multiset(l), multiset(t), x);
    RemoveAndRestore(multiset(l), x);
    HighestOfMonotone(t, w);
  }

  /**
   * The case where l has a digit of residue rho = Sum(l) % 3 and u is l
   * without the smallest one m: u beats every selection t whose digit sum is
   * a multiple of three.
   */
  lemma OptimalDropOne(l: seq<Digit>, u: seq<Digit>, t: seq<Digit>, m: Digit)
    requires Sum(l) % 3 != 0 && SmallestOfResidue(m, l, Sum(l) % 3)
    requires multiset(u) + multiset{m} == multiset(l)
    requires multiset(t) <= multiset(l) && Sum(t) % 3 == 0
    ensures HighestOf(t) <= HighestOf(u)
  {
    var d := multiset(l) - multiset(t);
    if ResidueCount(d, Sum(l) % 3) > 0 {
      var x := PickResidue(d, Sum(l) % 3);
      LeftOutSameResidue(l, u, t, m, x, Sum(l) % 3);
    } else {
      LeftOutPair(l, t);
      var x, y := PickPair(d, 3 - Sum(l) % 3);
      LeftOutOtherPair(l, u, t, m, x, y, Sum(l) % 3);
    }
  }

  /** t leaves out a digit x of residue rho, which is at least m: giving up x instead of m is no better. */
  lemma LeftOutSameResidue(l: seq<Digit>, u: seq<Digit>, t: seq<Digit>, m: Digit, x: Digit, rho: nat)
    requires SmallestOfResidue(m, l, rho)
    requires multiset(u) + multiset{m} == multiset(l)
    requires multiset(t) <= multiset(l) && x in multiset(l) - multiset(t) && x % 3 == rho
    ensures HighestOf(t) <= HighestOf(u)
  {
    assert x in multiset(l);
    assert x in l;
    assert m <= x;
    var w := RestCovers(l, t, multiset{x});
    DropLargerIsWorse(w, u, x, m);
  }

  /** t leaves out two digits of the other non-zero residue: u keeps one digit more, and a non-zero one. */
  lemma LeftOutOtherPair(l: seq<Digit>, u: seq<Digit>, t: seq<Digit>, m: Digit, x: Digit, y: Digit, rho: nat)
    requires 0 < rho < 3 && m % 3 == rho && x % 3 == 3 - rho
    requires multiset(u) + multiset{m} == multiset(l)
    requires multiset(t) <= multiset(l) && multiset{x, y} <= multiset(l) - multiset(t)
    ensures HighestOf(t) <= HighestOf(u)
  {
    assert x != 0 && x != m;
    assert x in multiset(l);
    assert x in multiset(u);
    assert |multiset(u)| + 1 == |multiset(l)|;
    var w := RestCovers(l, t, multiset{x, y});
    assert |multiset{x, y}| == 2;
    assert |w| + 2 == |l|;
    assert |u| + 1 == |l|;
    assert x in u;
    HighestOfLonger(w, u, x);
  }

  /**
   * The case where l has no digit of residue rho = Sum(l) % 3 and u is l
   * without the two smallest digits a <= b of the other residue: u beats
   * every selection t whose digit sum is a multiple of three.
   */
  lemma OptimalDropPair(l: seq<Digit>, u: seq<Digit>, t: seq<Digit>, a: Digit, b: Digit)
    requires Sum(l) % 3 != 0 && ResidueCount(multiset(l), Sum(l) % 3) == 0
    requires SmallestPair(a, b, u, 3 - Sum(l) % 3)
    requires multiset(u) + multiset{a, b} == multiset(l)
    requires multiset(t) <= multiset(l) && Sum(t) % 3 == 0
    ensures HighestOf(t) <= HighestOf(u)
  {
    var d := multiset(l) - multiset(t);
    ResidueCountBelow(d, multiset(l), Sum(l) % 3);
    LeftOutPair(l, t);
    var x, y := PickPair(d, 3 - Sum(l) % 3);
    var w := RestCovers(l, t, multiset{x, y});
    ExchangeSmallestPair(l, u, w, a, b, x, y, 3 - Sum(l) % 3);
  }

  /** The pair x <= y that t leaves out is pairwise no smaller than the pair a <= b that u leaves out. */
  lemma ExchangeSmallestPair(l: seq<Digit>, u: seq<Digit>, w: seq<Digit>, a: Digit, b: Digit, x: Digit, y: Digit, sigma: nat)
    requires SmallestPair(a, b, u, sigma)
    requires multiset(u) + multiset{a, b} == multiset(l)
    requires multiset(w) + multiset{x, y} == multiset(l)
    requires x <= y && x % 3 == sigma && y % 3 == sigma
    ensures HighestOf(w) <= HighestOf(u)
  {
    assert multiset{x, y} <= multiset(l);
    forall z | z in multiset(u) && z % 3 == sigma
      ensures b <= z
    {
      assert z in u;
    }
    PairDominates(multiset(l), multiset(u), a, b, x, y, sigma);
    ExchangePair(multiset(l), w, u, a, b, x, y);
  }

  /** A sub-multiset has no more digits of any residue. */
  lemma ResidueCountBelow(d: multiset<Digit>, s: multiset<Digit>, rho: nat)
    requires d <= s && rho < 3
    ensures ResidueCount(d, rho) <= ResidueCount(s, rho)
  {
  }

  /**
   * Two digits x <= y of residue sigma taken from l are, pairwise, no smaller
   * than the two smallest such digits a <= b; and l holds a and y together.
   */
  lemma PairDominates(s: multiset<Digit>, rest: multiset<Digit>, a: Digit, b: Digit, x: Digit, y: Digit, sigma: nat)
    requires a <= b && a % 3 == sigma && b % 3 == sigma
    requires forall z | z in rest && z % 3 == sigma :: b <= z
    requires rest + multiset{a, b} == s
    requires multiset{x, y} <= s && x <= y && x % 3 == sigma && y % 3 == sigma
    ensures a <= x && b <= y && multiset{a, y} <= s
  {
    assert x in s && y in s;
    assert x in rest || x == a || x == b;
    assert y in rest || y == a || y == b;
    if y == a && a < b {
      assert false;
    }
    if y == a {
      assert multiset{a, y} == multiset{x, y};
    }
  }

  lemma PairSwap(a: Digit, b: Digit)
    ensures multiset{a, b} == multiset{b, a}
  {
  }

  /** Removing x, c or a, c from the same digits leaves the same digits once x, resp. a, is put back. */
  lemma TradeOne(s: multiset<Digit>, w: multiset<Digit>, v: multiset<Digit>, x: Digit, a: Digit, c: Digit)
    requires w + multiset{x, c} == s && v + multiset{a, c} == s
    ensures w + multiset{x} == v + multiset{a}
  {
    forall z: Digit
      ensures (w + multiset{x})[z] == (v + multiset{a})[z]
    {
      assert (w + multiset{x, c})[z] == (v + multiset{a, c})[z];
    }
  }

  /**
   * Giving up x, y instead of a, b, with a <= x and b <= y, never spells a
   * larger number.
   */
  lemma ExchangePair(s: multiset<Digit>, w: seq<Digit>, u: seq<Digit>, a: Digit, b: Digit, x: Digit, y: Digit)
    requires multiset(w) + multiset{x, y} == s && multiset(u) + multiset{a, b} == s
    requires a <= x && b <= y && multiset{a, y} <= s
    ensures HighestOf(w) <= HighestOf(u)
  {
    var v := SeqOf(s - multiset{a, y});
    RemoveAndRestore(s, multiset{a, y});
    assert multiset(v) + multiset{a, y} == s;
    TradeOne(s, multiset(w), multiset(v), x, a, y);
    DropLargerIsWorse(w, v, x, a);
    PairSwap(a, y);
    PairSwap(a, b);
    TradeOne(s, multiset(v), multiset(u), y, b, a);
    DropLargerIsWorse(v, u, y, b);
  }

  /**
   * Optimality of `solution`: every number spelled by some of the digits of
   * l, in any order, that is a multiple of three is at most the number
   * spelled by the digits `solution` keeps.
   */
  lemma SolutionOptimal(p: Residues, l: seq<Digit>, t: seq<Digit>)
    requires ResiduesOf(p, l)
    requires multiset(t) <= multiset(l) && Number(t) % 3 == 0
    ensures Number(t) <= HighestOf(UsedDigits(p, l))
  {
    NumberMod3(t);
    ArrangementAtMostHighest(t);
    var u := UsedDigits(p, l);
    if Sum(l) % 3 == 0 {
      UsedKeepsAll(p, l);
      HighestOfMonotone(t, u);
    } else if ResidueCount(multiset(l), Sum(l) % 3) > 0 {
      var m := UsedDropsSmallest(p, l);
      OptimalDropOne(l, u, t, m);
    } else {
      var a, b := UsedDropsSmallestPair(p, l);
      OptimalDropPair(l, u, t, a, b);
    }
  }

  /**
   * The digits `solution` keeps spell, largest first, a multiple of three
   * made of digits of l.
   */
  lemma UsedDigitsSpell(p: Residues, l: seq<Digit>) returns (d: seq<Digit>)
    requires ResiduesOf(p, l)
    ensures multiset(d) <= multiset(l) && Number(d) == HighestOf(UsedDigits(p, l))
    ensures Number(d) % 3 == 0
  {
    var u := UsedDigits(p, l);
    UsedDigitsFormable(p, l);
    d := DescendingArrangement(u);
    NumberMod3(d);
    SumIsDigitTotal(d);
    SumIsDigitTotal(u);
  }

  /**
   * `solution` of Solution.java: the largest multiple of three spelled by
   * some of the digits of l, in some order; 0 when there is none.
   */
  method Solution(l: seq<Digit>) returns (r: nat)
    ensures r % 3 == 0
    ensures exists t: seq<Digit> :: multiset(t) <= multiset(l) && Number(t) == r
    ensures forall t: seq<Digit> | multiset(t) <= multiset(l) && Number(t) % 3 == 0 :: Number(t) <= r
  {
    var p := Partition(l);
    var kept := Keep(p);
    // the two `return 0` branches of the switch are dead
    KeepNeverGivesUp(p, l);
    r := Highest(kept.value.k0, kept.value.k1, kept.value.k2);
    assert r == HighestOf(UsedDigits(p, l));
    var d := UsedDigitsSpell(p, l);
    forall t: seq<Digit> | multiset(t) <= multiset(l) && Number(t) % 3 == 0
      ensures Number(t) <= r
    {
      SolutionOptimal(p, l, t);
    }
  }
}
