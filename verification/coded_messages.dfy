/**
 * The largest multiple of three that can be spelled with some of the given
 * digits (Solution.java, `solution`): the digits are split by their remainder
 * modulo three, the digit sum decides which smallest digits to give up, and
 * `highest` spells what is left largest digit first.
 */
module CodedMessages {
  import opened Results
  import opened Digits

  /** The three lists R0, R1, R2 of `solution` and the digit sum `dr`. */
  datatype Residues = Residues(r0: seq<Digit>, r1: seq<Digit>, r2: seq<Digit>, dr: int)

  /**
   * p splits the digits of l by residue: together the lists hold exactly the
   * digits of l, each list only digits of its residue, and dr is their sum.
   */
  predicate ResiduesOf(p: Residues, l: seq<Digit>)
  {
    && multiset(p.r0) + multiset(p.r1) + multiset(p.r2) == multiset(l)
    && (forall x | x in p.r0 :: x % 3 == 0)
    && (forall x | x in p.r1 :: x % 3 == 1)
    && (forall x | x in p.r2 :: x % 3 == 2)
    && p.dr == Sum(l)
  }

  /** The first loop of `solution`: adds each digit to dr and appends it to the list of its residue. */
  method Partition(l: seq<Digit>) returns (p: Residues)
    ensures ResiduesOf(p, l)
  {
    p := Residues([], [], [], 0);
    var k := 0;
    while k < |l|
      invariant 0 <= k <= |l|
      invariant ResiduesOf(p, l[..k])
    {
      var i := l[k];
      assert l[..k + 1] == l[..k] + [i];
      PartitionStep(p, l[..k], i);
      if i % 3 == 0 {
        p := Residues(p.r0 + [i], p.r1, p.r2, p.dr + i);
      } else if i % 3 == 1 {
        p := Residues(p.r0, p.r1 + [i], p.r2, p.dr + i);
      } else {
        p := Residues(p.r0, p.r1, p.r2 + [i], p.dr + i);
      }
      k := k + 1;
    }
    assert l[..k] == l;
  }

  /** Appending a digit to the list of its residue, and adding it to dr, keeps the split exact. */
  lemma PartitionStep(p: Residues, pre: seq<Digit>, i: Digit)
    requires ResiduesOf(p, pre)
    ensures i % 3 == 0 ==> ResiduesOf(Residues(p.r0 + [i], p.r1, p.r2, p.dr + i), pre + [i])
    ensures i % 3 == 1 ==> ResiduesOf(Residues(p.r0, p.r1 + [i], p.r2, p.dr + i), pre + [i])
    ensures i % 3 == 2 ==> ResiduesOf(Residues(p.r0, p.r1, p.r2 + [i], p.dr + i), pre + [i])
  {
    var l := pre + [i];
    assert l[..|pre|] == pre;
    SumSnoc(l);
    assert multiset(l) == multiset(pre) + multiset{i};
  }

  /** The sorted residue lists after the switch on dr % 3. */
  datatype Kept = Kept(k0: seq<Digit>, k1: seq<Digit>, k2: seq<Digit>)
  {
    /** All digits handed to `highest`. */
    function Pool(): seq<Digit>
    {
      k0 + k1 + k2
    }
  }

  /**
   * The switch of `solution` on the residue lists: with dr % 3 == rho != 0,
   * drop the smallest digit of residue rho, or else the two smallest of the
   * other non-zero residue; None where `solution` returns 0 instead.
   */
  function Keep(p: Residues): (r: Option<Kept>)
    ensures r.Some? ==> Ascending(r.value.k0) && Ascending(r.value.k1) && Ascending(r.value.k2)
    ensures r.Some? ==> multiset(r.value.Pool()) <= multiset(p.r0 + p.r1 + p.r2)
  {
    var s0, s1, s2 := Sort(p.r0), Sort(p.r1), Sort(p.r2);
    var r := Drop(p.dr, s0, s1, s2);
    if r.None? then r
    else
      SuffixKept(s1, r.value.k1);
      SuffixKept(s2, r.value.k2);
      assert multiset(r.value.Pool()) == multiset(s0) + multiset(r.value.k1) + multiset(r.value.k2);
      assert multiset(p.r0 + p.r1 + p.r2) == multiset(s0) + multiset(s1) + multiset(s2);
      r
  }

  /** What remains of a sorted list after removing from its front is sorted and drawn from it. */
  lemma SuffixKept(s: seq<Digit>, t: seq<Digit>)
    requires Ascending(s) && |t| <= |s| && t == s[|s| - |t|..]
    ensures Ascending(t) && multiset(t) <= multiset(s)
  {
    assert s == s[..|s| - |t|] + t;
  }

  /** The switch itself, on the digit sum and the three sorted residue lists. */
  function Drop(dr: int, s0: seq<Digit>, s1: seq<Digit>, s2: seq<Digit>): (r: Option<Kept>)
    ensures r.None? <==> dr % 3 != 0 && |if dr % 3 == 1 then s1 else s2| == 0 && |if dr % 3 == 1 then s2 else s1| < 2
    ensures r.Some? ==> r.value.k0 == s0
    ensures r.Some? ==> |r.value.k1| <= |s1| && r.value.k1 == s1[|s1| - |r.value.k1|..]
    ensures r.Some? ==> |r.value.k2| <= |s2| && r.value.k2 == s2[|s2| - |r.value.k2|..]
    ensures r.Some? ==> |s1| + |s2| <= |r.value.k1| + |r.value.k2| + if dr % 3 == 0 then 0 else 2
  {
    if dr % 3 == 0 then Some(Kept(s0, s1, s2))
    else if dr % 3 == 1 then
      if |s1| > 0 then Some(Kept(s0, s1[1..], s2))
      else if |s2| > 1 then Some(Kept(s0, s1, s2[2..]))
      else None
    else if |s2| > 0 then Some(Kept(s0, s1, s2[1..]))
    else if |s1| > 1 then Some(Kept(s0, s1[2..], s2))
    else None
  }

  /** The number of digits of l with remainder rho equals the length of that residue list. */
  lemma PartitionCounts(p: Residues, l: seq<Digit>)
    requires ResiduesOf(p, l)
    ensures ResidueCount(multiset(l), 1) == |p.r1|
    ensures ResidueCount(multiset(l), 2) == |p.r2|
  {
    PureResidueCount(p.r0, 0, 1);
    PureResidueCount(p.r0, 0, 2);
    PureResidueCount(p.r1, 1, 2);
    PureResidueCount(p.r2, 2, 1);
  }

  /**
   * The digit sum is congruent to |R1| + 2 |R2| modulo three, so a sum with
   * remainder 1 and no digit of residue 1 has at least two digits of residue
   * 2, and symmetrically.
   */
  lemma ResidueArithmetic(p: Residues, l: seq<Digit>)
    requires ResiduesOf(p, l)
    ensures p.dr % 3 == 1 && |p.r1| == 0 ==> |p.r2| >= 2
    ensures p.dr % 3 == 2 && |p.r2| == 0 ==> |p.r1| >= 2
  {
    var digits := multiset(l);
    PartitionCounts(p, l);
    SumIsDigitTotal(l);
    DigitTotalMod3(digits);
    RemainderCases(DigitTotal(digits), ResidueCount(digits, 1), ResidueCount(digits, 2));
  }

  lemma RemainderCases(dr: int, c1: nat, c2: nat)
    requires dr % 3 == (c1 + 2 * c2) % 3
    ensures dr % 3 == 1 && c1 == 0 ==> c2 >= 2
    ensures dr % 3 == 2 && c2 == 0 ==> c1 >= 2
  {
  }

  /** `solution` never reaches either `return 0`: the digit sum rules those cases out. */
  lemma KeepNeverGivesUp(p: Residues, l: seq<Digit>)
    requires ResiduesOf(p, l)
    ensures Keep(p).Some?
  {
    ResidueArithmetic(p, l);
    assert |Sort(p.r1)| == |p.r1| && |Sort(p.r2)| == |p.r2|;
  }

  /** s0, s1, s2 are the residue lists of p, each sorted ascending. */
  predicate SortedResidues(p: Residues, s0: seq<Digit>, s1: seq<Digit>, s2: seq<Digit>)
  {
    && Ascending(s0) && multiset(s0) == multiset(p.r0)
    && Ascending(s1) && multiset(s1) == multiset(p.r1)
    && Ascending(s2) && multiset(s2) == multiset(p.r2)
  }

  /** m is the smallest digit of l with remainder rho. */
  predicate SmallestOfResidue(m: Digit, l: seq<Digit>, rho: nat)
  {
    m in l && m % 3 == rho && forall x | x in l && x % 3 == rho :: m <= x
  }

  /** a <= b are two digits of remainder sigma, no larger than any such digit left in pool. */
  predicate SmallestPair(a: Digit, b: Digit, pool: seq<Digit>, sigma: nat)
  {
    a <= b && a % 3 == sigma && b % 3 == sigma && forall x | x in pool && x % 3 == sigma :: b <= x
  }

  lemma InSomeList(a: multiset<Digit>, b: multiset<Digit>, c: multiset<Digit>, all: multiset<Digit>, x: Digit)
    requires a + b + c == all && x in all
    ensures x in a || x in b || x in c
  {
  }

  /** The residue lists hold every digit of l of their residue. */
  lemma ResidueListsComplete(p: Residues, l: seq<Digit>)
    requires ResiduesOf(p, l)
    ensures forall x | x in l && x % 3 == 1 :: x in p.r1
    ensures forall x | x in l && x % 3 == 2 :: x in p.r2
  {
    forall x | x in l
      ensures x % 3 == 1 ==> x in p.r1
      ensures x % 3 == 2 ==> x in p.r2
    {
      assert x in multiset(l);
      InSomeList(multiset(p.r0), multiset(p.r1), multiset(p.r2), multiset(l), x);
      assert x in p.r0 || x in p.r1 || x in p.r2;
    }
  }

  lemma SortedHeadSmallest(s: seq<Digit>, x: Digit)
    requires Ascending(s) && x in s
    ensures s[0] <= x
  {
    var i :| 0 <= i < |s| && s[i] == x;
  }

  /** The head of the sorted residue-rho list is the smallest digit of l with residue rho. */
  lemma SortedResidueHead(l: seq<Digit>, r: seq<Digit>, s: seq<Digit>, rho: nat)
    requires |r| > 0 && multiset(r) <= multiset(l)
    requires forall x | x in r :: x % 3 == rho
    requires forall x | x in l && x % 3 == rho :: x in r
    requires Ascending(s) && multiset(s) == multiset(r)
    ensures |s| > 0 && SmallestOfResidue(s[0], l, rho)
  {
    assert |s| == |multiset(r)| == |r|;
    assert s[0] in multiset(r);
    assert s[0] in r;
    assert s[0] in multiset(l);
    forall x | x in l && x % 3 == rho
      ensures s[0] <= x
    {
      assert x in multiset(s);
      SortedHeadSmallest(s, x);
    }
  }

  lemma PoolAfterDrop(a: seq<Digit>, b: seq<Digit>, c: seq<Digit>, dropped: multiset<Digit>, l: seq<Digit>)
    requires multiset(a) + multiset(b) + multiset(c) + dropped == multiset(l)
    ensures multiset(Kept(a, b, c).Pool()) + dropped == multiset(l)
  {
  }

  lemma DropHead(s: seq<Digit>)
    requires |s| > 0
    ensures multiset(s[1..]) + multiset{s[0]} == multiset(s)
  {
    assert s == [s[0]] + s[1..];
  }

  lemma DropTwo(s: seq<Digit>)
    requires |s| > 1
    ensures multiset(s[2..]) + multiset{s[0], s[1]} == multiset(s)
  {
    assert s == [s[0], s[1]] + s[2..];
  }

  /** With dr % 3 == 0 every digit is kept. */
  lemma DropKeepsAll(p: Residues, l: seq<Digit>, s0: seq<Digit>, s1: seq<Digit>, s2: seq<Digit>)
    requires ResiduesOf(p, l) && SortedResidues(p, s0, s1, s2) && Sum(l) % 3 == 0
    ensures Drop(p.dr, s0, s1, s2).Some? && multiset(Drop(p.dr, s0, s1, s2).value.Pool()) == multiset(l)
  {
  }

  /**
   * With dr % 3 == rho != 0 and some digit of residue rho present, exactly
   * the smallest such digit is dropped.
   */
  lemma DropSmallest(p: Residues, l: seq<Digit>, s0: seq<Digit>, s1: seq<Digit>, s2: seq<Digit>) returns (m: Digit)
    requires ResiduesOf(p, l) && SortedResidues(p, s0, s1, s2)
    requires Sum(l) % 3 != 0 && ResidueCount(multiset(l), Sum(l) % 3) > 0
    ensures Drop(p.dr, s0, s1, s2).Some?
    ensures SmallestOfResidue(m, l, Sum(l) % 3)
    ensures multiset(Drop(p.dr, s0, s1, s2).value.Pool()) + multiset{m} == multiset(l)
  {
    PartitionCounts(p, l);
    assert |s1| == |multiset(s1)| == |p.r1| && |s2| == |multiset(s2)| == |p.r2|;
    if p.dr % 3 == 1 {
      DropOneOfOnes(p, l, s0, s1, s2);
      m := s1[0];
    } else {
      DropOneOfTwos(p, l, s0, s1, s2);
      m := s2[0];
    }
  }

  lemma DropOneOfOnes(p: Residues, l: seq<Digit>, s0: seq<Digit>, s1: seq<Digit>, s2: seq<Digit>)
    requires ResiduesOf(p, l) && SortedResidues(p, s0, s1, s2)
    requires p.dr % 3 == 1 && |s1| > 0
    ensures Drop(p.dr, s0, s1, s2) == Some(Kept(s0, s1[1..], s2))
    ensures SmallestOfResidue(s1[0], l, 1)
    ensures multiset(s0 + s1[1..] + s2) + multiset{s1[0]} == multiset(l)
  {
    ResidueListsComplete(p, l);
    SortedResidueHead(l, p.r1, s1, 1);
    DropHead(s1);
    PoolAfterDrop(s0, s1[1..], s2, multiset{s1[0]}, l);
  }

  lemma DropOneOfTwos(p: Residues, l: seq<Digit>, s0: seq<Digit>, s1: seq<Digit>, s2: seq<Digit>)
    requires ResiduesOf(p, l) && SortedResidues(p, s0, s1, s2)
    requires p.dr % 3 == 2 && |s2| > 0
    ensures Drop(p.dr, s0, s1, s2) == Some(Kept(s0, s1, s2[1..]))
    ensures SmallestOfResidue(s2[0], l, 2)
    ensures multiset(s0 + s1 + s2[1..]) + multiset{s2[0]} == multiset(l)
  {
    ResidueListsComplete(p, l);
    SortedResidueHead(l, p.r2, s2, 2);
    DropHead(s2);
    PoolAfterDrop(s0, s1, s2[1..], multiset{s2[0]}, l);
  }

  lemma SortedHeadPair(s: seq<Digit>, x: Digit)
    requires Ascending(s) && |s| >= 2 && x in s[2..]
    ensures s[0] <= s[1] <= x
  {
    var j :| 0 <= j < |s[2..]| && s[2..][j] == x;
    assert s[j + 2] == x;
  }

  /** A sorted list holds only digits of the residue of the list it sorts. */
  lemma SortedResidue(r: seq<Digit>, s: seq<Digit>, rho: nat)
    requires multiset(s) == multiset(r) && forall x | x in r :: x % 3 == rho
    ensures forall x | x in s :: x % 3 == rho
  {
    forall x | x in s
      ensures x % 3 == rho
    {
      assert x in multiset(s);
      assert x in r;
    }
  }

  /**
   * With dr % 3 == rho != 0 and no digit of residue rho present, the two
   * smallest digits of the other non-zero residue are dropped.
   */
  lemma DropSmallestPair(p: Residues, l: seq<Digit>, s0: seq<Digit>, s1: seq<Digit>, s2: seq<Digit>) returns (a: Digit, b: Digit)
    requires ResiduesOf(p, l) && SortedResidues(p, s0, s1, s2)
    requires Sum(l) % 3 != 0 && ResidueCount(multiset(l), Sum(l) % 3) == 0
    ensures Drop(p.dr, s0, s1, s2).Some?
    ensures SmallestPair(a, b, Drop(p.dr, s0, s1, s2).value.Pool(), 3 - Sum(l) % 3)
    ensures multiset(Drop(p.dr, s0, s1, s2).value.Pool()) + multiset{a, b} == multiset(l)
  {
    PartitionCounts(p, l);
    ResidueArithmetic(p, l);
    assert |s1| == |multiset(s1)| == |p.r1| && |s2| == |multiset(s2)| == |p.r2|;
    SortedResidue(p.r0, s0, 0);
    SortedResidue(p.r1, s1, 1);
    SortedResidue(p.r2, s2, 2);
    if p.dr % 3 == 1 {
      DropPairOfTwos(p, l, s0, s1, s2);
      a, b := s2[0], s2[1];
    } else {
      DropPairOfOnes(p, l, s0, s1, s2);
      a, b := s1[0], s1[1];
    }
  }

  lemma DropPairOfTwos(p: Residues, l: seq<Digit>, s0: seq<Digit>, s1: seq<Digit>, s2: seq<Digit>)
    requires ResiduesOf(p, l) && SortedResidues(p, s0, s1, s2)
    requires p.dr % 3 == 1 && |s1| == 0 && |s2| >= 2
    requires forall x | x in s0 :: x % 3 == 0
    requires forall x | x in s2 :: x % 3 == 2
    ensures Drop(p.dr, s0, s1, s2) == Some(Kept(s0, s1, s2[2..]))
    ensures SmallestPair(s2[0], s2[1], s0 + s1 + s2[2..], 2)
    ensures multiset(s0 + s1 + s2[2..]) + multiset{s2[0], s2[1]} == multiset(l)
  {
    DropTwo(s2);
    PoolAfterDrop(s0, s1, s2[2..], multiset{s2[0], s2[1]}, l);
    PairIsSmallest(s0 + s1 + s2[2..], s0, s1, s2, 2);
  }

  lemma DropPairOfOnes(p: Residues, l: seq<Digit>, s0: seq<Digit>, s1: seq<Digit>, s2: seq<Digit>)
    requires ResiduesOf(p, l) && SortedResidues(p, s0, s1, s2)
    requires p.dr % 3 == 2 && |s2| == 0 && |s1| >= 2
    requires forall x | x in s0 :: x % 3 == 0
    requires forall x | x in s1 :: x % 3 == 1
    ensures Drop(p.dr, s0, s1, s2) == Some(Kept(s0, s1[2..], s2))
    ensures SmallestPair(s1[0], s1[1], s0 + s1[2..] + s2, 1)
    ensures multiset(s0 + s1[2..] + s2) + multiset{s1[0], s1[1]} == multiset(l)
  {
    DropTwo(s1);
    PoolAfterDrop(s0, s1[2..], s2, multiset{s1[0], s1[1]}, l);
    PairIsSmallest(s0 + s1[2..] + s2, s0, s2, s1, 1);
  }

  /** Dropping the head pair of the sorted list s leaves no digit of its residue below them. */
  lemma PairIsSmallest(pool: seq<Digit>, s0: seq<Digit>, other: seq<Digit>, s: seq<Digit>, sigma: nat)
    requires Ascending(s) && |s| >= 2 && 0 < sigma < 3
    requires forall x | x in pool :: x in s0 || x in other || x in s[2..]
    requires forall x | x in s :: x % 3 == sigma
    requires forall x | x in s0 :: x % 3 == 0
    requires forall x | x in other :: x % 3 == 3 - sigma
    ensures SmallestPair(s[0], s[1], pool, sigma)
  {
    assert s[0] in s && s[1] in s;
    forall x | x in pool && x % 3 == sigma
      ensures s[1] <= x
    {
      SortedHeadPair(s, x);
    }
  }

  /** The digits `solution` hands to `highest`. */
  function UsedDigits(p: Residues, l: seq<Digit>): seq<Digit>
    requires ResiduesOf(p, l)
  {
    KeepNeverGivesUp(p, l);
    Keep(p).value.Pool()
  }

  /** UsedDigits through the switch on the sorted residue lists. */
  lemma UsedIsDrop(p: Residues, l: seq<Digit>) returns (s0: seq<Digit>, s1: seq<Digit>, s2: seq<Digit>)
    requires ResiduesOf(p, l)
    ensures SortedResidues(p, s0, s1, s2)
    ensures Drop(p.dr, s0, s1, s2).Some? && UsedDigits(p, l) == Drop(p.dr, s0, s1, s2).value.Pool()
  {
    s0, s1, s2 := Sort(p.r0), Sort(p.r1), Sort(p.r2);
    KeepNeverGivesUp(p, l);
  }

  /** When the digit sum is a multiple of three, `solution` keeps every digit. */
  lemma UsedKeepsAll(p: Residues, l: seq<Digit>)
    requires ResiduesOf(p, l) && Sum(l) % 3 == 0
    ensures multiset(UsedDigits(p, l)) == multiset(l)
  {
    var s0, s1, s2 := UsedIsDrop(p, l);
    DropKeepsAll(p, l, s0, s1, s2);
  }

  /**
   * When the digit sum leaves remainder rho and some digit has residue rho,
   * `solution` gives up exactly the smallest such digit m.
   */
  lemma UsedDropsSmallest(p: Residues, l: seq<Digit>) returns (m: Digit)
    requires ResiduesOf(p, l) && Sum(l) % 3 != 0 && ResidueCount(multiset(l), Sum(l) % 3) > 0
    ensures SmallestOfResidue(m, l, Sum(l) % 3)
    ensures multiset(UsedDigits(p, l)) + multiset{m} == multiset(l)
  {
    var s0, s1, s2 := UsedIsDrop(p, l);
    m := DropSmallest(p, l, s0, s1, s2);
  }

  /**
   * When the digit sum leaves remainder rho and no digit has residue rho,
   * `solution` gives up the two smallest digits a <= b of residue 3 - rho.
   */
  lemma UsedDropsSmallestPair(p: Residues, l: seq<Digit>) returns (a: Digit, b: Digit)
    requires ResiduesOf(p, l) && Sum(l) % 3 != 0 && ResidueCount(multiset(l), Sum(l) % 3) == 0
    ensures SmallestPair(a, b, UsedDigits(p, l), 3 - Sum(l) % 3)
    ensures multiset(UsedDigits(p, l)) + multiset{a, b} == multiset(l)
  {
    var s0, s1, s2 := UsedIsDrop(p, l);
    a, b := DropSmallestPair(p, l, s0, s1, s2);
  }
}
