/**
 * The reporting side of wc++ (main.c): the selection of the most common
 * letters from the histogram, and the command-line flags that choose the
 * reports.
 */
module WcReport {
  import opened Results
  import opened WordStats

  // ---------------------------------------------------------------------
  // compare_count and the sort by count
  // ---------------------------------------------------------------------

  /** The number of values of a 32-bit int. */
  const IntRange: nat := 0x1_0000_0000

  /**
   * The conversion of a size_t count to a 32-bit int: the value modulo
   * 2^32, read as two's complement.
   */
  function ToInt(n: nat): (r: int)
    ensures -0x8000_0000 <= r < 0x8000_0000
    ensures (n - r) % IntRange == 0
    ensures n < 0x8000_0000 ==> r == n
  {
    var w := n % IntRange;
    if w < 0x8000_0000 then w else w - IntRange
  }

  /**
   * compare_count as written: both counts pass through int before being
   * compared; the larger count sorts first.
   */
  function CompareCountAsWritten(a: Letter, b: Letter): (r: int)
    ensures -1 <= r <= 1
    ensures r == 0 <==> ToInt(a.count) == ToInt(b.count)
    ensures r < 0 <==> ToInt(b.count) < ToInt(a.count)
  {
    var x, y := ToInt(a.count), ToInt(b.count);
    if x == y then 0 else if x < y then 1 else -1
  }

  /** compare_count on the counts themselves: the larger count sorts first. */
  function CompareCount(a: Letter, b: Letter): int
  {
    if a.count == b.count then 0 else if a.count < b.count then 1 else -1
  }

  /** CompareCount is the descending order of the counts, and antisymmetric as qsort needs. */
  lemma CompareCountOrder(a: Letter, b: Letter)
    ensures CompareCount(a, b) <= 0 <==> a.count >= b.count
    ensures CompareCount(a, b) == 0 <==> a.count == b.count
    ensures CompareCount(a, b) == -CompareCount(b, a)
  {
  }

  /** Below 2^31 the conversion to int changes nothing: the two comparators agree. */
  lemma CompareCountAgrees(a: Letter, b: Letter)
    requires a.count < 0x8000_0000 && b.count < 0x8000_0000
    ensures CompareCountAsWritten(a, b) == CompareCount(a, b)
  {
  }

  /**
   * h is in an order qsort may leave under compare_count: no pair is out
   * of order, that is, the counts never increase.
   */
  predicate CountSorted(h: seq<Letter>)
  {
    forall i, j | 0 <= i < j < |h| :: h[i].count >= h[j].count
  }

  /** CountSorted is sortedness under CompareCount. */
  lemma CountSortedByCompareCount(h: seq<Letter>)
    ensures CountSorted(h) <==> forall i, j | 0 <= i < j < |h| :: CompareCount(h[i], h[j]) <= 0
  {
  }

  /** Sortedness under compare_count as written. */
  predicate CountSortedAsWritten(h: seq<Letter>)
  {
    forall i, j | 0 <= i < j < |h| :: CompareCountAsWritten(h[i], h[j]) <= 0
  }

  /** Every element of a sequence with multiset m + {l} is l or an element of m's sequence. */
  lemma FromMultiset(r: seq<Letter>, s: seq<Letter>, l: Letter)
    requires multiset(r) == multiset(s) + multiset{l}
    ensures forall m | m in r :: m == l || m in s
  {
    forall m | m in r
      ensures m == l || m in s
    {
      assert m in multiset(r);
    }
  }

  /** A bin with a count no smaller than any in a sorted sequence may go in front of it. */
  lemma ConsSorted(x: Letter, rest: seq<Letter>)
    requires CountSorted(rest) && forall m | m in rest :: m.count <= x.count
    ensures CountSorted([x] + rest)
  {
    var r := [x] + rest;
    forall i, j | 0 <= i < j < |r|
      ensures r[i].count >= r[j].count
    {
      assert r[j] == rest[j - 1];
      if i > 0 {
        assert r[i] == rest[i - 1];
      } else {
        assert rest[j - 1] in rest;
      }
    }
  }

  /** Puts l into a sequence sorted by count, before the first bin with a count not above its own. */
  function InsertByCount(l: Letter, s: seq<Letter>): (r: seq<Letter>)
    requires CountSorted(s)
    ensures CountSorted(r) && multiset(r) == multiset(s) + multiset{l}
  {
    if s == [] || l.count >= s[0].count then
      ConsSorted(l, s);
      [l] + s
    else
      var rest := InsertByCount(l, s[1..]);
      assert s == [s[0]] + s[1..];
      FromMultiset(rest, s[1..], l);
      assert forall m | m in s[1..] :: m.count <= s[0].count by {
        forall m | m in s[1..]
          ensures m.count <= s[0].count
        {
          var k :| 0 <= k < |s[1..]| && s[1..][k] == m;
          assert s[k + 1] == m;
        }
      }
      ConsSorted(s[0], rest);
      [s[0]] + rest
  }

  /**
   * One of the orders `qsort(histogram, histogram_size, ..., compare_count)`
   * may leave: a permutation of the histogram, sorted by count. qsort is not
   * stable, so bins of equal count may come in another order; the selection
   * below does not depend on which.
   */
  function SortByCount(h: seq<Letter>): (r: seq<Letter>)
    ensures CountSorted(r) && multiset(r) == multiset(h)
  {
    if h == [] then [] else
      assert h == [h[0]] + h[1..];
      InsertByCount(h[0], SortByCount(h[1..]))
  }

  // ---------------------------------------------------------------------
  // The most common letters
  // ---------------------------------------------------------------------

  /** No bin of h has a larger count than l. */
  ghost predicate IsMostCommon(h: seq<Letter>, l: Letter)
  {
    forall m | m in h :: m.count <= l.count
  }

  /** The bins of h whose count is c, in their order in h. */
  function WithCount(h: seq<Letter>, c: nat): seq<Letter>
  {
    if h == [] then [] else WithCount(h[..|h| - 1], c) + (if h[|h| - 1].count == c then [h[|h| - 1]] else [])
  }

  /** WithCount keeps each bin of count c as often as it occurs, and no other bin. */
  lemma {:induction false} WithCountMultiplicity(h: seq<Letter>, c: nat, x: Letter)
    ensures multiset(WithCount(h, c))[x] == if x.count == c then multiset(h)[x] else 0
    decreases |h|
  {
    if h != [] {
      var n := |h| - 1;
      WithCountMultiplicity(h[..n], c, x);
      assert h == h[..n] + [h[n]];
    }
  }

  /** Bins of the same multiset give bins of the same multiset of count c. */
  lemma WithCountPermutation(a: seq<Letter>, b: seq<Letter>, c: nat)
    requires multiset(a) == multiset(b)
    ensures multiset(WithCount(a, c)) == multiset(WithCount(b, c))
  {
    forall x
      ensures multiset(WithCount(a, c))[x] == multiset(WithCount(b, c))[x]
    {
      WithCountMultiplicity(a, c, x);
      WithCountMultiplicity(b, c, x);
    }
  }

  /** A sequence whose every count is c keeps all of itself. */
  lemma {:induction false} WithCountAll(h: seq<Letter>, c: nat)
    requires forall k | 0 <= k < |h| :: h[k].count == c
    ensures WithCount(h, c) == h
    decreases |h|
  {
    if h != [] {
      var n := |h| - 1;
      WithCountAll(h[..n], c);
      assert h == h[..n] + [h[n]];
    }
  }

  /** A sequence with no count c keeps nothing. */
  lemma {:induction false} WithCountNone(h: seq<Letter>, c: nat)
    requires forall k | 0 <= k < |h| :: h[k].count != c
    ensures WithCount(h, c) == []
    decreases |h|
  {
    if h != [] {
      WithCountNone(h[..|h| - 1], c);
    }
  }

  lemma {:induction false} WithCountConcat(x: seq<Letter>, y: seq<Letter>, c: nat)
    ensures WithCount(x + y, c) == WithCount(x, c) + WithCount(y, c)
    decreases |y|
  {
    if y == [] {
      assert x + y == x;
    } else {
      var n := |y| - 1;
      WithCountConcat(x, y[..n], c);
      assert (x + y)[..|x + y| - 1] == x + y[..n];
    }
  }

  /**
   * The loop after the sort by count: the length of the run of bins that
   * share the first bin's count.
   */
  method TopRun(sorted: seq<Letter>) returns (i: nat)
    requires |sorted| > 0
    ensures 1 <= i <= |sorted|
    ensures forall k | 0 <= k < i :: sorted[k].count == sorted[0].count
    ensures i < |sorted| ==> sorted[i].count != sorted[0].count
  {
    i := 1;
    while i < |sorted|
      invariant 1 <= i <= |sorted|
      invariant forall k | 0 <= k < i :: sorted[k].count == sorted[0].count
    {
      if sorted[i].count != sorted[0].count {
        break;
      }
      i := i + 1;
    }
  }

  /** Two sequences with the same multiset have the same elements. */
  lemma SameElements(a: seq<Letter>, b: seq<Letter>)
    requires multiset(a) == multiset(b)
    ensures forall l :: l in a <==> l in b
  {
    forall l
      ensures l in a <==> l in b
    {
      assert l in a <==> l in multiset(a);
      assert l in b <==> l in multiset(b);
    }
  }

  /** In a sequence sorted by count, the run at the front has the top count and the rest less. */
  lemma RunBounds(sorted: seq<Letter>, i: nat)
    requires CountSorted(sorted) && 1 <= i <= |sorted|
    requires forall k | 0 <= k < i :: sorted[k].count == sorted[0].count
    requires i < |sorted| ==> sorted[i].count != sorted[0].count
    ensures forall k | 0 <= k < |sorted| :: sorted[k].count <= sorted[0].count
    ensures forall k | i <= k < |sorted| :: sorted[k].count < sorted[0].count
  {
    forall k | i <= k < |sorted|
      ensures sorted[k].count < sorted[0].count
    {
      assert sorted[i].count < sorted[0].count;
    }
  }

  /**
   * Whatever order qsort leaves the bins in, the run at its front is the
   * set of most common letters, each as often as the histogram holds it.
   */
  lemma TopIsMostCommon(h: seq<Letter>, sorted: seq<Letter>, i: nat)
    requires multiset(sorted) == multiset(h) && CountSorted(sorted)
    requires 1 <= i <= |sorted|
    requires forall k | 0 <= k < i :: sorted[k].count == sorted[0].count
    requires i < |sorted| ==> sorted[i].count != sorted[0].count
    ensures forall l :: l in sorted[..i] <==> l in h && IsMostCommon(h, l)
    ensures multiset(sorted[..i]) == multiset(WithCount(h, sorted[0].count))
  {
    TopMembers(h, sorted, i);
    RunBounds(sorted, i);
    FrontRun(sorted, i);
    WithCountPermutation(sorted, h, sorted[0].count);
  }

  /** The front run is the subsequence of the bins with the top count. */
  lemma FrontRun(sorted: seq<Letter>, i: nat)
    requires 1 <= i <= |sorted|
    requires forall k | 0 <= k < i :: sorted[k].count == sorted[0].count
    requires forall k | i <= k < |sorted| :: sorted[k].count < sorted[0].count
    ensures WithCount(sorted, sorted[0].count) == sorted[..i]
  {
    var c := sorted[0].count;
    FrontAll(sorted, i, c);
    BackNone(sorted, i, c);
    WithCountSplit(sorted, i, c);
  }

  /** Splitting a histogram at i splits its bins of count c there too. */
  lemma WithCountSplit(h: seq<Letter>, i: nat, c: nat)
    requires i <= |h|
    ensures WithCount(h, c) == WithCount(h[..i], c) + WithCount(h[i..], c)
  {
    assert h == h[..i] + h[i..];
    WithCountConcat(h[..i], h[i..], c);
  }

  /** A prefix of bins all of count c is kept whole. */
  lemma FrontAll(sorted: seq<Letter>, i: nat, c: nat)
    requires i <= |sorted|
    requires forall k | 0 <= k < i :: sorted[k].count == c
    ensures WithCount(sorted[..i], c) == sorted[..i]
  {
    WithCountAll(sorted[..i], c);
  }

  /** A suffix of bins all below c keeps nothing. */
  lemma BackNone(sorted: seq<Letter>, i: nat, c: nat)
    requires i <= |sorted|
    requires forall k | i <= k < |sorted| :: sorted[k].count < c
    ensures WithCount(sorted[i..], c) == []
  {
    var back := sorted[i..];
    forall k | 0 <= k < |back|
      ensures back[k].count != c
    {
      assert back[k] == sorted[i + k];
    }
    WithCountNone(back, c);
  }

  /** The letters of the front run are exactly the most common letters of the histogram. */
  lemma TopMembers(h: seq<Letter>, sorted: seq<Letter>, i: nat)
    requires multiset(sorted) == multiset(h) && CountSorted(sorted)
    requires 1 <= i <= |sorted|
    requires forall k | 0 <= k < i :: sorted[k].count == sorted[0].count
    requires i < |sorted| ==> sorted[i].count != sorted[0].count
    ensures forall l :: l in sorted[..i] <==> l in h && IsMostCommon(h, l)
  {
    SameElements(h, sorted);
    RunBounds(sorted, i);
    forall l
      ensures l in sorted[..i] <==> l in h && IsMostCommon(h, l)
    {
      if l in sorted[..i] {
        var k :| 0 <= k < i && sorted[k] == l;
        forall m | m in h
          ensures m.count <= l.count
        {
          var k' :| 0 <= k' < |sorted| && sorted[k'] == m;
        }
      }
      if l in h && IsMostCommon(h, l) {
        var k :| 0 <= k < |sorted| && sorted[k] == l;
        assert sorted[0] in h;
      }
    }
  }

  /**
   * report_statistics_letters, up to the letters it prints: None for the
   * "N/A" of an empty histogram, otherwise the most common letters. Their
   * order on output, which wcscoll decides, is not modelled.
   */
  method MostCommon(histogram: seq<Letter>) returns (r: Option<seq<Letter>>)
    ensures r.None? <==> histogram == []
    ensures r.Some? ==> r.value != [] && forall l :: l in r.value <==> l in histogram && IsMostCommon(histogram, l)
    ensures r.Some? ==> multiset(r.value) == multiset(WithCount(histogram, r.value[0].count))
  {
    if |histogram| == 0 {
      return None;
    }
    var sorted := SortByCount(histogram);
    var i := TopRun(sorted);
    TopIsMostCommon(histogram, sorted, i);
    r := Some(sorted[..i]);
  }

  /**
   * With compare_count as written, a count of 2^31 turns negative and sorts
   * after a count of 1, which the selection then reports as the most common.
   */
  lemma WrappedCountMisorders()
    ensures var a, b := Letter(0x41, 1), Letter(0x42, 0x8000_0000);
      && CountSortedAsWritten([a, b])
      && !IsMostCommon([a, b], a)
      && !CountSorted([a, b])
  {
    var a, b := Letter(0x41, 1), Letter(0x42, 0x8000_0000);
    assert ToInt(b.count) == -0x8000_0000;
    assert [a, b][0].count < [a, b][1].count;
    assert CompareCountAsWritten(a, b) == -1;
    assert b in [a, b];
  }

  // ---------------------------------------------------------------------
  // The command line
  // ---------------------------------------------------------------------

  /** The reports main prints: words (-w), lines (-l), average (-a), letters (-L). */
  datatype Reports = Reports(words: bool, lines: bool, average: bool, letters: bool)

  /** The one error main reports before reading anything: the usage message. */
  datatype UsageError = Usage

  /** The option letters main accepts. */
  const Flags: seq<char> := ['w', 'l', 'a', 'L']

  /** Every option is known and none is given twice. */
  ghost predicate WellFormedOptions(opts: seq<char>)
  {
    && (forall k | 0 <= k < |opts| :: opts[k] in Flags)
    && (forall i, j | 0 <= i < j < |opts| :: opts[i] != opts[j])
  }

  /**
   * main's option handling. `opts` are the characters getopt returns in
   * turn ('?' for an option it does not know); `operand` is argv[optind].
   * On success: the reports to print and the input file name.
   */
  method ParseCommandLine(opts: seq<char>, operand: Option<string>) returns (r: Result<(Reports, string), UsageError>)
    ensures r.Ok? <==> operand.Some? && WellFormedOptions(opts)
    ensures r.Ok? ==> r.value.1 == operand.value
    ensures r.Ok? && opts == [] ==> r.value.0 == Reports(true, true, true, true)
    ensures r.Ok? && opts != [] ==> r.value.0 == Reports('w' in opts, 'l' in opts, 'a' in opts, 'L' in opts)
  {
    var errflag, wflag, lflag, aflag, bigLflag := 0, 0, 0, 0, 0;
    var i := 0;
    while i < |opts|
      invariant i <= |opts|
      invariant wflag == multiset(opts[..i])['w'] && lflag == multiset(opts[..i])['l']
      invariant aflag == multiset(opts[..i])['a'] && bigLflag == multiset(opts[..i])['L']
      invariant errflag == 0 <==> WellFormedOptions(opts[..i])
    {
      var opt := opts[i];
      assert opts[..i + 1] == opts[..i] + [opt];
      OptionStep(opts[..i], opt);
      match opt {
        case 'w' =>
          if wflag > 0 {
            errflag := errflag + 1;
          }
          wflag := wflag + 1;
        case 'l' =>
          if lflag > 0 {
            errflag := errflag + 1;
          }
          lflag := lflag + 1;
        case 'a' =>
          if aflag > 0 {
            errflag := errflag + 1;
          }
          aflag := aflag + 1;
        case 'L' =>
          if bigLflag > 0 {
            errflag := errflag + 1;
          }
          bigLflag := bigLflag + 1;
        case _ =>
          errflag := errflag + 1;
      }
      i := i + 1;
    }
    assert opts[..i] == opts;
    if operand.None? {
      errflag := errflag + 1;
    }
    if errflag > 0 {
      return Err(Usage);
    }
    if wflag == 0 && lflag == 0 && aflag == 0 && bigLflag == 0 {
      assert opts == [];
      wflag, lflag, aflag, bigLflag := 1, 1, 1, 1;
    }
    MembershipCounts(opts);
    r := Ok((Reports(wflag > 0, lflag > 0, aflag > 0, bigLflag > 0), operand.value));
  }

  /** One more option keeps the options well formed exactly when it is known and new. */
  lemma OptionStep(p: seq<char>, opt: char)
    ensures WellFormedOptions(p + [opt]) <==> WellFormedOptions(p) && opt in Flags && multiset(p)[opt] == 0
  {
    var q := p + [opt];
    assert forall k | 0 <= k < |p| :: q[k] == p[k];
    assert q[|p|] == opt;
    assert multiset(p)[opt] == 0 <==> opt !in p;
    if WellFormedOptions(q) {
      assert WellFormedOptions(p) by {
        forall i, j | 0 <= i < j < |p|
          ensures p[i] != p[j]
        {
          assert q[i] != q[j];
        }
      }
    }
    if WellFormedOptions(p) && opt in Flags && opt !in p {
      forall i, j | 0 <= i < j < |q|
        ensures q[i] != q[j]
      {
        if j == |p| {
          assert p[i] in p;
        }
      }
    }
  }

  /** A letter occurs in a sequence exactly when its multiplicity is positive. */
  lemma MembershipCounts(opts: seq<char>)
    ensures forall c :: c in opts <==> multiset(opts)[c] > 0
  {
  }
}
