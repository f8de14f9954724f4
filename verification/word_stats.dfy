/**
 * create_statistics of wc++ (main.c): one pass over the wide characters of
 * the input, a two-state machine (inside a word or between words) counting
 * lines, words and letters, and a sparse array indexed by the upper-case
 * value of each letter serving as its histogram.
 *
 * The locale's classifiers iswspace and iswalpha, and toupper, are not
 * part of the model: they are parameters, any total functions at all.
 */
module WordStats {
  import opened SparseKeys
  import opened SparseArray

  /** A wint_t value read by getwc. */
  type WideChar = c: int | 0 <= c < 0x1_0000_0000

  /** L'\n' */
  const Newline: WideChar := 10

  /**
   * The locale: iswspace, iswalpha, and `(wchar_t)toupper(wi)` taken as
   * the sparse_index_t that indexes the histogram.
   */
  datatype Locale = Locale(isSpace: WideChar -> bool, isAlpha: WideChar -> bool, upper: WideChar -> Index)

  /** The two states of the scanner. */
  datatype Cursor = Word | Delimiter

  /** struct letter: a histogram bin. */
  datatype Letter = Letter(letter: Index, count: nat)

  /** struct word_stat */
  datatype WordStat = WordStat(nLetters: nat, nWords: nat, nLines: nat, histogram: seq<Letter>, histogramSize: nat)

  /** The character at k ends a line: a newline the locale counts as white space. */
  predicate IsLineEnd(loc: Locale, s: seq<WideChar>, k: nat)
    requires k < |s|
  {
    loc.isSpace(s[k]) && s[k] == Newline
  }

  /** The character at k starts a word: it is not white space, and it is first or follows white space. */
  predicate StartsWord(loc: Locale, s: seq<WideChar>, k: nat)
    requires k < |s|
  {
    !loc.isSpace(s[k]) && (k == 0 || loc.isSpace(s[k - 1]))
  }

  /** The character at k is a letter: alphabetic and not white space. */
  predicate IsLetter(loc: Locale, s: seq<WideChar>, k: nat)
    requires k < |s|
  {
    !loc.isSpace(s[k]) && loc.isAlpha(s[k])
  }

  ghost function LineEnds(loc: Locale, s: seq<WideChar>): set<nat>
  {
    set k: nat | k < |s| && IsLineEnd(loc, s, k)
  }

  ghost function WordStarts(loc: Locale, s: seq<WideChar>): set<nat>
  {
    set k: nat | k < |s| && StartsWord(loc, s, k)
  }

  ghost function LetterPositions(loc: Locale, s: seq<WideChar>): set<nat>
  {
    set k: nat | k < |s| && IsLetter(loc, s, k)
  }

  /** The positions of the letters whose upper-case value is x. */
  ghost function Occurrences(loc: Locale, s: seq<WideChar>, x: Index): set<nat>
  {
    set k: nat | k < |s| && IsLetter(loc, s, k) && loc.upper(s[k]) == x
  }

  /** The upper-case values of the letters of s. */
  ghost function Seen(loc: Locale, s: seq<WideChar>): set<Index>
  {
    set k: nat | k < |s| && IsLetter(loc, s, k) :: loc.upper(s[k])
  }

  /** How each position set grows when the scan takes in one more character. */
  lemma PrefixStep(loc: Locale, s: seq<WideChar>, n: nat)
    requires n < |s|
    ensures LineEnds(loc, s[..n + 1]) == LineEnds(loc, s[..n]) + (if IsLineEnd(loc, s, n) then {n} else {})
    ensures WordStarts(loc, s[..n + 1]) == WordStarts(loc, s[..n]) + (if StartsWord(loc, s, n) then {n} else {})
    ensures LetterPositions(loc, s[..n + 1]) == LetterPositions(loc, s[..n]) + (if IsLetter(loc, s, n) then {n} else {})
    ensures forall x: Index :: (Occurrences(loc, s[..n + 1], x) ==
      Occurrences(loc, s[..n], x) + (if IsLetter(loc, s, n) && loc.upper(s[n]) == x then {n} else {}))
  {
    var p, q := s[..n], s[..n + 1];
    assert forall k: nat | k < n :: q[k] == p[k] && p[k] == s[k];
    assert q[n] == s[n];
  }

  /** The seen set gains the upper-case value of a new letter, and nothing else. */
  lemma SeenStep(loc: Locale, s: seq<WideChar>, n: nat)
    requires n < |s|
    ensures Seen(loc, s[..n + 1]) == Seen(loc, s[..n]) + (if IsLetter(loc, s, n) then {loc.upper(s[n])} else {})
  {
    var p, q := s[..n], s[..n + 1];
    forall x | x in Seen(loc, q)
      ensures x in Seen(loc, p) + (if IsLetter(loc, s, n) then {loc.upper(s[n])} else {})
    {
      var k: nat :| k < |q| && IsLetter(loc, q, k) && loc.upper(q[k]) == x;
      if k < n {
        assert IsLetter(loc, p, k) && loc.upper(p[k]) == x;
      }
    }
    forall x | x in Seen(loc, p)
      ensures x in Seen(loc, q)
    {
      var k: nat :| k < |p| && IsLetter(loc, p, k) && loc.upper(p[k]) == x;
      assert IsLetter(loc, q, k) && loc.upper(q[k]) == x;
    }
    if IsLetter(loc, s, n) {
      assert IsLetter(loc, q, n);
    }
  }

  /** A value has been seen exactly when some letter maps to it. */
  lemma SeenOccurrences(loc: Locale, s: seq<WideChar>, x: Index)
    ensures x in Seen(loc, s) <==> Occurrences(loc, s, x) != {}
  {
    if x in Seen(loc, s) {
      var k: nat :| k < |s| && IsLetter(loc, s, k) && loc.upper(s[k]) == x;
      assert k in Occurrences(loc, s, x);
    }
    if Occurrences(loc, s, x) != {} {
      var k :| k in Occurrences(loc, s, x);
    }
  }

  /**
   * One more occurrence of the letter x: sparse_get_addr finds (growing
   * the tree if need be) the counter of x, which is read and incremented.
   * The result is the new tree and whether the counter was zero before.
   */
  method Tally(sap: Trie, x: Index) returns (t: Trie, wasZero: bool)
    requires Valid(sap, 0)
    ensures Valid(t, 0)
    ensures forall j: Index :: Get(t, j) == Get(sap, j) + if j == x then 1 else 0
    ensures wasZero <==> Get(sap, x) == 0
    ensures Total(t, 0) == Total(sap, 0) + 1
  {
    var grown, addr := GetAddr(sap, x).0, GetAddr(sap, x).1;
    var count := GetAt(grown, 0, addr);
    t := Store(grown, 0, addr, count + 1);
    wasZero := count == 0;
    TallyCounts(sap, x, grown, addr, count, t);
    TallyTotal(sap, x, count);
  }

  /** Incrementing the counter at the address sparse_get_addr yields changes element x alone, by one. */
  lemma TallyCounts(sap: Trie, x: Index, grown: Trie, addr: seq<Key>, count: nat, t: Trie)
    requires Valid(sap, 0) && grown == GetAddr(sap, x).0 && addr == GetAddr(sap, x).1
    requires count == GetAt(grown, 0, addr) && t == Store(grown, 0, addr, count + 1)
    ensures count == Get(sap, x)
    ensures forall j: Index :: Get(t, j) == Get(sap, j) + if j == x then 1 else 0
  {
    StoreThroughAddr(sap, x, count + 1);
    forall j: Index
      ensures Get(t, j) == Get(sap, j) + if j == x then 1 else 0
    {
      if j == x {
        assert Get(t, j) == count + 1;
      } else {
        assert Get(t, j) == Get(sap, j);
      }
    }
  }

  /** The increment adds one to the sum of the elements. */
  lemma TallyTotal(sap: Trie, x: Index, count: nat)
    requires Valid(sap, 0) && count == GetAt(GetAddr(sap, x).0, 0, GetAddr(sap, x).1)
    ensures Total(Store(GetAddr(sap, x).0, 0, GetAddr(sap, x).1, count + 1), 0) == Total(sap, 0) + 1
  {
    var r := GetAddr(sap, x);
    GetAddrTotal(sap, x);
    StoreTotal(r.0, 0, r.1, count + 1);
  }

  /** create_statistics_cb: an element of the histogram array becomes a letter bin. */
  function ToLetter(e: Entry): Letter
  {
    Letter(e.index, e.value)
  }

  /**
   * The callback's cursor over the histogram array: each call stores its
   * letter in bin `cursor` and advances the cursor by one. Bins before the
   * cursor and after the last call are left as they were.
   */
  function Fill(bins: seq<Letter>, cursor: nat, es: seq<Entry>): (r: seq<Letter>)
    requires cursor + |es| <= |bins|
    ensures |r| == |bins|
    ensures r[..cursor] == bins[..cursor]
    ensures forall k | 0 <= k < |es| :: r[cursor + k] == ToLetter(es[k])
    ensures r[cursor + |es|..] == bins[cursor + |es|..]
    decreases |es|
  {
    if |es| == 0 then bins
    else
      var r := Fill(bins[cursor := ToLetter(es[0])], cursor + 1, es[1..]);
      assert r[cursor] == r[..cursor + 1][cursor];
      r
  }

  /**
   * The letter bins the callback writes into a fresh array of one bin per
   * reported element, starting from its first bin.
   */
  function ToLetters(es: seq<Entry>): (r: seq<Letter>)
    ensures |r| == |es|
    ensures forall k | 0 <= k < |es| :: r[k] == ToLetter(es[k])
  {
    Fill(seq(|es|, _ => Letter(0, 0)), 0, es)
  }

  /** The sum of the counts of a histogram. */
  function CountSum(h: seq<Letter>): nat
  {
    if h == [] then 0 else CountSum(h[..|h| - 1]) + h[|h| - 1].count
  }

  lemma {:induction false} ToLettersSum(es: seq<Entry>)
    ensures CountSum(ToLetters(es)) == Sum(es)
    decreases |es|
  {
    if es != [] {
      var n := |es| - 1;
      assert ToLetters(es)[..n] == ToLetters(es[..n]);
      ToLettersSum(es[..n]);
    }
  }

  /** Every set over the first i characters misses position i. */
  lemma PrefixMisses(loc: Locale, s: seq<WideChar>, i: nat)
    requires i < |s|
    ensures i !in LineEnds(loc, s[..i]) && i !in WordStarts(loc, s[..i]) && i !in LetterPositions(loc, s[..i])
    ensures forall x: Index :: i !in Occurrences(loc, s[..i], x)
  {
  }

  /** How each count grows when the scan takes in the character at i. */
  lemma CountStep(loc: Locale, s: seq<WideChar>, i: nat)
    requires i < |s|
    ensures |LineEnds(loc, s[..i + 1])| == |LineEnds(loc, s[..i])| + if IsLineEnd(loc, s, i) then 1 else 0
    ensures |WordStarts(loc, s[..i + 1])| == |WordStarts(loc, s[..i])| + if StartsWord(loc, s, i) then 1 else 0
    ensures |LetterPositions(loc, s[..i + 1])| == |LetterPositions(loc, s[..i])| + if IsLetter(loc, s, i) then 1 else 0
    ensures forall x: Index :: (|Occurrences(loc, s[..i + 1], x)| ==
      |Occurrences(loc, s[..i], x)| + if IsLetter(loc, s, i) && loc.upper(s[i]) == x then 1 else 0)
  {
    PrefixStep(loc, s, i);
    PrefixMisses(loc, s, i);
  }

  /** The number of values seen grows by one exactly when a letter's value had no occurrence yet. */
  lemma SeenCountStep(loc: Locale, s: seq<WideChar>, i: nat)
    requires i < |s|
    ensures |Seen(loc, s[..i + 1])| == |Seen(loc, s[..i])| +
      if IsLetter(loc, s, i) && |Occurrences(loc, s[..i], loc.upper(s[i]))| == 0 then 1 else 0
  {
    SeenStep(loc, s, i);
    var x := loc.upper(s[i]);
    SeenOccurrences(loc, s[..i], x);
    assert |Occurrences(loc, s[..i], x)| == 0 <==> Occurrences(loc, s[..i], x) == {};
    if IsLetter(loc, s, i) && x in Seen(loc, s[..i]) {
      assert Seen(loc, s[..i]) + {x} == Seen(loc, s[..i]);
    }
  }

  /** The histogram array: the bins sparse_iter hands to the callback, none if no letter was seen. */
  function Histogram(sap: Trie, size: nat): seq<Letter>
    requires Valid(sap, 0)
  {
    if size == 0 then [] else ToLetters(Iter(sap))
  }

  /** The histogram holds one bin per letter seen, in ascending order, with its exact count. */
  lemma HistogramExact(loc: Locale, s: seq<WideChar>, sap: Trie, size: nat)
    requires Valid(sap, 0)
    requires forall y: Index :: Get(sap, y) == |Occurrences(loc, s, y)|
    requires size == |Seen(loc, s)|
    ensures size == |Histogram(sap, size)|
    ensures forall a, b | 0 <= a < b < |Histogram(sap, size)| :: Histogram(sap, size)[a].letter < Histogram(sap, size)[b].letter
    ensures forall l | l in Histogram(sap, size) :: l.letter in Seen(loc, s) && l.count == |Occurrences(loc, s, l.letter)|
    ensures forall x | x in Seen(loc, s) :: Letter(x, |Occurrences(loc, s, x)|) in Histogram(sap, size)
    ensures CountSum(Histogram(sap, size)) == Total(sap, 0)
  {
    OccupiedIsSeen(loc, s, sap);
    IterCount(sap);
    IterSum(sap);
    ToLettersSum(Iter(sap));
    if size > 0 {
      BinsAscending(sap);
      BinsSound(loc, s, sap);
      BinsComplete(loc, s, sap);
    }
  }

  /** The occupied indices of the counting array are the letter values seen. */
  lemma OccupiedIsSeen(loc: Locale, s: seq<WideChar>, sap: Trie)
    requires Valid(sap, 0)
    requires forall y: Index :: Get(sap, y) == |Occurrences(loc, s, y)|
    ensures Occupied(sap) == Seen(loc, s)
  {
    forall x: Index
      ensures x in Occupied(sap) <==> x in Seen(loc, s)
    {
      SeenOccurrences(loc, s, x);
    }
  }

  /** The bins come in strictly ascending letter order. */
  lemma BinsAscending(sap: Trie)
    requires Valid(sap, 0)
    ensures forall a, b | 0 <= a < b < |ToLetters(Iter(sap))| :: ToLetters(Iter(sap))[a].letter < ToLetters(Iter(sap))[b].letter
  {
    IterExact(sap);
  }

  /** Every bin is a letter value seen, with its number of occurrences. */
  lemma BinsSound(loc: Locale, s: seq<WideChar>, sap: Trie)
    requires Valid(sap, 0)
    requires forall y: Index :: Get(sap, y) == |Occurrences(loc, s, y)|
    ensures forall l | l in ToLetters(Iter(sap)) :: l.letter in Seen(loc, s) && l.count == |Occurrences(loc, s, l.letter)|
  {
    IterExact(sap);
    var h := ToLetters(Iter(sap));
    forall l | l in h
      ensures l.letter in Seen(loc, s) && l.count == |Occurrences(loc, s, l.letter)|
    {
      var k :| 0 <= k < |h| && h[k] == l;
      assert Iter(sap)[k] in Iter(sap);
      SeenOccurrences(loc, s, l.letter);
    }
  }

  /** Every letter value seen has its bin, with its number of occurrences. */
  lemma BinsComplete(loc: Locale, s: seq<WideChar>, sap: Trie)
    requires Valid(sap, 0)
    requires forall y: Index :: Get(sap, y) == |Occurrences(loc, s, y)|
    ensures forall x | x in Seen(loc, s) :: Letter(x, |Occurrences(loc, s, x)|) in ToLetters(Iter(sap))
  {
    IterExact(sap);
    var h := ToLetters(Iter(sap));
    forall x | x in Seen(loc, s)
      ensures Letter(x, |Occurrences(loc, s, x)|) in h
    {
      SeenOccurrences(loc, s, x);
      var k :| 0 <= k < |Iter(sap)| && Iter(sap)[k] == Entry(x, Get(sap, x));
      assert h[k] == Letter(x, |Occurrences(loc, s, x)|);
    }
  }

  /** One pass of the scanning loop of create_statistics: the counts after the character at i. */
  method ScanChar(loc: Locale, s: seq<WideChar>, i: nat, last: Cursor, nLines: nat, nWords: nat, nLetters: nat, size: nat, sap: Trie)
    returns (last': Cursor, nLines': nat, nWords': nat, nLetters': nat, size': nat, sap': Trie)
    requires i < |s|
    requires last == if i == 0 || loc.isSpace(s[i - 1]) then Delimiter else Word
    requires nLines == |LineEnds(loc, s[..i])| && nWords == |WordStarts(loc, s[..i])|
    requires nLetters == |LetterPositions(loc, s[..i])|
    requires Valid(sap, 0) && forall y: Index :: Get(sap, y) == |Occurrences(loc, s[..i], y)|
    requires size == |Seen(loc, s[..i])| && Total(sap, 0) == nLetters
    ensures last' == if loc.isSpace(s[i]) then Delimiter else Word
    ensures nLines' == |LineEnds(loc, s[..i + 1])| && nWords' == |WordStarts(loc, s[..i + 1])|
    ensures nLetters' == |LetterPositions(loc, s[..i + 1])|
    ensures Valid(sap', 0) && forall y: Index :: Get(sap', y) == |Occurrences(loc, s[..i + 1], y)|
    ensures size' == |Seen(loc, s[..i + 1])| && Total(sap', 0) == nLetters'
  {
    var wi := s[i];
    CountStep(loc, s, i);
    SeenCountStep(loc, s, i);
    last' := if loc.isSpace(wi) then Delimiter else Word;
    nLines', nWords', nLetters', size', sap' := nLines, nWords, nLetters, size, sap;
    if last' == Delimiter {
      if wi == Newline {
        nLines' := nLines + 1;
      }
    } else {
      if last == Delimiter {
        nWords' := nWords + 1;
      }
      if loc.isAlpha(wi) {
        var wasZero;
        sap', wasZero := Tally(sap, loc.upper(wi));
        if wasZero {
          size' := size + 1;
        }
        nLetters' := nLetters + 1;
      }
    }
  }

  /**
   * create_statistics over the characters s that getwc yields up to WEOF.
   */
  method CreateStatistics(loc: Locale, s: seq<WideChar>) returns (ws: WordStat)
    ensures ws.nLines == |LineEnds(loc, s)|
    ensures ws.nWords == |WordStarts(loc, s)|
    ensures ws.nLetters == |LetterPositions(loc, s)|
    ensures ws.histogramSize == |Seen(loc, s)| == |ws.histogram|
    ensures forall a, b | 0 <= a < b < |ws.histogram| :: ws.histogram[a].letter < ws.histogram[b].letter
    ensures forall l | l in ws.histogram :: l.letter in Seen(loc, s) && l.count == |Occurrences(loc, s, l.letter)|
    ensures forall x | x in Seen(loc, s) :: Letter(x, |Occurrences(loc, s, x)|) in ws.histogram
    ensures CountSum(ws.histogram) == ws.nLetters
  {
    var nLines, nWords, nLetters, size := 0, 0, 0, 0;
    var sap := Null;
    var last := Delimiter;
    var i := 0;
    EmptyArray();
    while i < |s|
      invariant i <= |s|
      invariant last == if i == 0 || loc.isSpace(s[i - 1]) then Delimiter else Word
      invariant nLines == |LineEnds(loc, s[..i])|
      invariant nWords == |WordStarts(loc, s[..i])|
      invariant nLetters == |LetterPositions(loc, s[..i])|
      invariant Valid(sap, 0)
      invariant forall y: Index :: Get(sap, y) == |Occurrences(loc, s[..i], y)|
      invariant size == |Seen(loc, s[..i])|
      invariant Total(sap, 0) == nLetters
    {
      last, nLines, nWords, nLetters, size, sap := ScanChar(loc, s, i, last, nLines, nWords, nLetters, size, sap);
      i := i + 1;
    }
    assert s[..i] == s;
    HistogramExact(loc, s, sap, size);
    ws := WordStat(nLetters, nWords, nLines, Histogram(sap, size), size);
  }
}
