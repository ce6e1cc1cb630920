/**
 * The root index of index.ts. Every word is cut after its first one, two or
 * three characters into a (prefix, root) pair; the pairs are grouped by root,
 * each root keeps the sorted list of its prefixes (duplicates included), and
 * the roots with enough prefixes are ranked by how many they have.
 */
module RootIndex {
  import opened Collections
  import opened StringOrder

  /** Roots shorter than this are discarded (index.ts:12). */
  const MINIMUM_ROOT_LENGTH: nat := 2
  /** Prefixes of every length from 1 up to this are split off (index.ts:13). */
  const MAX_PREFIX_LENGTH: nat := 3
  /** Roots with fewer prefixes than this are discarded (the literal at index.ts:81). */
  const MINIMUM_PREFIX_COUNT: int := 6

  datatype SplitWord = SplitWord(prefix: string, root: string)

  datatype WordByRoot = WordByRoot(root: string, prefixes: seq<string>, prefixCount: int)

  // ---------------------------------------------------------------------------
  // Splitter: getSplitWords
  // ---------------------------------------------------------------------------

  /** `{ prefix: word.substring(0, k), root: word.substring(k) }`; substring clamps k to the length. */
  function Split(word: string, prefixLength: nat): SplitWord
  {
    var k := if prefixLength <= |word| then prefixLength else |word|;
    SplitWord(word[..k], word[k..])
  }

  /** The filter `w => w.length > prefixLength`. */
  function IsLongerThan(prefixLength: nat): string -> bool
  {
    (w: string) => |w| > prefixLength
  }

  /** The map `word => split of word at prefixLength`. */
  function SplitAt(prefixLength: nat): string -> SplitWord
  {
    (w: string) => Split(w, prefixLength)
  }

  /** The words that are cut: those longer than the prefix, in input order. */
  function LongerThan(words: seq<string>, prefixLength: nat): (r: seq<string>)
    ensures forall w {:trigger w in r} :: w in r <==> w in words && |w| > prefixLength
    ensures IsSubsequence(r, words)
  {
    Filter(words, IsLongerThan(prefixLength))
  }

  /**
   * getSplitWords: the i-th pair joins back into the i-th word longer than the
   * prefix, cut after exactly `prefixLength` characters, leaving a non-empty
   * root. Which words those are, and in what order, is `LongerThan`'s filter.
   */
  function GetSplitWords(words: seq<string>, prefixLength: nat): (r: seq<SplitWord>)
    ensures |r| == |LongerThan(words, prefixLength)|
    ensures forall i :: 0 <= i < |r| ==>
      |r[i].prefix| == prefixLength && |r[i].root| > 0 &&
      r[i].prefix + r[i].root == LongerThan(words, prefixLength)[i]
  {
    var long := LongerThan(words, prefixLength);
    assert forall i :: 0 <= i < |long| ==> long[i] in long;
    Map(long, SplitAt(prefixLength))
  }

  /** One step of getSplitWords: the first word contributes its pair first. */
  lemma GetSplitWordsCons(words: seq<string>, k: nat)
    requires words != []
    ensures GetSplitWords(words, k) ==
      (if |words[0]| > k then [Split(words[0], k)] else []) + GetSplitWords(words[1..], k)
  {
    MapFilterCons(words, IsLongerThan(k), SplitAt(k));
  }

  /**
   * The pair (p, root) comes out of getSplitWords(words, k) once for every
   * occurrence of the word p + root, provided p has length k and root is not empty.
   */
  lemma {:induction false} GetSplitWordsCount(words: seq<string>, k: nat, p: string, root: string)
    ensures multiset(GetSplitWords(words, k))[SplitWord(p, root)] ==
      if |p| == k && |root| > 0 then multiset(words)[p + root] else 0
  {
    if words != [] {
      GetSplitWordsCount(words[1..], k, p, root);
      GetSplitWordsCountStep(words, k, p, root);
      assert words == [words[0]] + words[1..];
      assert multiset(words) == multiset{words[0]} + multiset(words[1..]);
    }
  }

  /** The first word adds its own pair to the count of the rest. */
  lemma GetSplitWordsCountStep(words: seq<string>, k: nat, p: string, root: string)
    requires words != []
    ensures multiset(GetSplitWords(words, k))[SplitWord(p, root)] ==
      multiset(GetSplitWords(words[1..], k))[SplitWord(p, root)] +
      (if |p| == k && |root| > 0 && words[0] == p + root then 1 else 0)
  {
    var w, rest := words[0], words[1..];
    var head: seq<SplitWord> := if |w| > k then [Split(w, k)] else [];
    GetSplitWordsCons(words, k);
    assert multiset(GetSplitWords(words, k)) == multiset(head) + multiset(GetSplitWords(rest, k));
    SplitMatches(w, k, p, root);
  }

  /** The pair cut from w at k is (p, root) exactly when |p| = k, root is not empty and w = p + root. */
  lemma SplitMatches(w: string, k: nat, p: string, root: string)
    ensures (|w| > k && Split(w, k) == SplitWord(p, root)) <==> (|p| == k && |root| > 0 && w == p + root)
  {
    if |w| > k {
      assert w == w[..k] + w[k..];
    }
    if |p| == k && |root| > 0 && w == p + root {
      assert w[..k] == p && w[k..] == root;
    }
  }

  // ---------------------------------------------------------------------------
  // Root index builder: getWordsByRoot
  // ---------------------------------------------------------------------------

  /** The pairs for prefix lengths 1 up to n, concatenated in that order (index.ts:62-66). */
  function AllSplits(words: seq<string>, n: nat): seq<SplitWord>
  {
    if n == 0 then [] else AllSplits(words, n - 1) + GetSplitWords(words, n)
  }

  /** The pair (p, root) occurs in the pairs for lengths 1..n once per occurrence of p + root when 1 <= |p| <= n. */
  lemma {:induction false} AllSplitsCount(words: seq<string>, n: nat, p: string, root: string)
    ensures multiset(AllSplits(words, n))[SplitWord(p, root)] ==
      if 1 <= |p| <= n && |root| > 0 then multiset(words)[p + root] else 0
  {
    if n > 0 {
      AllSplitsCount(words, n - 1, p, root);
      AllSplitsStep(words, n, p, root);
    }
  }

  /** The pairs for lengths 1..n hold those for 1..n-1 and, when |p| = n, one (p, root) per word p + root. */
  lemma AllSplitsStep(words: seq<string>, n: nat, p: string, root: string)
    requires n > 0
    ensures multiset(AllSplits(words, n))[SplitWord(p, root)] == multiset(AllSplits(words, n - 1))[SplitWord(p, root)] +
      if |p| == n && |root| > 0 then multiset(words)[p + root] else 0
  {
    assert AllSplits(words, n) == AllSplits(words, n - 1) + GetSplitWords(words, n);
    GetSplitWordsCount(words, n, p, root);
  }




  function RootOfSplit(s: SplitWord): string
  {
    s.root
  }

  function PrefixOfSplit(s: SplitWord): string
  {
    s.prefix
  }

  /** The filter `w => w.root === root`. */
  function HasRoot(root: string): SplitWord -> bool
  {
    (s: SplitWord) => s.root == root
  }

  /** `uniq(splitWords.map((w) => w.root))` */
  function UniqueRoots(splits: seq<SplitWord>): seq<string>
  {
    Uniq(Map(splits, RootOfSplit))
  }

  /** The prefixes of the pairs with this root, in pair order, before sorting. */
  function RootPrefixes(splits: seq<SplitWord>, root: string): seq<string>
  {
    Map(Filter(splits, HasRoot(root)), PrefixOfSplit)
  }

  /** Every pair (p, root) puts one p into the prefixes of root. */
  lemma {:induction false} RootPrefixesCount(splits: seq<SplitWord>, root: string, p: string)
    ensures multiset(RootPrefixes(splits, root))[p] == multiset(splits)[SplitWord(p, root)]
  {
    if splits != [] {
      MapFilterCons(splits, HasRoot(root), PrefixOfSplit);
      RootPrefixesCount(splits[1..], root, p);
      assert splits == [splits[0]] + splits[1..];
    }
  }

  /** The entry built for one root (index.ts:69-77). */
  function Entry(splits: seq<SplitWord>, root: string): WordByRoot
  {
    var prefixes := SortStrings(RootPrefixes(splits, root));
    WordByRoot(root, prefixes, |prefixes|)
  }

  /** The map `root => entry for root`. */
  function EntryFor(splits: seq<SplitWord>): string -> WordByRoot
  {
    (root: string) => Entry(splits, root)
  }

  /** One entry per distinct root, in order of first occurrence (index.ts:67-78). */
  function GroupByRoot(splits: seq<SplitWord>): seq<WordByRoot>
  {
    Map(UniqueRoots(splits), EntryFor(splits))
  }

  predicate HasEnoughPrefixes(w: WordByRoot)
  {
    w.prefixCount >= MINIMUM_PREFIX_COUNT
  }

  predicate IsLongEnough(w: WordByRoot)
  {
    |w.root| >= MINIMUM_ROOT_LENGTH
  }

  /** The two filters at index.ts:79-83. */
  function Retained(entries: seq<WordByRoot>): seq<WordByRoot>
  {
    Filter(Filter(entries, HasEnoughPrefixes), IsLongEnough)
  }

  predicate Ascending(s: seq<WordByRoot>)
  {
    forall i, j :: 0 <= i < j < |s| ==> s[i].prefixCount <= s[j].prefixCount
  }

  /** Inserts `x` into ascending `t` after every entry whose count is at most x's. */
  function InsertByCount(t: seq<WordByRoot>, x: WordByRoot): (r: seq<WordByRoot>)
    requires Ascending(t)
    ensures multiset(r) == multiset(t) + multiset{x}
    ensures Ascending(r)
  {
    if t == [] then [x]
    else
      var last := t[|t| - 1];
      assert t == t[..|t| - 1] + [last];
      if last.prefixCount <= x.prefixCount then
        t + [x]
      else
        var r := InsertByCount(t[..|t| - 1], x);
        CountsBelowLast(t, r, x);
        r + [last]
  }

  lemma CountsBelowLast(t: seq<WordByRoot>, r: seq<WordByRoot>, x: WordByRoot)
    requires Ascending(t) && t != [] && x.prefixCount < t[|t| - 1].prefixCount
    requires multiset(r) == multiset(t[..|t| - 1]) + multiset{x}
    ensures forall i :: 0 <= i < |r| ==> r[i].prefixCount <= t[|t| - 1].prefixCount
  {
    forall i | 0 <= i < |r| ensures r[i].prefixCount <= t[|t| - 1].prefixCount {
      assert r[i] in multiset(r);
      if r[i] != x {
        assert r[i] in t[..|t| - 1];
      }
    }
  }

  /** lodash `sortBy(entries, "prefixCount")`: stable, ascending by prefixCount. */
  function SortByPrefixCount(s: seq<WordByRoot>): (r: seq<WordByRoot>)
    ensures Ascending(r)
    ensures multiset(r) == multiset(s)
  {
    if s == [] then []
    else
      assert s == s[..|s| - 1] + [s[|s| - 1]];
      InsertByCount(SortByPrefixCount(s[..|s| - 1]), s[|s| - 1])
  }

  function HasCount(k: int): WordByRoot -> bool
  {
    (e: WordByRoot) => e.prefixCount == k
  }

  /** The entries with exactly k prefixes, in their order. */
  function WithCount(s: seq<WordByRoot>, k: int): seq<WordByRoot>
  {
    Filter(s, HasCount(k))
  }

  lemma {:induction false} InsertByCountStable(t: seq<WordByRoot>, x: WordByRoot, k: int)
    requires Ascending(t)
    ensures WithCount(InsertByCount(t, x), k) == WithCount(t, k) + WithCount([x], k)
  {
    if t == [] {
      assert InsertByCount(t, x) == [x];
    } else {
      var t', last := t[..|t| - 1], t[|t| - 1];
      assert t == t' + [last];
      if last.prefixCount <= x.prefixCount {
        assert InsertByCount(t, x) == t + [x];
        FilterConcat(t, [x], HasCount(k));
      } else {
        assert Ascending(t');
        var r' := InsertByCount(t', x);
        assert InsertByCount(t, x) == r' + [last];
        InsertByCountStable(t', x, k);
        StableStep(t', last, r', x, k);
      }
    }
  }

  /** The step of InsertByCountStable where `x` moves below `last`. */
  lemma StableStep(t': seq<WordByRoot>, last: WordByRoot, r': seq<WordByRoot>, x: WordByRoot, k: int)
    requires x.prefixCount < last.prefixCount
    requires WithCount(r', k) == WithCount(t', k) + WithCount([x], k)
    ensures WithCount(r' + [last], k) == WithCount(t' + [last], k) + WithCount([x], k)
  {
    FilterSingleton(x, HasCount(k));
    FilterSingleton(last, HasCount(k));
    FilterConcat(t', [last], HasCount(k));
    FilterConcat(r', [last], HasCount(k));
    if x.prefixCount == k {
      assert WithCount([last], k) == [];
    } else {
      assert WithCount([x], k) == [];
    }
  }

  /** Stability: among entries with equal counts the input order is kept. */
  lemma {:induction false} SortByPrefixCountStable(s: seq<WordByRoot>, k: int)
    ensures WithCount(SortByPrefixCount(s), k) == WithCount(s, k)
  {
    if s != [] {
      var s', y := s[..|s| - 1], s[|s| - 1];
      assert s == s' + [y];
      SortByPrefixCountStable(s', k);
      InsertByCountStable(SortByPrefixCount(s'), y, k);
      FilterConcat(s', [y], HasCount(k));
    }
  }

  predicate DistinctRoots(s: seq<WordByRoot>)
  {
    forall i, j :: 0 <= i < j < |s| ==> s[i].root != s[j].root
  }

  lemma {:induction false} FilterDistinctRoots(s: seq<WordByRoot>, p: WordByRoot -> bool)
    requires DistinctRoots(s)
    ensures DistinctRoots(Filter(s, p))
  {
    if s != [] {
      FilterDistinctRoots(s[1..], p);
      forall y | y in s[1..] ensures y.root != s[0].root {
        var j :| 0 <= j < |s[1..]| && s[1..][j] == y;
        assert s[j + 1] == y;
      }
    }
  }

  lemma {:induction false} InsertByCountDistinct(t: seq<WordByRoot>, x: WordByRoot)
    requires Ascending(t) && DistinctRoots(t)
    requires forall y :: y in t ==> y.root != x.root
    ensures DistinctRoots(InsertByCount(t, x))
  {
    if t != [] {
      var t', last := t[..|t| - 1], t[|t| - 1];
      if last.prefixCount <= x.prefixCount {
        assert forall i :: 0 <= i < |t| ==> t[i] in t;
      } else {
        InsertByCountDistinct(t', x);
        var r := InsertByCount(t', x);
        forall i | 0 <= i < |r| ensures r[i].root != last.root {
          assert r[i] in multiset(r);
          if r[i] != x {
            assert r[i] in t';
          } else {
            assert last in t;
          }
        }
      }
    }
  }

  lemma {:induction false} SortByPrefixCountDistinct(s: seq<WordByRoot>)
    requires DistinctRoots(s)
    ensures DistinctRoots(SortByPrefixCount(s))
  {
    if s != [] {
      var s', y := s[..|s| - 1], s[|s| - 1];
      SortByPrefixCountDistinct(s');
      var t := SortByPrefixCount(s');
      forall z | z in t ensures z.root != y.root {
        assert z in multiset(t);
        var j :| 0 <= j < |s'| && s'[j] == z;
        assert s[j] == z;
      }
      InsertByCountDistinct(t, y);
    }
  }

  /** `sortBy(filteredWords, "prefixCount").toReversed()` (index.ts:84). */
  function Ranked(entries: seq<WordByRoot>): seq<WordByRoot>
  {
    Reverse(SortByPrefixCount(entries))
  }

  function RootIndexOf(splits: seq<SplitWord>): seq<WordByRoot>
  {
    Ranked(Retained(GroupByRoot(splits)))
  }

  /**
   * What getWordsByRoot(words) returns. Every entry counts its own prefixes,
   * has at least MINIMUM_PREFIX_COUNT of them and a root of at least
   * MINIMUM_ROOT_LENGTH characters, and keeps its prefixes sorted; the entries
   * are ranked from the most prefixes to the fewest, and no root appears twice.
   */
  function RootIndex(words: seq<string>): (r: seq<WordByRoot>)
    ensures forall e :: e in r ==>
      e.prefixCount == |e.prefixes| && e.prefixCount >= MINIMUM_PREFIX_COUNT &&
      |e.root| >= MINIMUM_ROOT_LENGTH && SortedStrings(e.prefixes)
    ensures forall i, j :: 0 <= i < j < |r| ==> r[i].prefixCount >= r[j].prefixCount
    ensures DistinctRoots(r)
  {
    var splits := AllSplits(words, MAX_PREFIX_LENGTH);
    RootIndexOfEntries(splits);
    RootIndexOfRanked(splits);
    RootIndexOf(splits)
  }

  /** Every ranked entry counts its own sorted prefixes and passed both filters. */
  lemma RootIndexOfEntries(splits: seq<SplitWord>)
    ensures forall e :: e in RootIndexOf(splits) ==>
      e.prefixCount == |e.prefixes| && SortedStrings(e.prefixes) && HasEnoughPrefixes(e) && IsLongEnough(e)
  {
    forall e | e in RootIndexOf(splits)
      ensures e.prefixCount == |e.prefixes| && SortedStrings(e.prefixes) && HasEnoughPrefixes(e) && IsLongEnough(e)
    {
      RootIndexOfMember(splits, e);
    }
  }

  /** The ranked entries go from most prefixes to fewest, with no root twice. */
  lemma RootIndexOfRanked(splits: seq<SplitWord>)
    ensures forall i, j :: 0 <= i < j < |RootIndexOf(splits)| ==>
      RootIndexOf(splits)[i].prefixCount >= RootIndexOf(splits)[j].prefixCount
    ensures DistinctRoots(RootIndexOf(splits))
  {
    var grouped := GroupByRoot(splits);
    RankedNonIncreasing(Retained(grouped));
    assert DistinctRoots(grouped);
    RetainedDistinct(grouped);
    RankedDistinct(Retained(grouped));
  }

  /** The loop at index.ts:62-66 followed by the pure steps at index.ts:67-85. */
  method GetWordsByRoot(words: seq<string>) returns (sortedWordsByRoot: seq<WordByRoot>)
    ensures sortedWordsByRoot == RootIndex(words)
    ensures forall e :: e in sortedWordsByRoot ==>
      e.prefixCount == |e.prefixes| && e.prefixCount >= MINIMUM_PREFIX_COUNT &&
      |e.root| >= MINIMUM_ROOT_LENGTH && SortedStrings(e.prefixes)
    ensures forall i, j :: 0 <= i < j < |sortedWordsByRoot| ==>
      sortedWordsByRoot[i].prefixCount >= sortedWordsByRoot[j].prefixCount &&
      sortedWordsByRoot[i].root != sortedWordsByRoot[j].root
  {
    var splitWords: seq<SplitWord> := [];
    for i := 1 to MAX_PREFIX_LENGTH + 1
      invariant splitWords == AllSplits(words, i - 1)
    {
      splitWords := splitWords + GetSplitWords(words, i);
    }
    var uniqueRoots := UniqueRoots(splitWords);
    var wordsByRoot := Map(uniqueRoots, EntryFor(splitWords));
    var filteredWords := Retained(wordsByRoot);
    sortedWordsByRoot := Reverse(SortByPrefixCount(filteredWords));
  }

  // ---------------------------------------------------------------------------
  // Properties of the root index
  // ---------------------------------------------------------------------------

  /** Every ranked entry is the entry of its own root and passed both filters. */
  lemma RootIndexOfMember(splits: seq<SplitWord>, e: WordByRoot)
    requires e in RootIndexOf(splits)
    ensures e == Entry(splits, e.root)
    ensures HasEnoughPrefixes(e) && IsLongEnough(e)
  {
    var grouped := GroupByRoot(splits);
    var retained := Retained(grouped);
    assert e in multiset(RootIndexOf(splits));
    assert e in multiset(SortByPrefixCount(retained));
    assert e in retained;
    var i :| 0 <= i < |grouped| && grouped[i] == e;
  }


  /**
   * A prefix p occurs in the entry of root r once for every occurrence of the
   * word p + r in the word list when 1 <= |p| <= MAX_PREFIX_LENGTH, and never otherwise.
   */
  lemma RootIndexPrefixMultiplicity(words: seq<string>)
    ensures forall e, p :: e in RootIndex(words) ==>
      multiset(e.prefixes)[p] ==
        if 1 <= |p| <= MAX_PREFIX_LENGTH then multiset(words)[p + e.root] else 0
  {
    var splits := AllSplits(words, MAX_PREFIX_LENGTH);
    forall e, p | e in RootIndex(words)
      ensures multiset(e.prefixes)[p] ==
        if 1 <= |p| <= MAX_PREFIX_LENGTH then multiset(words)[p + e.root] else 0
    {
      RootIndexOfMember(splits, e);
      RootPrefixesCount(splits, e.root, p);
      AllSplitsCount(words, MAX_PREFIX_LENGTH, p, e.root);
    }
  }

  /** Reversing an ascending sequence gives counts that never increase. */
  lemma ReverseAscending(sorted: seq<WordByRoot>)
    requires Ascending(sorted)
    ensures forall i, j :: 0 <= i < j < |Reverse(sorted)| ==> Reverse(sorted)[i].prefixCount >= Reverse(sorted)[j].prefixCount
  {
    var r, n := Reverse(sorted), |sorted|;
    forall i, j | 0 <= i < j < |r| ensures r[i].prefixCount >= r[j].prefixCount {
      assert r[i] == sorted[n - 1 - i] && r[j] == sorted[n - 1 - j];
    }
  }

  /** Reversing keeps roots distinct. */
  lemma ReverseDistinct(s: seq<WordByRoot>)
    requires DistinctRoots(s)
    ensures DistinctRoots(Reverse(s))
  {
    var r, n := Reverse(s), |s|;
    forall i, j | 0 <= i < j < |r| ensures r[i].root != r[j].root {
      assert r[i] == s[n - 1 - i] && r[j] == s[n - 1 - j];
    }
  }

  lemma RankedNonIncreasing(s: seq<WordByRoot>)
    ensures forall i, j :: 0 <= i < j < |Ranked(s)| ==> Ranked(s)[i].prefixCount >= Ranked(s)[j].prefixCount
  {
    ReverseAscending(SortByPrefixCount(s));
  }

  lemma RankedDistinct(s: seq<WordByRoot>)
    requires DistinctRoots(s)
    ensures DistinctRoots(Ranked(s))
  {
    SortByPrefixCountDistinct(s);
    ReverseDistinct(SortByPrefixCount(s));
  }

  lemma RetainedDistinct(grouped: seq<WordByRoot>)
    requires DistinctRoots(grouped)
    ensures DistinctRoots(Retained(grouped))
  {
    FilterDistinctRoots(grouped, HasEnoughPrefixes);
    FilterDistinctRoots(Filter(grouped, HasEnoughPrefixes), IsLongEnough);
  }


  /**
   * Entries with the same count come out in the reverse of the order in which
   * their roots were first met: the stable ascending sort keeps that order and
   * the reversal turns it round.
   */
  lemma RootIndexTiesReversed(words: seq<string>, k: int)
    ensures WithCount(RootIndex(words), k) ==
      Reverse(WithCount(Retained(GroupByRoot(AllSplits(words, MAX_PREFIX_LENGTH))), k))
  {
    var retained := Retained(GroupByRoot(AllSplits(words, MAX_PREFIX_LENGTH)));
    FilterReverse(SortByPrefixCount(retained), HasCount(k));
    SortByPrefixCountStable(retained, k);
  }

  /** A root that some pair has is among the unique roots. */
  lemma RootInUniqueRoots(splits: seq<SplitWord>, root: string)
    requires |RootPrefixes(splits, root)| > 0
    ensures root in UniqueRoots(splits)
  {
    var matching := Filter(splits, HasRoot(root));
    assert matching[0] in matching;
    assert HasRoot(root)(matching[0]);
    var j :| 0 <= j < |splits| && splits[j] == matching[0];
    var roots := Map(splits, RootOfSplit);
    assert roots[j] == RootOfSplit(splits[j]) == root;
    assert root in roots;
  }

  /** Each unique root has its entry among the grouped entries. */
  lemma EntryInGroup(splits: seq<SplitWord>, root: string)
    requires root in UniqueRoots(splits)
    ensures Entry(splits, root) in GroupByRoot(splits)
  {
    var unique := UniqueRoots(splits);
    var i :| 0 <= i < |unique| && unique[i] == root;
    assert GroupByRoot(splits)[i] == EntryFor(splits)(unique[i]);
  }

  /** A root met often enough, and long enough, gets an entry. */
  lemma RootIndexOfIncludes(splits: seq<SplitWord>, root: string)
    requires |root| >= MINIMUM_ROOT_LENGTH && |RootPrefixes(splits, root)| >= MINIMUM_PREFIX_COUNT
    ensures Entry(splits, root) in RootIndexOf(splits)
  {
    RootInUniqueRoots(splits, root);
    EntryInGroup(splits, root);
    var e := Entry(splits, root);
    assert |multiset(e.prefixes)| == |multiset(RootPrefixes(splits, root))|;
    var retained := Retained(GroupByRoot(splits));
    assert e in retained;
    assert e in multiset(SortByPrefixCount(retained));
    assert e in multiset(RootIndexOf(splits));
  }

  /**
   * A root has an entry exactly when it is long enough and at least
   * MINIMUM_PREFIX_COUNT (word, prefix length) pairs produce it.
   */
  lemma RootIndexComplete(words: seq<string>, root: string)
    ensures (exists e :: e in RootIndex(words) && e.root == root) <==>
      |root| >= MINIMUM_ROOT_LENGTH &&
      |RootPrefixes(AllSplits(words, MAX_PREFIX_LENGTH), root)| >= MINIMUM_PREFIX_COUNT
  {
    var splits := AllSplits(words, MAX_PREFIX_LENGTH);
    if e :| e in RootIndexOf(splits) && e.root == root {
      RootIndexOfMember(splits, e);
      assert |multiset(e.prefixes)| == |multiset(RootPrefixes(splits, root))|;
    }
    if |root| >= MINIMUM_ROOT_LENGTH && |RootPrefixes(splits, root)| >= MINIMUM_PREFIX_COUNT {
      RootIndexOfIncludes(splits, root);
    }
  }
}
