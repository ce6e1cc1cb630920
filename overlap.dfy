/**
 * The overlap filters of index.ts over a ranked root index: filterRoots,
 * getWordsWithPrefixesInCommon and applyRootConditions. Each first drops the
 * entries whose root is already taken, then keeps those that pass a test.
 */
module Overlap {
  import opened Collections
  import opened RootIndex

  datatype RootCondition = RootCondition(roots: seq<WordByRoot>, prefixCount: int)

  /** An entry of filterRoots' result: the entry spread together with its overlaps. */
  datatype FilteredRoot = FilteredRoot(
    entry: WordByRoot,
    commonPrefixes: seq<seq<string>>,
    commonPrefixesCounts: seq<int>)

  function RootOf(w: WordByRoot): string
  {
    w.root
  }

  /** `entries.map((w) => w.root)` */
  function RootNames(entries: seq<WordByRoot>): seq<string>
  {
    Map(entries, RootOf)
  }

  lemma RootNamesMember(entries: seq<WordByRoot>, name: string)
    ensures name in RootNames(entries) <==> exists e :: e in entries && e.root == name
  {
    var names := RootNames(entries);
    assert |names| == |entries|;
    if name in names {
      var i :| 0 <= i < |names| && names[i] == name;
      assert names[i] == RootOf(entries[i]);
      assert entries[i] in entries;
    }
    if e :| e in entries && e.root == name {
      var i :| 0 <= i < |entries| && entries[i] == e;
      assert names[i] == RootOf(entries[i]);
    }
  }

  /** The filter `(w) => !disallowedRoots.includes(w.root)`. */
  function NotDisallowed(disallowedRoots: seq<string>): WordByRoot -> bool
  {
    (w: WordByRoot) => w.root !in disallowedRoots
  }

  /**
   * The filter `(w) => !disallowedRoots.includes(w.root)` applied to
   * `wordsByRoot`: the entries whose root is not the root of any entry of
   * `excluded`, in order.
   */
  function Allowed(wordsByRoot: seq<WordByRoot>, excluded: seq<WordByRoot>): (r: seq<WordByRoot>)
    ensures forall w :: w in r <==> w in wordsByRoot && forall e :: e in excluded ==> w.root != e.root
    ensures IsSubsequence(r, wordsByRoot)
  {
    assert forall w: WordByRoot :: w.root in RootNames(excluded) <==> exists e :: e in excluded && e.root == w.root by {
      forall w: WordByRoot
        ensures w.root in RootNames(excluded) <==> exists e :: e in excluded && e.root == w.root
      {
        RootNamesMember(excluded, w.root);
      }
    }
    Filter(wordsByRoot, NotDisallowed(RootNames(excluded)))
  }

  // ---------------------------------------------------------------------------
  // filterRoots
  // ---------------------------------------------------------------------------

  /** The map `(root) => intersection(w.prefixes, root.prefixes)`. */
  function CommonWith(w: WordByRoot): WordByRoot -> seq<string>
  {
    (root: WordByRoot) => Intersection(w.prefixes, root.prefixes)
  }

  function Length(p: seq<string>): int
  {
    |p|
  }

  /** The map at index.ts:111-120. */
  function Annotate(w: WordByRoot, roots: seq<WordByRoot>): FilteredRoot
  {
    var commonPrefixes := Map(roots, CommonWith(w));
    FilteredRoot(w, commonPrefixes, Map(commonPrefixes, Length))
  }

  function AnnotateWith(roots: seq<WordByRoot>): WordByRoot -> FilteredRoot
  {
    (w: WordByRoot) => Annotate(w, roots)
  }

  /** `w.commonPrefixesCounts.every((c) => c >= prefixCount)` */
  predicate EveryCountAtLeast(a: FilteredRoot, prefixCount: int)
  {
    forall c :: c in a.commonPrefixesCounts ==> c >= prefixCount
  }

  function CountsAtLeast(prefixCount: int): FilteredRoot -> bool
  {
    (a: FilteredRoot) => EveryCountAtLeast(a, prefixCount)
  }

  /**
   * filterRoots (index.ts:96-124): every result is an entry of `wordsByRoot`
   * outside the group, annotated with its overlap with each group root; each
   * overlap has at least `prefixCount` distinct prefixes. `FilterRootsSpec`
   * says which entries are kept.
   */
  function FilterRoots(wordsByRoot: seq<WordByRoot>, roots: seq<WordByRoot>, prefixCount: int): (r: seq<FilteredRoot>)
    ensures forall a :: a in r ==>
      a.entry in wordsByRoot && (forall g :: g in roots ==> a.entry.root != g.root) &&
      |a.commonPrefixes| == |roots| == |a.commonPrefixesCounts| &&
      forall j :: 0 <= j < |roots| ==>
        a.commonPrefixes[j] == Intersection(a.entry.prefixes, roots[j].prefixes) &&
        a.commonPrefixesCounts[j] == |Elems(a.entry.prefixes) * Elems(roots[j].prefixes)| &&
        a.commonPrefixesCounts[j] >= prefixCount
  {
    var allowed := Allowed(wordsByRoot, roots);
    var annotated := Map(allowed, AnnotateWith(roots));
    var r := Filter(annotated, CountsAtLeast(prefixCount));
    forall a | a in r
      ensures a.entry in wordsByRoot && (forall g :: g in roots ==> a.entry.root != g.root)
      ensures |a.commonPrefixes| == |roots| == |a.commonPrefixesCounts|
      ensures forall j :: 0 <= j < |roots| ==>
        a.commonPrefixes[j] == Intersection(a.entry.prefixes, roots[j].prefixes) &&
        a.commonPrefixesCounts[j] == |Elems(a.entry.prefixes) * Elems(roots[j].prefixes)| &&
        a.commonPrefixesCounts[j] >= prefixCount
    {
      assert a in annotated && EveryCountAtLeast(a, prefixCount);
      var i :| 0 <= i < |annotated| && annotated[i] == a;
      assert a == Annotate(allowed[i], roots) && a.entry == allowed[i] && allowed[i] in allowed;
      AnnotateMeaning(a.entry, roots, prefixCount);
      forall j | 0 <= j < |roots| ensures a.commonPrefixesCounts[j] >= prefixCount {
        assert a.commonPrefixesCounts[j] in a.commonPrefixesCounts;
      }
    }
    r
  }

  /** Whether filterRoots keeps an entry. */
  predicate KeptByFilterRoots(w: WordByRoot, roots: seq<WordByRoot>, prefixCount: int)
  {
    w.root !in RootNames(roots) && EveryCountAtLeast(Annotate(w, roots), prefixCount)
  }

  function KeptBy(roots: seq<WordByRoot>, prefixCount: int): WordByRoot -> bool
  {
    (w: WordByRoot) => KeptByFilterRoots(w, roots, prefixCount)
  }

  function EntryOf(a: FilteredRoot): WordByRoot
  {
    a.entry
  }

  function Entries(r: seq<FilteredRoot>): seq<WordByRoot>
  {
    Map(r, EntryOf)
  }

  lemma FilterRootsCons(wordsByRoot: seq<WordByRoot>, roots: seq<WordByRoot>, prefixCount: int)
    requires wordsByRoot != []
    ensures FilterRoots(wordsByRoot, roots, prefixCount) ==
      (if KeptByFilterRoots(wordsByRoot[0], roots, prefixCount) then [Annotate(wordsByRoot[0], roots)] else []) +
      FilterRoots(wordsByRoot[1..], roots, prefixCount)
  {
    var w := wordsByRoot[0];
    var allowedHead: seq<WordByRoot> := if w.root !in RootNames(roots) then [w] else [];
    var rest := Allowed(wordsByRoot[1..], roots);
    assert Allowed(wordsByRoot, roots) == allowedHead + rest;
    MapConcat(allowedHead, rest, AnnotateWith(roots));
    var mappedHead := Map(allowedHead, AnnotateWith(roots));
    FilterConcat(mappedHead, Map(rest, AnnotateWith(roots)), CountsAtLeast(prefixCount));
    if w.root !in RootNames(roots) {
      assert mappedHead == [Annotate(w, roots)];
      FilterSingleton(Annotate(w, roots), CountsAtLeast(prefixCount));
    } else {
      assert mappedHead == [];
    }
  }

  /** The entries filterRoots keeps are the entries of `wordsByRoot` it accepts, in order. */
  lemma {:induction false} FilterRootsEntries(wordsByRoot: seq<WordByRoot>, roots: seq<WordByRoot>, prefixCount: int)
    ensures Entries(FilterRoots(wordsByRoot, roots, prefixCount)) == Filter(wordsByRoot, KeptBy(roots, prefixCount))
  {
    if wordsByRoot != [] {
      var w := wordsByRoot[0];
      var head := if KeptByFilterRoots(w, roots, prefixCount) then [Annotate(w, roots)] else [];
      var rest := FilterRoots(wordsByRoot[1..], roots, prefixCount);
      FilterRootsCons(wordsByRoot, roots, prefixCount);
      FilterRootsEntries(wordsByRoot[1..], roots, prefixCount);
      MapConcat(head, rest, EntryOf);
      if KeptByFilterRoots(w, roots, prefixCount) {
        assert Entries(head)[0] == EntryOf(Annotate(w, roots)) == w;
        assert Entries(head) == [w];
      } else {
        assert Entries(head) == [];
      }
      FilterCons(wordsByRoot, KeptBy(roots, prefixCount));
    }
  }

  /** What the annotation of an entry holds: one overlap and its size per root. */
  lemma AnnotateMeaning(w: WordByRoot, roots: seq<WordByRoot>, prefixCount: int)
    ensures |Annotate(w, roots).commonPrefixes| == |roots| == |Annotate(w, roots).commonPrefixesCounts|
    ensures forall j :: 0 <= j < |roots| ==>
      Annotate(w, roots).commonPrefixes[j] == Intersection(w.prefixes, roots[j].prefixes) &&
      Annotate(w, roots).commonPrefixesCounts[j] == |Elems(w.prefixes) * Elems(roots[j].prefixes)|
    ensures EveryCountAtLeast(Annotate(w, roots), prefixCount) <==>
      forall g :: g in roots ==> |Elems(w.prefixes) * Elems(g.prefixes)| >= prefixCount
  {
    var a := Annotate(w, roots);
    assert |a.commonPrefixes| == |roots|;
    forall j | 0 <= j < |roots|
      ensures a.commonPrefixes[j] == Intersection(w.prefixes, roots[j].prefixes)
      ensures a.commonPrefixesCounts[j] == |Elems(w.prefixes) * Elems(roots[j].prefixes)|
    {
      assert a.commonPrefixes[j] == CommonWith(w)(roots[j]);
      assert a.commonPrefixesCounts[j] == Length(a.commonPrefixes[j]);
    }
    if EveryCountAtLeast(a, prefixCount) {
      forall g | g in roots ensures |Elems(w.prefixes) * Elems(g.prefixes)| >= prefixCount {
        var j :| 0 <= j < |roots| && roots[j] == g;
        assert a.commonPrefixesCounts[j] in a.commonPrefixesCounts;
      }
    }
    if forall g :: g in roots ==> |Elems(w.prefixes) * Elems(g.prefixes)| >= prefixCount {
      forall c | c in a.commonPrefixesCounts ensures c >= prefixCount {
        var j :| 0 <= j < |roots| && a.commonPrefixesCounts[j] == c;
        assert roots[j] in roots;
      }
    }
  }

  /**
   * filterRoots keeps, in their order, exactly the entries of `wordsByRoot` whose
   * root is not among `roots` and that share at least `prefixCount` distinct
   * prefixes with every one of `roots`.
   */
  lemma FilterRootsSpec(wordsByRoot: seq<WordByRoot>, roots: seq<WordByRoot>, prefixCount: int)
    ensures IsSubsequence(Entries(FilterRoots(wordsByRoot, roots, prefixCount)), wordsByRoot)
    ensures forall w :: w in Entries(FilterRoots(wordsByRoot, roots, prefixCount)) <==>
      w in wordsByRoot &&
      (forall g :: g in roots ==> w.root != g.root) &&
      (forall g :: g in roots ==> |Elems(w.prefixes) * Elems(g.prefixes)| >= prefixCount)
  {
    FilterRootsEntries(wordsByRoot, roots, prefixCount);
    forall w: WordByRoot
      ensures KeptByFilterRoots(w, roots, prefixCount) <==>
        (forall g :: g in roots ==> w.root != g.root) &&
        (forall g :: g in roots ==> |Elems(w.prefixes) * Elems(g.prefixes)| >= prefixCount)
    {
      RootNamesMember(roots, w.root);
      AnnotateMeaning(w, roots, prefixCount);
    }
  }

  // ---------------------------------------------------------------------------
  // getWordsWithPrefixesInCommon
  // ---------------------------------------------------------------------------

  /** `roots.every((r) => intersection(w.prefixes, r.prefixes).length > 0)` */
  predicate SharesPrefixWithAll(w: WordByRoot, roots: seq<WordByRoot>)
  {
    forall r :: r in roots ==> |Intersection(w.prefixes, r.prefixes)| > 0
  }

  function SharesWithAll(roots: seq<WordByRoot>): WordByRoot -> bool
  {
    (w: WordByRoot) => SharesPrefixWithAll(w, roots)
  }

  /** An entry shares a prefix with every group root exactly when each overlap is non-empty. */
  lemma SharesPrefixWithAllMeaning(w: WordByRoot, roots: seq<WordByRoot>)
    ensures SharesPrefixWithAll(w, roots) <==>
      forall g :: g in roots ==> exists p :: p in w.prefixes && p in g.prefixes
  {
    forall g | g in roots
      ensures |Intersection(w.prefixes, g.prefixes)| > 0 <==> exists p :: p in w.prefixes && p in g.prefixes
    {
      var common := Intersection(w.prefixes, g.prefixes);
      if |common| > 0 {
        assert common[0] in common;
      }
    }
  }

  lemma SharesWithAllMeaning(roots: seq<WordByRoot>)
    ensures forall w: WordByRoot :: SharesPrefixWithAll(w, roots) <==>
      forall g :: g in roots ==> exists p :: p in w.prefixes && p in g.prefixes
  {
    forall w: WordByRoot
      ensures SharesPrefixWithAll(w, roots) <==>
        forall g :: g in roots ==> exists p :: p in w.prefixes && p in g.prefixes
    {
      SharesPrefixWithAllMeaning(w, roots);
    }
  }

  /**
   * getWordsWithPrefixesInCommon (index.ts:176-189) keeps, in their order,
   * exactly the entries of `wordsByRoot` that are not in the group and share at
   * least one prefix with every group member.
   */
  function GetWordsWithPrefixesInCommon(wordsByRoot: seq<WordByRoot>, roots: seq<WordByRoot>): (r: seq<WordByRoot>)
    ensures IsSubsequence(r, wordsByRoot)
    ensures forall w :: w in r <==>
      w in wordsByRoot &&
      (forall g :: g in roots ==> w.root != g.root) &&
      (forall g :: g in roots ==> exists p :: p in w.prefixes && p in g.prefixes)
  {
    var allowed := Allowed(wordsByRoot, roots);
    var r := Filter(allowed, SharesWithAll(roots));
    SubsequenceTransitive(r, allowed, wordsByRoot);
    SharesWithAllMeaning(roots);
    r
  }

  // ---------------------------------------------------------------------------
  // applyRootConditions
  // ---------------------------------------------------------------------------

  /**
   * The test inside the candidate filter at index.ts:158-166: for every
   * condition, more than `prefixCount` entries share a prefix with the whole
   * group. It never looks at the candidate.
   */
  predicate ConditionsHold(wordsByRoot: seq<WordByRoot>, conditions: seq<RootCondition>)
  {
    forall condition :: condition in conditions ==>
      |GetWordsWithPrefixesInCommon(wordsByRoot, condition.roots)| > condition.prefixCount
  }

  function CandidateTest(wordsByRoot: seq<WordByRoot>, conditions: seq<RootCondition>): WordByRoot -> bool
  {
    (w: WordByRoot) => ConditionsHold(wordsByRoot, conditions)
  }

  /**
   * applyRootConditions (index.ts:131-173, without the log call) returns either
   * nothing or every entry whose root is not among `previousWords`, in order;
   * which of the two depends on the conditions alone. No returned entry has a
   * previous root.
   */
  function ApplyRootConditions(
    wordsByRoot: seq<WordByRoot>,
    previousWords: seq<WordByRoot>,
    conditions: seq<RootCondition>): (r: seq<WordByRoot>)
    ensures r == if ConditionsHold(wordsByRoot, conditions) then Allowed(wordsByRoot, previousWords) else []
    ensures IsSubsequence(r, wordsByRoot)
    ensures forall w :: w in r ==> w in wordsByRoot && forall e :: e in previousWords ==> w.root != e.root
  {
    var allowed := Allowed(wordsByRoot, previousWords);
    var r := Filter(allowed, CandidateTest(wordsByRoot, conditions));
    if ConditionsHold(wordsByRoot, conditions) then
      FilterAll(allowed, CandidateTest(wordsByRoot, conditions));
      r
    else
      FilterNone(allowed, CandidateTest(wordsByRoot, conditions));
      r
  }
}
