/**
 * findRootCombinations (index.ts:191-261): four nested loops over the root
 * index pick root1, root2, root3 and root4, each from the entries that
 * applyRootConditions lets through given the roots already picked. A stage
 * that lets nothing through ends the loop around it.
 */
module Search {
  import opened Collections
  import opened RootIndex
  import opened Overlap

  /** The conditions a second root is picked under (index.ts:204). */
  function Stage2Conditions(root1: WordByRoot): seq<RootCondition>
  {
    [RootCondition([root1], 4)]
  }

  /** The conditions a third root is picked under (index.ts:215-218). */
  function Stage3Conditions(root1: WordByRoot, root2: WordByRoot): seq<RootCondition>
  {
    [RootCondition([root1, root2], 2), RootCondition([root2], 1)]
  }

  /** The five conditions a fourth root is picked under (index.ts:238-244). */
  function Stage4Conditions(root1: WordByRoot, root2: WordByRoot, root3: WordByRoot): seq<RootCondition>
  {
    [RootCondition([root1, root2, root3], 1),
     RootCondition([root1, root2], 1),
     RootCondition([root2, root3], 1),
     RootCondition([root1, root3], 1),
     RootCondition([root3], 1)]
  }

  function ValidRoots2(wordsByRoot: seq<WordByRoot>, root1: WordByRoot): seq<WordByRoot>
  {
    ApplyRootConditions(wordsByRoot, [root1], Stage2Conditions(root1))
  }

  function ValidRoots3(wordsByRoot: seq<WordByRoot>, root1: WordByRoot, root2: WordByRoot): seq<WordByRoot>
  {
    ApplyRootConditions(wordsByRoot, [root1, root2], Stage3Conditions(root1, root2))
  }

  function ValidRoots4(wordsByRoot: seq<WordByRoot>, root1: WordByRoot, root2: WordByRoot, root3: WordByRoot): seq<WordByRoot>
  {
    ApplyRootConditions(wordsByRoot, [root1, root2, root3], Stage4Conditions(root1, root2, root3))
  }

  /**
   * What the innermost loop pushes for the fourth roots `roots4`: every tuple
   * is the three roots picked so far and one of `roots4`.
   */
  function Emit(root1: WordByRoot, root2: WordByRoot, root3: WordByRoot, roots4: seq<WordByRoot>): (r: seq<seq<WordByRoot>>)
    ensures forall c: seq<WordByRoot> :: c in r ==>
      |c| == 4 && c[0] == root1 && c[1] == root2 && c[2] == root3 && c[3] in roots4
  {
    if roots4 == [] then []
    else [[root1, root2, root3, roots4[0]]] + Emit(root1, root2, root3, roots4[1..])
  }

  /** What the loop over the third roots `roots3` pushes. */
  function SearchRoot3(wordsByRoot: seq<WordByRoot>, root1: WordByRoot, root2: WordByRoot, roots3: seq<WordByRoot>): seq<seq<WordByRoot>>
  {
    if roots3 == [] then []
    else
      var validRoots4 := ValidRoots4(wordsByRoot, root1, root2, roots3[0]);
      if |validRoots4| == 0 then []
      else Emit(root1, root2, roots3[0], validRoots4) + SearchRoot3(wordsByRoot, root1, root2, roots3[1..])
  }

  /** What the loop over the second roots `roots2` pushes. */
  function SearchRoot2(wordsByRoot: seq<WordByRoot>, root1: WordByRoot, roots2: seq<WordByRoot>): seq<seq<WordByRoot>>
  {
    if roots2 == [] then []
    else
      var validRoots3 := ValidRoots3(wordsByRoot, root1, roots2[0]);
      if |validRoots3| == 0 then []
      else SearchRoot3(wordsByRoot, root1, roots2[0], validRoots3) + SearchRoot2(wordsByRoot, root1, roots2[1..])
  }

  /** What the loop over the first roots `roots1` pushes. */
  function SearchRoot1(wordsByRoot: seq<WordByRoot>, roots1: seq<WordByRoot>): seq<seq<WordByRoot>>
  {
    if roots1 == [] then []
    else
      var validRoots2 := ValidRoots2(wordsByRoot, roots1[0]);
      if |validRoots2| == 0 then []
      else SearchRoot2(wordsByRoot, roots1[0], validRoots2) + SearchRoot1(wordsByRoot, roots1[1..])
  }

  /**
   * The combinations found over a root index: each is four entries of the index
   * with pairwise different roots, picked while the conditions of each stage held.
   */
  function Combinations(wordsByRoot: seq<WordByRoot>): (r: seq<seq<WordByRoot>>)
    ensures forall c: seq<WordByRoot> :: c in r ==>
      |c| == 4 && Elems(c) <= Elems(wordsByRoot) && DistinctRoots(c) &&
      ConditionsHold(wordsByRoot, Stage2Conditions(c[0])) &&
      ConditionsHold(wordsByRoot, Stage3Conditions(c[0], c[1])) &&
      ConditionsHold(wordsByRoot, Stage4Conditions(c[0], c[1], c[2]))
  {
    var r := SearchRoot1(wordsByRoot, wordsByRoot);
    SearchRoot1Sound(wordsByRoot, wordsByRoot);
    assert forall c: seq<WordByRoot> :: c in r ==>
      Elems(c) <= Elems(wordsByRoot) && DistinctRoots(c) &&
      ConditionsHold(wordsByRoot, Stage2Conditions(c[0])) &&
      ConditionsHold(wordsByRoot, Stage3Conditions(c[0], c[1])) &&
      ConditionsHold(wordsByRoot, Stage4Conditions(c[0], c[1], c[2])) by {
      forall c: seq<WordByRoot> | c in r
        ensures Elems(c) <= Elems(wordsByRoot) && DistinctRoots(c)
        ensures ConditionsHold(wordsByRoot, Stage2Conditions(c[0]))
        ensures ConditionsHold(wordsByRoot, Stage3Conditions(c[0], c[1]))
        ensures ConditionsHold(wordsByRoot, Stage4Conditions(c[0], c[1], c[2]))
      {
        Stage2Picks(wordsByRoot, c[0], c[1]);
        Stage3Picks(wordsByRoot, c[0], c[1], c[2]);
        Stage4Picks(wordsByRoot, c[0], c[1], c[2], c[3]);
        FourDistinctPicks(wordsByRoot, c);
      }
    }
    r
  }

  /** index.ts:191-261, returning what the source only logs. */
  method FindRootCombinations(words: seq<string>) returns (validCombinations: seq<seq<WordByRoot>>)
    ensures validCombinations == Combinations(RootIndex.RootIndex(words))
    ensures forall c: seq<WordByRoot> :: c in validCombinations ==>
      |c| == 4 && Elems(c) <= Elems(RootIndex.RootIndex(words)) && DistinctRoots(c)
  {
    var wordsByRoot := GetWordsByRoot(words);
    validCombinations := ExtendWithFirstRoots(wordsByRoot);
  }

  /** The loop over first roots (index.ts:194-258), starting from no combinations. */
  method ExtendWithFirstRoots(wordsByRoot: seq<WordByRoot>) returns (validCombinations: seq<seq<WordByRoot>>)
    ensures validCombinations == Combinations(wordsByRoot)
  {
    validCombinations := [];
    for i := 0 to |wordsByRoot|
      invariant validCombinations + SearchRoot1(wordsByRoot, wordsByRoot[i..]) == Combinations(wordsByRoot)
    {
      var root1 := wordsByRoot[i];
      var validRoots2 := ApplyRootConditions(wordsByRoot, [root1], [RootCondition([root1], 4)]);
      assert validRoots2 == ValidRoots2(wordsByRoot, root1);
      SearchRoot1Step(wordsByRoot, wordsByRoot, i);
      if |validRoots2| == 0 {
        break;
      }
      ghost var before := validCombinations;
      validCombinations := ExtendWithSecondRoots(wordsByRoot, root1, validRoots2, validCombinations);
      Associative(before, SearchRoot2(wordsByRoot, root1, validRoots2), SearchRoot1(wordsByRoot, wordsByRoot[i + 1..]));
    }
    assert wordsByRoot[|wordsByRoot|..] == [];
  }

  /** The loop over second roots (index.ts:211-257), pushing onto `pushed`. */
  method ExtendWithSecondRoots(wordsByRoot: seq<WordByRoot>, root1: WordByRoot, validRoots2: seq<WordByRoot>,
                               pushed: seq<seq<WordByRoot>>)
    returns (validCombinations: seq<seq<WordByRoot>>)
    ensures validCombinations == pushed + SearchRoot2(wordsByRoot, root1, validRoots2)
  {
    validCombinations := pushed;
    for j := 0 to |validRoots2|
      invariant validCombinations + SearchRoot2(wordsByRoot, root1, validRoots2[j..]) ==
        pushed + SearchRoot2(wordsByRoot, root1, validRoots2)
    {
      var root2 := validRoots2[j];
      var validRoots3 := ApplyRootConditions(wordsByRoot, [root1, root2],
        [RootCondition([root1, root2], 2), RootCondition([root2], 1)]);
      SearchRoot2Step(wordsByRoot, root1, validRoots2, j);
      if |validRoots3| == 0 {
        break;
      }
      ghost var before := validCombinations;
      validCombinations := ExtendWithThirdRoots(wordsByRoot, root1, root2, validRoots3, validCombinations);
      Associative(before, SearchRoot3(wordsByRoot, root1, root2, validRoots3),
        SearchRoot2(wordsByRoot, root1, validRoots2[j + 1..]));
    }
    assert validRoots2[|validRoots2|..] == [];
  }

  /** The loop over third roots (index.ts:234-256), pushing onto `pushed`. */
  method ExtendWithThirdRoots(wordsByRoot: seq<WordByRoot>, root1: WordByRoot, root2: WordByRoot,
                              validRoots3: seq<WordByRoot>, pushed: seq<seq<WordByRoot>>)
    returns (validCombinations: seq<seq<WordByRoot>>)
    ensures validCombinations == pushed + SearchRoot3(wordsByRoot, root1, root2, validRoots3)
  {
    validCombinations := pushed;
    for k := 0 to |validRoots3|
      invariant validCombinations + SearchRoot3(wordsByRoot, root1, root2, validRoots3[k..]) ==
        pushed + SearchRoot3(wordsByRoot, root1, root2, validRoots3)
    {
      var root3 := validRoots3[k];
      var validRoots4 := ApplyRootConditions(wordsByRoot, [root1, root2, root3],
        [RootCondition([root1, root2, root3], 1),
         RootCondition([root1, root2], 1),
         RootCondition([root2, root3], 1),
         RootCondition([root1, root3], 1),
         RootCondition([root3], 1)]);
      SearchRoot3Step(wordsByRoot, root1, root2, validRoots3, k);
      if |validRoots4| == 0 {
        break;
      }
      ghost var before := validCombinations;
      validCombinations := ExtendWithFourthRoots(root1, root2, root3, validRoots4, validCombinations);
      Associative(before, Emit(root1, root2, root3, validRoots4),
        SearchRoot3(wordsByRoot, root1, root2, validRoots3[k + 1..]));
    }
    assert validRoots3[|validRoots3|..] == [];
  }

  /** The loop over fourth roots (index.ts:253-255), pushing onto `pushed`. */
  method ExtendWithFourthRoots(root1: WordByRoot, root2: WordByRoot, root3: WordByRoot,
                               validRoots4: seq<WordByRoot>, pushed: seq<seq<WordByRoot>>)
    returns (validCombinations: seq<seq<WordByRoot>>)
    ensures validCombinations == pushed + Emit(root1, root2, root3, validRoots4)
  {
    validCombinations := pushed;
    for l := 0 to |validRoots4|
      invariant validCombinations + Emit(root1, root2, root3, validRoots4[l..]) ==
        pushed + Emit(root1, root2, root3, validRoots4)
    {
      var combination := [root1, root2, root3, validRoots4[l]];
      EmitStep(root1, root2, root3, validRoots4, l);
      Associative(validCombinations, [combination], Emit(root1, root2, root3, validRoots4[l + 1..]));
      validCombinations := validCombinations + [combination];
    }
    assert validRoots4[|validRoots4|..] == [];
  }

  lemma Associative(a: seq<seq<WordByRoot>>, b: seq<seq<WordByRoot>>, c: seq<seq<WordByRoot>>)
    ensures (a + b) + c == a + (b + c)
  {
  }

  lemma SearchRoot1Step(wordsByRoot: seq<WordByRoot>, roots1: seq<WordByRoot>, i: nat)
    requires i < |roots1|
    ensures SearchRoot1(wordsByRoot, roots1[i..]) ==
      if |ValidRoots2(wordsByRoot, roots1[i])| == 0 then []
      else SearchRoot2(wordsByRoot, roots1[i], ValidRoots2(wordsByRoot, roots1[i])) + SearchRoot1(wordsByRoot, roots1[i + 1..])
  {
    assert roots1[i..][1..] == roots1[i + 1..];
  }

  lemma SearchRoot2Step(wordsByRoot: seq<WordByRoot>, root1: WordByRoot, roots2: seq<WordByRoot>, j: nat)
    requires j < |roots2|
    ensures SearchRoot2(wordsByRoot, root1, roots2[j..]) ==
      if |ValidRoots3(wordsByRoot, root1, roots2[j])| == 0 then []
      else (SearchRoot3(wordsByRoot, root1, roots2[j], ValidRoots3(wordsByRoot, root1, roots2[j])) +
            SearchRoot2(wordsByRoot, root1, roots2[j + 1..]))
  {
    assert roots2[j..][1..] == roots2[j + 1..];
  }

  lemma SearchRoot3Step(wordsByRoot: seq<WordByRoot>, root1: WordByRoot, root2: WordByRoot, roots3: seq<WordByRoot>, k: nat)
    requires k < |roots3|
    ensures SearchRoot3(wordsByRoot, root1, root2, roots3[k..]) ==
      if |ValidRoots4(wordsByRoot, root1, root2, roots3[k])| == 0 then []
      else (Emit(root1, root2, roots3[k], ValidRoots4(wordsByRoot, root1, root2, roots3[k])) +
            SearchRoot3(wordsByRoot, root1, root2, roots3[k + 1..]))
  {
    assert roots3[k..][1..] == roots3[k + 1..];
  }

  lemma EmitStep(root1: WordByRoot, root2: WordByRoot, root3: WordByRoot, roots4: seq<WordByRoot>, l: nat)
    requires l < |roots4|
    ensures Emit(root1, root2, root3, roots4[l..]) ==
      [[root1, root2, root3, roots4[l]]] + Emit(root1, root2, root3, roots4[l + 1..])
  {
    assert roots4[l..][1..] == roots4[l + 1..];
  }

  // ---------------------------------------------------------------------------
  // What every combination satisfies
  // ---------------------------------------------------------------------------

  lemma {:induction false} SearchRoot3Sound(wordsByRoot: seq<WordByRoot>, root1: WordByRoot, root2: WordByRoot, roots3: seq<WordByRoot>)
    ensures forall c: seq<WordByRoot> :: c in SearchRoot3(wordsByRoot, root1, root2, roots3) ==>
      |c| == 4 && c[0] == root1 && c[1] == root2 && c[2] in roots3 &&
      c[3] in ValidRoots4(wordsByRoot, root1, root2, c[2])
  {
    if roots3 != [] {
      SearchRoot3Sound(wordsByRoot, root1, root2, roots3[1..]);
    }
  }

  lemma {:induction false} SearchRoot2Sound(wordsByRoot: seq<WordByRoot>, root1: WordByRoot, roots2: seq<WordByRoot>)
    ensures forall c: seq<WordByRoot> :: c in SearchRoot2(wordsByRoot, root1, roots2) ==>
      |c| == 4 && c[0] == root1 && c[1] in roots2 &&
      c[2] in ValidRoots3(wordsByRoot, root1, c[1]) &&
      c[3] in ValidRoots4(wordsByRoot, root1, c[1], c[2])
  {
    if roots2 != [] {
      SearchRoot3Sound(wordsByRoot, root1, roots2[0], ValidRoots3(wordsByRoot, root1, roots2[0]));
      SearchRoot2Sound(wordsByRoot, root1, roots2[1..]);
    }
  }

  lemma {:induction false} SearchRoot1Sound(wordsByRoot: seq<WordByRoot>, roots1: seq<WordByRoot>)
    ensures forall c: seq<WordByRoot> :: c in SearchRoot1(wordsByRoot, roots1) ==>
      |c| == 4 && c[0] in roots1 &&
      c[1] in ValidRoots2(wordsByRoot, c[0]) &&
      c[2] in ValidRoots3(wordsByRoot, c[0], c[1]) &&
      c[3] in ValidRoots4(wordsByRoot, c[0], c[1], c[2])
  {
    if roots1 != [] {
      SearchRoot2Sound(wordsByRoot, roots1[0], ValidRoots2(wordsByRoot, roots1[0]));
      SearchRoot1Sound(wordsByRoot, roots1[1..]);
    }
  }

  lemma FourDistinctPicks(wordsByRoot: seq<WordByRoot>, c: seq<WordByRoot>)
    requires |c| == 4 && c[0] in wordsByRoot && c[1] in wordsByRoot && c[2] in wordsByRoot && c[3] in wordsByRoot
    requires c[1].root != c[0].root
    requires c[2].root != c[0].root && c[2].root != c[1].root
    requires c[3].root != c[0].root && c[3].root != c[1].root && c[3].root != c[2].root
    ensures Elems(c) <= Elems(wordsByRoot) && DistinctRoots(c)
  {
    forall x | x in Elems(c) ensures x in Elems(wordsByRoot) {
      var i :| 0 <= i < 4 && c[i] == x;
    }
  }

  lemma Stage2Picks(wordsByRoot: seq<WordByRoot>, root1: WordByRoot, root2: WordByRoot)
    requires root2 in ValidRoots2(wordsByRoot, root1)
    ensures root2 in wordsByRoot && root2.root != root1.root
    ensures ConditionsHold(wordsByRoot, Stage2Conditions(root1))
  {
    assert root1 in [root1];
  }

  lemma Stage3Picks(wordsByRoot: seq<WordByRoot>, root1: WordByRoot, root2: WordByRoot, root3: WordByRoot)
    requires root3 in ValidRoots3(wordsByRoot, root1, root2)
    ensures root3 in wordsByRoot && root3.root != root1.root && root3.root != root2.root
    ensures ConditionsHold(wordsByRoot, Stage3Conditions(root1, root2))
  {
    assert root1 in [root1, root2] && root2 in [root1, root2];
  }

  lemma Stage4Picks(wordsByRoot: seq<WordByRoot>, root1: WordByRoot, root2: WordByRoot, root3: WordByRoot, root4: WordByRoot)
    requires root4 in ValidRoots4(wordsByRoot, root1, root2, root3)
    ensures root4 in wordsByRoot && root4.root != root1.root && root4.root != root2.root && root4.root != root3.root
    ensures ConditionsHold(wordsByRoot, Stage4Conditions(root1, root2, root3))
  {
    assert root1 in [root1, root2, root3] && root2 in [root1, root2, root3] && root3 in [root1, root2, root3];
  }

  // ---------------------------------------------------------------------------
  // Which combinations are found
  // ---------------------------------------------------------------------------

  lemma {:induction false} EmitComplete(root1: WordByRoot, root2: WordByRoot, root3: WordByRoot, roots4: seq<WordByRoot>)
    ensures forall root4 :: root4 in roots4 ==> [root1, root2, root3, root4] in Emit(root1, root2, root3, roots4)
  {
    if roots4 != [] {
      EmitComplete(root1, root2, root3, roots4[1..]);
      assert roots4 == [roots4[0]] + roots4[1..];
    }
  }

  lemma {:induction false} SearchRoot3Complete(wordsByRoot: seq<WordByRoot>, root1: WordByRoot, root2: WordByRoot, roots3: seq<WordByRoot>)
    requires forall root3 :: root3 in roots3 ==> ValidRoots4(wordsByRoot, root1, root2, root3) != []
    ensures forall root3, root4 :: root3 in roots3 && root4 in ValidRoots4(wordsByRoot, root1, root2, root3) ==>
      [root1, root2, root3, root4] in SearchRoot3(wordsByRoot, root1, root2, roots3)
  {
    if roots3 != [] {
      assert roots3 == [roots3[0]] + roots3[1..];
      EmitComplete(root1, root2, roots3[0], ValidRoots4(wordsByRoot, root1, root2, roots3[0]));
      SearchRoot3Complete(wordsByRoot, root1, root2, roots3[1..]);
    }
  }

  lemma {:induction false} SearchRoot2Complete(wordsByRoot: seq<WordByRoot>, root1: WordByRoot, roots2: seq<WordByRoot>)
    requires forall root2 :: root2 in roots2 ==> ValidRoots3(wordsByRoot, root1, root2) != []
    requires forall root2, root3 :: root2 in roots2 && root3 in ValidRoots3(wordsByRoot, root1, root2) ==>
      ValidRoots4(wordsByRoot, root1, root2, root3) != []
    ensures forall root2, root3, root4 ::
      root2 in roots2 && root3 in ValidRoots3(wordsByRoot, root1, root2) &&
      root4 in ValidRoots4(wordsByRoot, root1, root2, root3) ==>
      [root1, root2, root3, root4] in SearchRoot2(wordsByRoot, root1, roots2)
  {
    if roots2 != [] {
      assert roots2 == [roots2[0]] + roots2[1..];
      SearchRoot3Complete(wordsByRoot, root1, roots2[0], ValidRoots3(wordsByRoot, root1, roots2[0]));
      SearchRoot2Complete(wordsByRoot, root1, roots2[1..]);
    }
  }

  lemma {:induction false} SearchRoot1Complete(wordsByRoot: seq<WordByRoot>, roots1: seq<WordByRoot>)
    requires forall root1 :: root1 in roots1 ==> ValidRoots2(wordsByRoot, root1) != []
    requires forall root1, root2 :: root1 in roots1 && root2 in ValidRoots2(wordsByRoot, root1) ==>
      ValidRoots3(wordsByRoot, root1, root2) != []
    requires forall root1, root2, root3 ::
      root1 in roots1 && root2 in ValidRoots2(wordsByRoot, root1) && root3 in ValidRoots3(wordsByRoot, root1, root2) ==>
      ValidRoots4(wordsByRoot, root1, root2, root3) != []
    ensures forall root1, root2, root3, root4 ::
      root1 in roots1 && root2 in ValidRoots2(wordsByRoot, root1) &&
      root3 in ValidRoots3(wordsByRoot, root1, root2) &&
      root4 in ValidRoots4(wordsByRoot, root1, root2, root3) ==>
      [root1, root2, root3, root4] in SearchRoot1(wordsByRoot, roots1)
  {
    if roots1 != [] {
      assert roots1 == [roots1[0]] + roots1[1..];
      SearchRoot2Complete(wordsByRoot, roots1[0], ValidRoots2(wordsByRoot, roots1[0]));
      SearchRoot1Complete(wordsByRoot, roots1[1..]);
    }
  }

  /**
   * When no stage of the search comes up empty, no loop breaks early and every
   * chain of stage-valid picks is found.
   */
  lemma CombinationsComplete(wordsByRoot: seq<WordByRoot>)
    requires forall root1 :: root1 in wordsByRoot ==> ValidRoots2(wordsByRoot, root1) != []
    requires forall root1, root2 :: root1 in wordsByRoot && root2 in ValidRoots2(wordsByRoot, root1) ==>
      ValidRoots3(wordsByRoot, root1, root2) != []
    requires forall root1, root2, root3 ::
      root1 in wordsByRoot && root2 in ValidRoots2(wordsByRoot, root1) && root3 in ValidRoots3(wordsByRoot, root1, root2) ==>
      ValidRoots4(wordsByRoot, root1, root2, root3) != []
    ensures forall c: seq<WordByRoot> ::
      (|c| == 4 && c[0] in wordsByRoot && c[1] in ValidRoots2(wordsByRoot, c[0]) &&
       c[2] in ValidRoots3(wordsByRoot, c[0], c[1]) && c[3] in ValidRoots4(wordsByRoot, c[0], c[1], c[2])) ==>
      c in Combinations(wordsByRoot)
  {
    SearchRoot1Complete(wordsByRoot, wordsByRoot);
    forall c: seq<WordByRoot> | |c| == 4 && c[0] in wordsByRoot && c[1] in ValidRoots2(wordsByRoot, c[0]) &&
      c[2] in ValidRoots3(wordsByRoot, c[0], c[1]) && c[3] in ValidRoots4(wordsByRoot, c[0], c[1], c[2])
      ensures c in Combinations(wordsByRoot)
    {
      FourElements(c);
    }
  }

  lemma FourElements(c: seq<WordByRoot>)
    requires |c| == 4
    ensures c == [c[0], c[1], c[2], c[3]]
  {
  }

  // ---------------------------------------------------------------------------
  // The early exits
  // ---------------------------------------------------------------------------

  /** A first root with no valid second root ends the outer loop: later first roots are never tried. */
  lemma {:induction false} SearchRoot1Break(wordsByRoot: seq<WordByRoot>, roots1: seq<WordByRoot>, i: nat)
    requires i < |roots1| && ValidRoots2(wordsByRoot, roots1[i]) == []
    ensures SearchRoot1(wordsByRoot, roots1) == SearchRoot1(wordsByRoot, roots1[..i])
  {
    if i > 0 {
      assert roots1[..i][1..] == roots1[1..][..i - 1];
      SearchRoot1Break(wordsByRoot, roots1[1..], i - 1);
    }
  }

  /** A second root with no valid third root ends the loop over second roots. */
  lemma {:induction false} SearchRoot2Break(wordsByRoot: seq<WordByRoot>, root1: WordByRoot, roots2: seq<WordByRoot>, j: nat)
    requires j < |roots2| && ValidRoots3(wordsByRoot, root1, roots2[j]) == []
    ensures SearchRoot2(wordsByRoot, root1, roots2) == SearchRoot2(wordsByRoot, root1, roots2[..j])
  {
    if j > 0 {
      assert roots2[..j][1..] == roots2[1..][..j - 1];
      SearchRoot2Break(wordsByRoot, root1, roots2[1..], j - 1);
    }
  }

  /** A third root with no valid fourth root ends the loop over third roots. */
  lemma {:induction false} SearchRoot3Break(wordsByRoot: seq<WordByRoot>, root1: WordByRoot, root2: WordByRoot, roots3: seq<WordByRoot>, k: nat)
    requires k < |roots3| && ValidRoots4(wordsByRoot, root1, root2, roots3[k]) == []
    ensures SearchRoot3(wordsByRoot, root1, root2, roots3) == SearchRoot3(wordsByRoot, root1, root2, roots3[..k])
  {
    if k > 0 {
      assert roots3[..k][1..] == roots3[1..][..k - 1];
      SearchRoot3Break(wordsByRoot, root1, root2, roots3[1..], k - 1);
    }
  }
}
