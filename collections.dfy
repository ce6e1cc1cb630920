/**
 * The array operations the root index is built from, as pure functions on
 * sequences: Array.prototype.filter, map and toReversed, and lodash's uniq
 * and intersection.
 */
module Collections {

  /** The set of elements of a sequence. */
  function Elems<T>(s: seq<T>): set<T>
  {
    set x | x in s
  }

  /** No element occurs twice. */
  predicate NoDup<T(==)>(s: seq<T>)
  {
    forall i, j :: 0 <= i < j < |s| ==> s[i] != s[j]
  }

  /** `r` is obtained from `s` by deleting elements, keeping the order of the rest. */
  predicate IsSubsequence<T(==)>(r: seq<T>, s: seq<T>)
    decreases |s|
  {
    r == [] ||
    (s != [] && ((r[0] == s[0] && IsSubsequence(r[1..], s[1..])) || IsSubsequence(r, s[1..])))
  }

  lemma {:induction false} SubsequenceTransitive<T>(a: seq<T>, b: seq<T>, c: seq<T>)
    requires IsSubsequence(a, b) && IsSubsequence(b, c)
    ensures IsSubsequence(a, c)
    decreases |c|
  {
    if a != [] {
      if b[0] == c[0] && IsSubsequence(b[1..], c[1..]) {
        if a[0] == b[0] && IsSubsequence(a[1..], b[1..]) {
          SubsequenceTransitive(a[1..], b[1..], c[1..]);
        } else {
          SubsequenceTransitive(a, b[1..], c[1..]);
        }
      } else {
        SubsequenceTransitive(a, b, c[1..]);
      }
    }
  }

  /** Array.prototype.filter: the elements of `s` that satisfy `p`, in their order. */
  function Filter<T(==,!new)>(s: seq<T>, p: T -> bool): (r: seq<T>)
    ensures forall x :: x in r <==> x in s && p(x)
    ensures IsSubsequence(r, s)
  {
    if s == [] then []
    else
      assert s == [s[0]] + s[1..];
      var rest := Filter(s[1..], p);
      if p(s[0]) then
        assert ([s[0]] + rest)[1..] == rest;
        [s[0]] + rest
      else
        rest
  }

  lemma {:induction false} FilterConcat<T(!new)>(a: seq<T>, b: seq<T>, p: T -> bool)
    ensures Filter(a + b, p) == Filter(a, p) + Filter(b, p)
  {
    if a == [] {
      assert a + b == b;
    } else {
      assert (a + b)[0] == a[0];
      assert (a + b)[1..] == a[1..] + b;
      FilterConcat(a[1..], b, p);
      var head := if p(a[0]) then [a[0]] else [];
      calc {
        Filter(a + b, p);
        head + Filter(a[1..] + b, p);
        head + (Filter(a[1..], p) + Filter(b, p));
        (head + Filter(a[1..], p)) + Filter(b, p);
        Filter(a, p) + Filter(b, p);
      }
    }
  }

  /** A filter keeps every occurrence of an element that passes and none of one that fails. */
  lemma {:induction false} FilterMultiplicity<T(!new)>(s: seq<T>, p: T -> bool)
    ensures forall x :: multiset(Filter(s, p))[x] == if p(x) then multiset(s)[x] else 0
  {
    if s != [] {
      FilterMultiplicity(s[1..], p);
      assert s == [s[0]] + s[1..];
      assert multiset(s) == multiset{s[0]} + multiset(s[1..]);
      FilterCons(s, p);
    }
  }

  lemma FilterSingleton<T(!new)>(x: T, p: T -> bool)
    ensures Filter([x], p) == if p(x) then [x] else []
  {
    assert [x][1..] == [];
  }

  /** One step of a filter: the head of `s` is kept or dropped first. */
  lemma FilterCons<T(!new)>(s: seq<T>, p: T -> bool)
    requires s != []
    ensures Filter(s, p) == (if p(s[0]) then [s[0]] else []) + Filter(s[1..], p)
  {
  }

  /** A filter whose predicate holds of every element keeps everything. */
  lemma {:induction false} FilterAll<T(!new)>(s: seq<T>, p: T -> bool)
    requires forall x :: x in s ==> p(x)
    ensures Filter(s, p) == s
  {
    if s != [] {
      FilterAll(s[1..], p);
    }
  }

  /** A filter whose predicate holds of no element keeps nothing. */
  lemma {:induction false} FilterNone<T(!new)>(s: seq<T>, p: T -> bool)
    requires forall x :: x in s ==> !p(x)
    ensures Filter(s, p) == []
  {
    if s != [] {
      FilterNone(s[1..], p);
    }
  }

  /** Array.prototype.map. */
  function Map<T, U>(s: seq<T>, f: T -> U): (r: seq<U>)
    ensures |r| == |s|
    ensures forall i :: 0 <= i < |s| ==> r[i] == f(s[i])
  {
    seq(|s|, i requires 0 <= i < |s| => f(s[i]))
  }

  lemma MapConcat<T, U>(a: seq<T>, b: seq<T>, f: T -> U)
    ensures Map(a + b, f) == Map(a, f) + Map(b, f)
  {
  }

  /** One step of `s.filter(p).map(f)`: the head of `s` contributes first. */
  lemma MapFilterCons<T(!new), U>(s: seq<T>, p: T -> bool, f: T -> U)
    requires s != []
    ensures Map(Filter(s, p), f) == (if p(s[0]) then [f(s[0])] else []) + Map(Filter(s[1..], p), f)
  {
    var head := if p(s[0]) then [s[0]] else [];
    FilterCons(s, p);
    MapConcat(head, Filter(s[1..], p), f);
    assert Map(head, f) == if p(s[0]) then [f(s[0])] else [];
  }

  /** Array.prototype.toReversed. */
  function Reverse<T>(s: seq<T>): (r: seq<T>)
    ensures |r| == |s|
    ensures forall i :: 0 <= i < |s| ==> r[i] == s[|s| - 1 - i]
    ensures multiset(r) == multiset(s)
  {
    if s == [] then []
    else
      assert s == [s[0]] + s[1..];
      Reverse(s[1..]) + [s[0]]
  }

  /** Filtering commutes with reversal. */
  lemma {:induction false} FilterReverse<T(!new)>(s: seq<T>, p: T -> bool)
    ensures Filter(Reverse(s), p) == Reverse(Filter(s, p))
  {
    if s != [] {
      var rest := Filter(s[1..], p);
      FilterReverse(s[1..], p);
      FilterConcat(Reverse(s[1..]), [s[0]], p);
      assert [s[0]][1..] == [];
      assert Filter([s[0]], p) == if p(s[0]) then [s[0]] else [];
      if p(s[0]) {
        assert Filter(s, p) == [s[0]] + rest;
        assert ([s[0]] + rest)[1..] == rest;
        assert Reverse([s[0]] + rest) == Reverse(rest) + [s[0]];
      } else {
        assert Filter(s, p) == rest;
      }
    }
  }

  /** The position of the first occurrence of `x` in `s`. */
  function FirstIndex<T(==)>(s: seq<T>, x: T): (i: nat)
    requires x in s
    ensures i < |s| && s[i] == x && x !in s[..i]
  {
    if s[0] == x then 0
    else
      var i := 1 + FirstIndex(s[1..], x);
      assert s[..i] == [s[0]] + s[1..][..i - 1];
      i
  }

  lemma FirstIndexUnique<T>(s: seq<T>, x: T, k: nat)
    requires k < |s| && s[k] == x && x !in s[..k]
    ensures FirstIndex(s, x) == k
  {
  }

  /** Appending an element does not move the first occurrence of one already present. */
  lemma FirstIndexAppend<T>(s: seq<T>, y: T, x: T)
    requires x in s
    ensures FirstIndex(s + [y], x) == FirstIndex(s, x)
  {
    var i := FirstIndex(s, x);
    assert (s + [y])[..i] == s[..i];
    FirstIndexUnique(s + [y], x, i);
  }

  /** lodash uniq: the first occurrence of every element, in order. */
  function Uniq<T(==,!new)>(s: seq<T>): (r: seq<T>)
    ensures forall x :: x in r <==> x in s
    ensures NoDup(r)
  {
    if s == [] then []
    else
      assert s == s[..|s| - 1] + [s[|s| - 1]];
      var u := Uniq(s[..|s| - 1]);
      if s[|s| - 1] in u then u else u + [s[|s| - 1]]
  }

  /** The elements of `Uniq(s)` appear in the order of their first occurrences in `s`. */
  lemma {:induction false} UniqFirstOccurrenceOrder<T(!new)>(s: seq<T>)
    ensures forall i, j :: 0 <= i < j < |Uniq(s)| ==> FirstIndex(s, Uniq(s)[i]) < FirstIndex(s, Uniq(s)[j])
  {
    if s != [] {
      var s', y := s[..|s| - 1], s[|s| - 1];
      assert s == s' + [y];
      UniqFirstOccurrenceOrder(s');
      var u := Uniq(s');
      forall x | x in s'
        ensures FirstIndex(s, x) == FirstIndex(s', x)
      {
        FirstIndexAppend(s', y, x);
      }
      if y !in u {
        assert y !in s';
        assert s[..|s'|] == s';
        FirstIndexUnique(s, y, |s'|);
      }
    }
  }

  /**
   * Filtering keeps the relative order of first occurrences: an element that
   * occurs first no later than another in `s` does so in the filtered sequence too.
   */
  lemma {:induction false} FilterFirstIndexMonotone<T(!new)>(s: seq<T>, p: T -> bool, x: T, y: T)
    requires x in Filter(s, p) && y in Filter(s, p)
    ensures FirstIndex(s, x) <= FirstIndex(s, y) ==> FirstIndex(Filter(s, p), x) <= FirstIndex(Filter(s, p), y)
  {
    var f, rest := Filter(s, p), Filter(s[1..], p);
    assert s == [s[0]] + s[1..];
    if s[0] == x {
      assert f[0] == x;
    } else if s[0] != y {
      assert x in rest && y in rest;
      FilterFirstIndexMonotone(s[1..], p, x, y);
      if p(s[0]) {
        assert f == [s[0]] + rest && f[1..] == rest;
      }
    }
  }

  /** The first occurrences in `Uniq(Filter(s, p))` come in the order of their first occurrences in `s`. */
  lemma UniqFilterOrder<T(!new)>(s: seq<T>, p: T -> bool)
    ensures forall i, j :: 0 <= i < j < |Uniq(Filter(s, p))| ==>
      FirstIndex(s, Uniq(Filter(s, p))[i]) < FirstIndex(s, Uniq(Filter(s, p))[j])
  {
    var f := Filter(s, p);
    var u := Uniq(f);
    UniqFirstOccurrenceOrder(f);
    forall i, j | 0 <= i < j < |u| ensures FirstIndex(s, u[i]) < FirstIndex(s, u[j]) {
      assert u[i] in u && u[j] in u;
      FilterFirstIndexMonotone(s, p, u[j], u[i]);
    }
  }

  /** A sequence without duplicates has as many elements as its set. */
  lemma {:induction false} NoDupCard<T>(s: seq<T>)
    requires NoDup(s)
    ensures |Elems(s)| == |s|
  {
    if s != [] {
      NoDupCard(s[1..]);
      assert Elems(s) == {s[0]} + Elems(s[1..]);
      assert s[0] !in Elems(s[1..]);
    }
  }

  /** lodash intersection(a, b): the distinct elements of `a` that occur in `b`, in `a`'s order. */
  function Intersection<T(==,!new)>(a: seq<T>, b: seq<T>): (r: seq<T>)
    ensures forall x :: x in r <==> x in a && x in b
    ensures NoDup(r)
    ensures |r| == |Elems(a) * Elems(b)|
    ensures forall i, j :: 0 <= i < j < |r| ==> FirstIndex(a, r[i]) < FirstIndex(a, r[j])
  {
    var inB := x => x in b;
    var r := Uniq(Filter(a, inB));
    UniqFilterOrder(a, inB);
    NoDupCard(r);
    assert Elems(r) == Elems(a) * Elems(b);
    r
  }
}
