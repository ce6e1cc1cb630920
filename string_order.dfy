/**
 * The order that Array.prototype.sort uses on strings when no comparator is
 * given: character by character, a proper prefix before any extension of it.
 */
module StringOrder {

  /** `a` sorts no later than `b`. */
  predicate LexLeq(a: string, b: string)
  {
    |a| == 0 || (|b| > 0 && (a[0] < b[0] || (a[0] == b[0] && LexLeq(a[1..], b[1..]))))
  }

  lemma {:induction false} LexLeqTotal(a: string, b: string)
    ensures LexLeq(a, b) || LexLeq(b, a)
  {
    if |a| > 0 && |b| > 0 && a[0] == b[0] {
      LexLeqTotal(a[1..], b[1..]);
    }
  }

  lemma {:induction false} LexLeqAntisymmetric(a: string, b: string)
    requires LexLeq(a, b) && LexLeq(b, a)
    ensures a == b
  {
    if |a| > 0 && |b| > 0 {
      LexLeqAntisymmetric(a[1..], b[1..]);
      assert a == [a[0]] + a[1..] && b == [b[0]] + b[1..];
    }
  }

  lemma {:induction false} LexLeqTransitive(a: string, b: string, c: string)
    requires LexLeq(a, b) && LexLeq(b, c)
    ensures LexLeq(a, c)
  {
    if |a| > 0 && a[0] == b[0] && b[0] == c[0] {
      LexLeqTransitive(a[1..], b[1..], c[1..]);
    }
  }

  predicate SortedStrings(s: seq<string>)
  {
    forall i, j :: 0 <= i < j < |s| ==> LexLeq(s[i], s[j])
  }

  /** Inserts `x` into sorted `t` after every element that sorts no later than it. */
  function InsertString(t: seq<string>, x: string): (r: seq<string>)
    requires SortedStrings(t)
    ensures multiset(r) == multiset(t) + multiset{x}
    ensures SortedStrings(r)
  {
    if t == [] then [x]
    else
      var last := t[|t| - 1];
      assert t == t[..|t| - 1] + [last];
      if LexLeq(last, x) then
        InsertBelowLast(t, x);
        t + [x]
      else
        LexLeqTotal(last, x);
        var r := InsertString(t[..|t| - 1], x);
        BelowLast(t, r, x);
        r + [last]
  }

  /** Every element of sorted `t` sorts no later than `x` when its last element does. */
  lemma InsertBelowLast(t: seq<string>, x: string)
    requires SortedStrings(t) && t != [] && LexLeq(t[|t| - 1], x)
    ensures forall i :: 0 <= i < |t| ==> LexLeq(t[i], x)
  {
    forall i | 0 <= i < |t| - 1 ensures LexLeq(t[i], x) {
      LexLeqTransitive(t[i], t[|t| - 1], x);
    }
  }

  /** What is inserted below the last element of sorted `t` sorts no later than it. */
  lemma BelowLast(t: seq<string>, r: seq<string>, x: string)
    requires SortedStrings(t) && t != [] && LexLeq(x, t[|t| - 1])
    requires multiset(r) == multiset(t[..|t| - 1]) + multiset{x}
    ensures forall i :: 0 <= i < |r| ==> LexLeq(r[i], t[|t| - 1])
  {
    forall i | 0 <= i < |r| ensures LexLeq(r[i], t[|t| - 1]) {
      assert r[i] in multiset(r);
      if r[i] != x {
        assert r[i] in t[..|t| - 1];
      }
    }
  }

  /** `.sort()` on an array of strings. */
  function SortStrings(s: seq<string>): (r: seq<string>)
    ensures SortedStrings(r)
    ensures multiset(r) == multiset(s)
  {
    if s == [] then []
    else
      assert s == s[..|s| - 1] + [s[|s| - 1]];
      InsertString(SortStrings(s[..|s| - 1]), s[|s| - 1])
  }
}
