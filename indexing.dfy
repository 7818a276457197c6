/**
 * pandas boolean indexing (`df[mask]`, `df[~mask]`) on a sequence, with the
 * list of true positions as its reference definition.
 */
module Indexing {
  /** `~mask`. */
  function Not(mask: seq<bool>): (r: seq<bool>)
    ensures |r| == |mask|
    ensures forall i :: 0 <= i < |mask| ==> r[i] == !mask[i]
  {
    seq(|mask|, i requires 0 <= i < |mask| => !mask[i])
  }

  /** `s[mask]`: the elements whose mask entry is true, in their original order. */
  function Select<T>(s: seq<T>, mask: seq<bool>): (r: seq<T>)
    requires |mask| == |s|
    ensures |r| <= |s|
  {
    if |s| == 0 then []
    else Select(s[..|s| - 1], mask[..|s| - 1]) + (if mask[|s| - 1] then [s[|s| - 1]] else [])
  }

  /** The positions at which `mask` is true, ascending. */
  function TrueIndices(mask: seq<bool>): (r: seq<nat>)
    ensures forall k :: 0 <= k < |r| ==> r[k] < |mask| && mask[r[k]]
    ensures forall i :: 0 <= i < |mask| && mask[i] ==> i in r
    ensures forall k, l :: 0 <= k < l < |r| ==> r[k] < r[l]
  {
    if |mask| == 0 then []
    else TrueIndices(mask[..|mask| - 1]) + (if mask[|mask| - 1] then [|mask| - 1] else [])
  }

  /**
   * Boolean indexing keeps exactly the rows at the true positions, in
   * order and without repetition: the `k`-th selected row is row
   * `TrueIndices(mask)[k]`.
   */
  lemma {:induction false} SelectIsIndexed<T>(s: seq<T>, mask: seq<bool>)
    requires |mask| == |s|
    ensures |Select(s, mask)| == |TrueIndices(mask)|
    ensures forall k :: 0 <= k < |Select(s, mask)| ==> Select(s, mask)[k] == s[TrueIndices(mask)[k]]
  {
    if |s| > 0 {
      var n := |s| - 1;
      SelectIsIndexed(s[..n], mask[..n]);
      var a, t := Select(s[..n], mask[..n]), TrueIndices(mask[..n]);
      var last := if mask[n] then [s[n]] else [];
      var lastIndex: seq<nat> := if mask[n] then [n] else [];
      assert Select(s, mask) == a + last;
      assert TrueIndices(mask) == t + lastIndex;
      forall k | 0 <= k < |Select(s, mask)|
        ensures Select(s, mask)[k] == s[TrueIndices(mask)[k]]
      {
        if k < |a| {
          assert Select(s, mask)[k] == a[k] == s[..n][t[k]];
        }
      }
    }
  }

  /** An element is selected exactly when it sits at some position where the mask is true. */
  lemma SelectMembership<T>(s: seq<T>, mask: seq<bool>, x: T)
    requires |mask| == |s|
    ensures x in Select(s, mask) <==> exists i :: 0 <= i < |s| && mask[i] && s[i] == x
  {
    SelectIsIndexed(s, mask);
    var t := TrueIndices(mask);
    if x in Select(s, mask) {
      var k :| 0 <= k < |Select(s, mask)| && Select(s, mask)[k] == x;
      assert mask[t[k]] && s[t[k]] == x;
    }
    if exists i :: 0 <= i < |s| && mask[i] && s[i] == x {
      var i :| 0 <= i < |s| && mask[i] && s[i] == x;
      var k :| 0 <= k < |t| && t[k] == i;
      assert Select(s, mask)[k] == x;
    }
  }

  /** Two complementary masks split the sequence: no element is lost or copied. */
  lemma {:induction false} SelectComplementary<T>(s: seq<T>, mask: seq<bool>, mask': seq<bool>)
    requires |mask| == |s| && |mask'| == |s|
    requires forall i :: 0 <= i < |s| ==> mask'[i] == !mask[i]
    ensures multiset(Select(s, mask)) + multiset(Select(s, mask')) == multiset(s)
  {
    if |s| > 0 {
      var n := |s| - 1;
      SelectComplementary(s[..n], mask[..n], mask'[..n]);
      SelectLast(s, mask);
      SelectLast(s, mask');
      MultisetLast(s);
    }
  }

  /** The multiset of a non-empty sequence is that of its front plus its last element. */
  lemma MultisetLast<T>(s: seq<T>)
    requires |s| > 0
    ensures multiset(s) == multiset(s[..|s| - 1]) + multiset{s[|s| - 1]}
  {
    assert s == s[..|s| - 1] + [s[|s| - 1]];
  }

  /** Boolean indexing, unfolded once at the last element, as multisets. */
  lemma SelectLast<T>(s: seq<T>, mask: seq<bool>)
    requires |mask| == |s| > 0
    ensures multiset(Select(s, mask)) == multiset(Select(s[..|s| - 1], mask[..|s| - 1])) +
      (if mask[|s| - 1] then multiset{s[|s| - 1]} else multiset{})
  {
  }

  /** A mask and its negation split the sequence: sizes add up and no element is lost or copied. */
  lemma SelectSplit<T>(s: seq<T>, mask: seq<bool>)
    requires |mask| == |s|
    ensures |Select(s, mask)| + |Select(s, Not(mask))| == |s|
    ensures multiset(Select(s, mask)) + multiset(Select(s, Not(mask))) == multiset(s)
  {
    SelectComplementary(s, mask, Not(mask));
    assert |multiset(Select(s, mask))| == |Select(s, mask)|;
    assert |multiset(Select(s, Not(mask)))| == |Select(s, Not(mask))|;
    assert |multiset(s)| == |s|;
  }

  /** An all-false mask selects nothing. */
  lemma {:induction false} SelectNone<T>(s: seq<T>, mask: seq<bool>)
    requires |mask| == |s|
    requires forall i :: 0 <= i < |mask| ==> !mask[i]
    ensures Select(s, mask) == []
  {
    if |s| > 0 {
      SelectNone(s[..|s| - 1], mask[..|s| - 1]);
    }
  }

  /** An all-true mask selects everything. */
  lemma {:induction false} SelectAll<T>(s: seq<T>, mask: seq<bool>)
    requires |mask| == |s|
    requires forall i :: 0 <= i < |mask| ==> mask[i]
    ensures Select(s, mask) == s
  {
    if |s| > 0 {
      var n := |s| - 1;
      SelectAll(s[..n], mask[..n]);
      assert s == s[..n] + [s[n]];
    }
  }
}
