/**
 * splitVec: cut a key into the elements at the selected positions and the
 * rest, both in their original order.
 */
module Splits {
  import opened Selections

  /** Every entry of sel is a position of a sequence of length n. */
  predicate InRange(sel: seq<int>, n: int) {
    forall i | 0 <= i < |sel| :: 0 <= sel[i] < n
  }

  /** The elements of `from` at the positions sel, in the order of sel. */
  function Pick<T>(from: seq<T>, sel: seq<int>): (r: seq<T>)
    requires InRange(sel, |from|)
    ensures |r| == |sel|
  {
    seq(|sel|, j requires 0 <= j < |sel| => from[sel[j]])
  }

  /** The positions below n that sel does not hold, in increasing order. */
  function Comp(sel: seq<int>, n: nat): (r: seq<int>)
    ensures InRange(r, n)
  {
    if n == 0 then [] else Comp(sel, n - 1) + if n - 1 in sel then [] else [n - 1]
  }

  /** Comp lists the unselected positions, each once, in increasing order. */
  lemma {:induction false} CompSound(sel: seq<int>, n: nat)
    ensures Increasing(Comp(sel, n), 0, n)
    ensures forall x :: x in Comp(sel, n) <==> 0 <= x < n && x !in sel
  {
    if n > 0 {
      CompSound(sel, n - 1);
    }
  }

  /** The elements of `from` at the positions sel does not hold, in their order. */
  function Drop<T>(from: seq<T>, sel: seq<int>): (r: seq<T>) {
    Pick(from, Comp(sel, |from|))
  }

  // ---------------------------------------------------------------------
  // Building blocks
  // ---------------------------------------------------------------------

  lemma PickSnoc<T>(from: seq<T>, sel: seq<int>, x: int)
    requires InRange(sel, |from|) && 0 <= x < |from|
    ensures InRange(sel + [x], |from|) && Pick(from, sel + [x]) == Pick(from, sel) + [from[x]]
  {
  }

  /** The largest position of an increasing selection below n, if selected, is its last entry. */
  lemma LastSelected(sel: seq<int>, n: int)
    requires 1 <= n && Increasing(sel, 0, n) && n - 1 in sel
    ensures sel != [] && sel[|sel| - 1] == n - 1
    ensures Increasing(sel[..|sel| - 1], 0, n - 1)
    ensures sel == sel[..|sel| - 1] + [n - 1]
  {
    var i :| 0 <= i < |sel| && sel[i] == n - 1;
    assert sel[i] <= sel[|sel| - 1];
  }

  lemma NotSelected(sel: seq<int>, n: int)
    requires 1 <= n && Increasing(sel, 0, n) && n - 1 !in sel
    ensures Increasing(sel, 0, n - 1)
  {
    forall i | 0 <= i < |sel|
      ensures sel[i] < n - 1
    {
      assert sel[i] in sel;
    }
  }

  /** Comp depends only on which positions below n are selected. */
  lemma {:induction false} CompSame(a: seq<int>, b: seq<int>, n: nat)
    requires forall x | 0 <= x < n :: x in a <==> x in b
    ensures Comp(a, n) == Comp(b, n)
  {
    if n > 0 {
      CompSame(a, b, n - 1);
    }
  }

  // ---------------------------------------------------------------------
  // The partition
  // ---------------------------------------------------------------------

  /**
   * The selected and the unselected elements of the first n together are
   * exactly those n elements.
   */
  lemma {:induction false} PrefixCover<T>(s: seq<T>, sel: seq<int>, n: nat)
    requires n <= |s| && Increasing(sel, 0, n)
    ensures multiset(Pick(s, sel)) + multiset(Pick(s, Comp(sel, n))) == multiset(s[..n])
  {
    if n == 0 {
      FirstInRange(sel, 0, 0);
    } else {
      var m := n - 1;
      assert s[..n] == s[..m] + [s[m]];
      if m in sel {
        LastSelected(sel, n);
        var init := sel[..|sel| - 1];
        assert Comp(sel, n) == Comp(init, m) by {
          CompSame(sel, init, m);
        }
        PrefixCover(s, init, m);
        PickSnoc(s, init, m);
        CoverStep(Pick(s, init), Pick(s, Comp(init, m)), s[..m], s[m]);
      } else {
        NotSelected(sel, n);
        PrefixCover(s, sel, m);
        PickSnoc(s, Comp(sel, m), m);
        CoverStep(Pick(s, sel), Pick(s, Comp(sel, m)), s[..m], s[m]);
      }
    }
  }

  lemma FirstInRange(sel: seq<int>, lo: int, n: int)
    requires Increasing(sel, lo, n)
    ensures |sel| > 0 ==> lo <= sel[0] < n
  {
  }

  lemma CoverStep<T>(a: seq<T>, b: seq<T>, c: seq<T>, x: T)
    requires multiset(a) + multiset(b) == multiset(c)
    ensures multiset(a + [x]) + multiset(b) == multiset(c + [x])
    ensures multiset(a) + multiset(b + [x]) == multiset(c + [x])
  {
  }

  /** splitVec's two halves together hold exactly the elements of the key. */
  lemma SplitCover<T>(s: seq<T>, sel: seq<int>)
    requires Increasing(sel, 0, |s|)
    ensures multiset(Pick(s, sel)) + multiset(Drop(s, sel)) == multiset(s)
    ensures |Pick(s, sel)| == |sel| && |Drop(s, sel)| == |s| - |sel|
  {
    PrefixCover(s, sel, |s|);
    assert s[..|s|] == s;
    assert |multiset(Pick(s, sel))| + |multiset(Drop(s, sel))| == |multiset(s)|;
  }

  /** Non-decreasing, as the sorted keys are. */
  predicate NonDecreasing(s: seq<int>) {
    forall i, j | 0 <= i < j < |s| :: s[i] <= s[j]
  }

  /** Picking increasing positions of a sorted key keeps it sorted. */
  lemma PickSorted(s: seq<int>, sel: seq<int>)
    requires NonDecreasing(s) && Increasing(sel, 0, |s|)
    ensures NonDecreasing(Pick(s, sel))
  {
    var r := Pick(s, sel);
    forall i, j | 0 <= i < j < |r|
      ensures r[i] <= r[j]
    {
      assert sel[i] < sel[j];
    }
  }

  /** Both halves of a sorted key are sorted. */
  lemma SplitSorted(s: seq<int>, sel: seq<int>)
    requires NonDecreasing(s) && Increasing(sel, 0, |s|)
    ensures NonDecreasing(Pick(s, sel)) && NonDecreasing(Drop(s, sel))
  {
    PickSorted(s, sel);
    CompSound(sel, |s|);
    PickSorted(s, Comp(sel, |s|));
  }

  /** Picking twice is picking once, at the composed positions. */
  lemma PickPick<T>(s: seq<T>, a: seq<int>, b: seq<int>)
    requires InRange(a, |s|) && InRange(b, |a|)
    ensures InRange(Pick(a, b), |s|)
    ensures Pick(Pick(s, a), b) == Pick(s, Pick(a, b))
  {
  }

  /** Increasing positions of an increasing selection are an increasing selection. */
  lemma PickIncreasing(a: seq<int>, b: seq<int>, n: int)
    requires Increasing(a, 0, n) && Increasing(b, 0, |a|)
    ensures Increasing(Pick(a, b), 0, n)
  {
    var r := Pick(a, b);
    forall i, j | 0 <= i < j < |r|
      ensures r[i] < r[j]
    {
      assert b[i] < b[j];
    }
  }

  // ---------------------------------------------------------------------
  // The loop
  // ---------------------------------------------------------------------

  /**
   * splitVec(from, sel, k, s1, s2): one pass over `from`, with `index` the
   * next entry of sel still to be met. The caller passes an increasing
   * selection of positions of `from` (selectK's output), which the source's
   * else-branch relies on.
   */
  method SplitVec(from: seq<int>, sel: seq<int>) returns (s1: seq<int>, s2: seq<int>)
    requires Increasing(sel, 0, |from|)
    ensures s1 == Pick(from, sel) && s2 == Drop(from, sel)
  {
    var k := |sel|;
    var index := 0;
    s1, s2 := [], [];
    for i := 0 to |from|
      invariant 0 <= index <= k
      invariant forall j | 0 <= j < index :: sel[j] < i
      invariant forall j | index <= j < k :: sel[j] >= i
      invariant index < k ==> i <= sel[index] < |from|
      invariant s1 == Pick(from, sel[..index])
      invariant s2 == Pick(from, Comp(sel, i))
    {
      if index >= k || i < sel[index] {
        assert i !in sel by {
          assert forall j | 0 <= j < k :: sel[j] != i;
        }
        PickSnoc(from, Comp(sel, i), i);
        s2 := s2 + [from[i]];
      } else {
        assert sel[..index + 1] == sel[..index] + [i];
        assert Comp(sel, i + 1) == Comp(sel, i) by {
          assert i in sel;
        }
        PickSnoc(from, sel[..index], i);
        s1 := s1 + [from[i]];
        index := index + 1;
      }
    }
    assert index == k;
    assert sel[..k] == sel;
  }
}
