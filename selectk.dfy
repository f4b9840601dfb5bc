/**
 * selectK: visit every k-element subset of {0, ..., n-1} as an increasing
 * index array, in lexicographic order. The visitor callback of the original
 * becomes the returned sequence of visited selections.
 */
module Selections {
  import Collections

  /** An increasing sequence of indices drawn from [lo, n). */
  predicate Increasing(s: seq<int>, lo: int, n: int) {
    (forall i | 0 <= i < |s| :: lo <= s[i] < n) &&
    (forall i, j | 0 <= i < j < |s| :: s[i] < s[j])
  }

  /** Every sequence of `cs`, with `p` in front. */
  function Prefixed(p: seq<int>, cs: seq<seq<int>>): (r: seq<seq<int>>)
    ensures |r| == |cs|
  {
    seq(|cs|, i requires 0 <= i < |cs| => p + cs[i])
  }

  lemma PrefixedAt(p: seq<int>, cs: seq<seq<int>>, i: nat)
    requires i < |cs|
    ensures Prefixed(p, cs)[i] == p + cs[i]
  {
  }

  /**
   * All increasing m-element sequences drawn from [lo, n), in lexicographic
   * order: first those that start with lo, then those that do not.
   */
  function Combs(lo: int, n: int, m: nat): seq<seq<int>>
    decreases if lo < n then n - lo else 0, m
  {
    if m == 0 then [[]]
    else if lo >= n then []
    else Prefixed([lo], Combs(lo + 1, n, m - 1)) + Combs(lo + 1, n, m)
  }

  function Binomial(n: nat, m: nat): nat {
    if m == 0 then 1
    else if n == 0 then 0
    else Binomial(n - 1, m - 1) + Binomial(n - 1, m)
  }

  // ---------------------------------------------------------------------
  // What Combs lists
  // ---------------------------------------------------------------------

  lemma PrefixedConcat(p: seq<int>, a: seq<seq<int>>, b: seq<seq<int>>)
    ensures Prefixed(p, a + b) == Prefixed(p, a) + Prefixed(p, b)
  {
  }

  /** Every listed sequence has m elements, increasing, from [lo, n). */
  lemma {:induction false} CombsSound(lo: int, n: int, m: nat)
    ensures forall c | c in Combs(lo, n, m) :: |c| == m && Increasing(c, lo, n)
    decreases if lo < n then n - lo else 0, m
  {
    if m > 0 && lo < n {
      var a, b := Combs(lo + 1, n, m - 1), Combs(lo + 1, n, m);
      CombsSound(lo + 1, n, m - 1);
      CombsSound(lo + 1, n, m);
      SoundPrefixed(lo, n, m, a);
      SoundWeaken(lo, n, m, b);
      assert Combs(lo, n, m) == Prefixed([lo], a) + b;
    }
  }

  lemma SoundPrefixed(lo: int, n: int, m: nat, a: seq<seq<int>>)
    requires lo < n && 1 <= m
    requires forall c | c in a :: |c| == m - 1 && Increasing(c, lo + 1, n)
    ensures forall c | c in Prefixed([lo], a) :: |c| == m && Increasing(c, lo, n)
  {
    forall c | c in Prefixed([lo], a)
      ensures |c| == m && Increasing(c, lo, n)
    {
      var i :| 0 <= i < |a| && Prefixed([lo], a)[i] == c;
      PrefixedAt([lo], a, i);
      assert a[i] in a;
      IncreasingCons(lo, a[i], n);
    }
  }

  lemma SoundWeaken(lo: int, n: int, m: nat, b: seq<seq<int>>)
    requires forall c | c in b :: |c| == m && Increasing(c, lo + 1, n)
    ensures forall c | c in b :: |c| == m && Increasing(c, lo, n)
  {
    forall c | c in b
      ensures Increasing(c, lo, n)
    {
      IncreasingWeaken(c, lo, n);
    }
  }

  lemma IncreasingWeaken(c: seq<int>, lo: int, n: int)
    requires Increasing(c, lo + 1, n)
    ensures Increasing(c, lo, n)
  {
  }

  lemma IncreasingCons(x: int, c: seq<int>, n: int)
    requires x < n && Increasing(c, x + 1, n)
    ensures Increasing([x] + c, x, n)
  {
  }

  lemma IncreasingTail(c: seq<int>, lo: int, n: int)
    requires c != [] && Increasing(c, lo, n)
    ensures lo <= c[0] < n && Increasing(c[1..], c[0] + 1, n)
  {
  }

  /** Every increasing m-element sequence from [lo, n) is listed. */
  lemma {:induction false} CombsComplete(lo: int, n: int, m: nat, c: seq<int>)
    requires |c| == m && Increasing(c, lo, n)
    ensures c in Combs(lo, n, m)
    decreases if lo < n then n - lo else 0, m, 1
  {
    if m > 0 {
      IncreasingTail(c, lo, n);
      var a, b := Combs(lo + 1, n, m - 1), Combs(lo + 1, n, m);
      if c[0] == lo {
        CompleteHead(lo, n, m, c);
      } else {
        CompleteRest(lo, n, m, c);
      }
      CombsStep(lo, n, m);
      InConcat(c, Prefixed([lo], a), b);
    } else {
      assert c == [];
    }
  }

  /** A sequence that starts at lo is among those listed first. */
  lemma {:induction false} CompleteHead(lo: int, n: int, m: nat, c: seq<int>)
    requires 1 <= m && |c| == m && Increasing(c, lo, n) && c[0] == lo
    ensures lo < n && c in Prefixed([lo], Combs(lo + 1, n, m - 1))
    decreases if lo < n then n - lo else 0, m, 0
  {
    IncreasingTail(c, lo, n);
    CombsComplete(lo + 1, n, m - 1, c[1..]);
    InPrefixed([lo], Combs(lo + 1, n, m - 1), c[1..]);
    assert c == [lo] + c[1..];
  }

  /** A sequence that starts above lo is among those listed after. */
  lemma {:induction false} CompleteRest(lo: int, n: int, m: nat, c: seq<int>)
    requires 1 <= m && |c| == m && Increasing(c, lo, n) && c[0] != lo
    ensures lo < n && c in Combs(lo + 1, n, m)
    decreases if lo < n then n - lo else 0, m, 0
  {
    IncreasingTail(c, lo, n);
    IncreasingNext(c, lo, n);
    CombsComplete(lo + 1, n, m, c);
  }

  lemma InConcat<T>(x: T, a: seq<T>, b: seq<T>)
    ensures x in a + b <==> x in a || x in b
  {
  }

  lemma InPrefixed(p: seq<int>, cs: seq<seq<int>>, t: seq<int>)
    requires t in cs
    ensures p + t in Prefixed(p, cs)
  {
    var i :| 0 <= i < |cs| && cs[i] == t;
    assert Prefixed(p, cs)[i] == p + t;
  }

  lemma IncreasingNext(c: seq<int>, lo: int, n: int)
    requires c != [] && Increasing(c, lo, n) && c[0] != lo
    ensures Increasing(c, lo + 1, n)
  {
  }

  /** Strict lexicographic order on index sequences of equal length. */
  predicate LexLess(a: seq<int>, b: seq<int>) {
    exists i | 0 <= i < |a| && i < |b| :: a[..i] == b[..i] && a[i] < b[i]
  }

  /** Strictly increasing in lexicographic order. */
  predicate LexSorted(cs: seq<seq<int>>) {
    forall i, j | 0 <= i < j < |cs| :: LexLess(cs[i], cs[j])
  }

  /** The list is strictly increasing in lexicographic order, hence has no repeats. */
  lemma {:induction false} CombsOrdered(lo: int, n: int, m: nat)
    ensures LexSorted(Combs(lo, n, m))
    decreases if lo < n then n - lo else 0, m
  {
    if m > 0 && lo < n {
      var a, b := Combs(lo + 1, n, m - 1), Combs(lo + 1, n, m);
      CombsOrdered(lo + 1, n, m - 1);
      CombsOrdered(lo + 1, n, m);
      CombsSound(lo + 1, n, m);
      LexSortedJoin(lo, a, b);
    }
  }

  /** Sequences headed by lo, then sequences whose head exceeds lo: still sorted. */
  lemma LexSortedJoin(lo: int, a: seq<seq<int>>, b: seq<seq<int>>)
    requires LexSorted(a) && LexSorted(b)
    requires forall c | c in b :: c != [] && c[0] > lo
    ensures LexSorted(Prefixed([lo], a) + b)
  {
    var all := Prefixed([lo], a) + b;
    forall i, j | 0 <= i < j < |all|
      ensures LexLess(all[i], all[j])
    {
      if j < |a| {
        PrefixedLess(lo, a[i], a[j]);
      } else if i < |a| {
        assert b[j - |a|] in b;
        assert all[i][..0] == all[j][..0];
      } else {
        assert all[i] == b[i - |a|] && all[j] == b[j - |a|];
      }
    }
  }

  lemma PrefixedLess(x: int, a: seq<int>, b: seq<int>)
    requires LexLess(a, b)
    ensures LexLess([x] + a, [x] + b)
  {
    var i :| 0 <= i < |a| && i < |b| && a[..i] == b[..i] && a[i] < b[i];
    assert ([x] + a)[..i + 1] == [x] + a[..i];
    assert ([x] + b)[..i + 1] == [x] + b[..i];
  }

  /** There are C(n - lo, m) of them. */
  lemma {:induction false} CombsCount(lo: int, n: int, m: nat)
    requires lo <= n
    ensures |Combs(lo, n, m)| == Binomial(n - lo, m)
    decreases n - lo, m
  {
    if m > 0 && lo < n {
      CombsCount(lo + 1, n, m - 1);
      CombsCount(lo + 1, n, m);
    }
  }

  /** Too few indices left: nothing to list. */
  lemma {:induction false} CombsTooFew(lo: int, n: int, m: nat)
    requires 1 <= m && n - lo < m
    ensures Combs(lo, n, m) == []
    decreases if lo < n then n - lo else 0, m
  {
    if lo < n {
      CombsTooFew(lo + 1, n, m - 1);
      CombsTooFew(lo + 1, n, m);
    }
  }

  // ---------------------------------------------------------------------
  // The enumeration
  // ---------------------------------------------------------------------

  /**
   * What selectK still has to visit once it has settled the prefix p of a
   * k-element selection and is about to advance its last element: the
   * completions of p's own prefix whose next element exceeds p's last, then
   * what is left one level further up, and so on.
   */
  function Remaining(p: seq<int>, n: int, k: nat): seq<seq<int>>
    requires |p| <= k
    decreases |p|, 1
  {
    if p == [] then []
    else Pending(p[..|p| - 1], p[|p| - 1] + 1, n, k)
  }

  /**
   * What is still to be visited when the prefix q is settled and x is the
   * next candidate for the position after it.
   */
  function Pending(q: seq<int>, x: int, n: int, k: nat): seq<seq<int>>
    requires |q| < k
    decreases |q|, 2
  {
    Prefixed(q, Combs(x, n, k - |q|)) + Remaining(q, n, k)
  }

  /** Advancing the last element of p: the candidate after it is pending. */
  lemma RemainingLast(p: seq<int>, q: seq<int>, n: int, k: nat)
    requires 1 <= |p| <= k && q == p[..|p| - 1]
    ensures Remaining(p, n, k) == Pending(q, p[|p| - 1] + 1, n, k)
  {
  }

  /** Advancing the last element of p past what can still be completed ends that level. */
  lemma AdvanceExhausted(q: seq<int>, x: int, n: int, k: nat)
    requires |q| < k && x + (k - |q| - 1) >= n
    ensures Pending(q, x, n, k) == Remaining(q, n, k)
  {
    CombsTooFew(x, n, k - |q|);
  }

  /** Filling the next position with the candidate x: the listing seen one position further on. */
  lemma FillNext(q: seq<int>, x: int, n: int, k: nat)
    requires |q| + 1 < k && x < n
    ensures Pending(q, x, n, k) == Pending(q + [x], x + 1, n, k)
  {
    var m := k - |q|;
    var a, b := Combs(x + 1, n, m - 1), Combs(x + 1, n, m);
    var r := Remaining(q, n, k);
    assert Prefixed(q, Combs(x, n, m)) == Prefixed(q + [x], a) + Prefixed(q, b) by {
      CombsStep(x, n, m);
      PrefixedConcat(q, Prefixed([x], a), b);
      PrefixedTwice(q, x, a);
    }
    assert Remaining(q + [x], n, k) == Prefixed(q, b) + r by {
      assert (q + [x])[..|q|] == q;
    }
    Collections.ConcatAssoc(Prefixed(q + [x], a), Prefixed(q, b), r);
  }

  /** Combs, one step unfolded. */
  lemma CombsStep(x: int, n: int, m: nat)
    requires x < n && 1 <= m
    ensures Combs(x, n, m) == Prefixed([x], Combs(x + 1, n, m - 1)) + Combs(x + 1, n, m)
  {
  }

  lemma PrefixedTwice(p: seq<int>, x: int, a: seq<seq<int>>)
    ensures Prefixed(p, Prefixed([x], a)) == Prefixed(p + [x], a)
  {
    forall i | 0 <= i < |a|
      ensures Prefixed(p, Prefixed([x], a))[i] == Prefixed(p + [x], a)[i]
    {
      assert p + ([x] + a[i]) == (p + [x]) + a[i];
    }
  }

  /** At the last position: visit q + [x], then go on with the next candidate. */
  lemma VisitOne(q: seq<int>, x: int, n: int, k: nat)
    requires |q| + 1 == k && x < n
    ensures Pending(q, x, n, k) == [q + [x]] + Pending(q, x + 1, n, k)
  {
    var c := Combs(x + 1, n, 1);
    var e: seq<int> := [];
    assert Combs(x + 1, n, 0) == [e];
    assert Prefixed([x], [e]) == [[x]] by {
      assert [x] + e == [x];
      assert Prefixed([x], [e])[0] == [x] + e;
    }
    CombsStep(x, n, 1);
    PrefixedConcat(q, [[x]], c);
    assert Prefixed(q, [[x]]) == [q + [x]] by {
      assert Prefixed(q, [[x]])[0] == q + [x];
    }
    Collections.ConcatAssoc([q + [x]], Prefixed(q, c), Remaining(q, n, k));
  }

  /** The last position has run out: what remains is the next level up. */
  lemma LastDone(q: seq<int>, x: int, n: int, k: nat)
    requires |q| + 1 == k && x >= n
    ensures Pending(q, x, n, k) == Remaining(q, n, k)
  {
    CombsTooFew(x, n, 1);
  }

  /** The selections q + [y] for y = x, x + 1, ..., n - 1, in that order. */
  function LastRun(q: seq<int>, x: int, n: int): (r: seq<seq<int>>)
    ensures |r| == if x < n then n - x else 0
    decreases n - x
  {
    if x >= n then [] else [q + [x]] + LastRun(q, x + 1, n)
  }

  /** The last position's run, followed by the next level up, is what was pending. */
  lemma {:induction false} PendingLast(q: seq<int>, x: int, n: int, k: nat)
    requires |q| + 1 == k
    ensures Pending(q, x, n, k) == LastRun(q, x, n) + Remaining(q, n, k)
    decreases n - x
  {
    if x >= n {
      LastDone(q, x, n, k);
    } else {
      VisitOne(q, x, n, k);
      PendingLast(q, x + 1, n, k);
      Collections.ConcatAssoc([q + [x]], LastRun(q, x + 1, n), Remaining(q, n, k));
    }
  }

  /**
   * The do-while loop of selectK: visit the selection with every remaining
   * candidate at the last position, starting from one known to be below n.
   */
  method VisitLast(selection: array<int>, n: int, ghost q: seq<int>, ghost x: int) returns (emitted: seq<seq<int>>)
    requires selection.Length >= 1 && selection[..selection.Length - 1] == q
    requires selection[selection.Length - 1] == x && x < n
    modifies selection
    ensures selection[..selection.Length - 1] == q
    ensures emitted == LastRun(q, x, n) && emitted != []
  {
    var index := selection.Length - 1;
    ghost var y := x;
    emitted := [];
    // The source's do-while: the first candidate is known to be below n.
    while selection[index] < n
      invariant selection[..index] == q && selection[index] == y
      invariant emitted + LastRun(q, y, n) == LastRun(q, x, n)
      invariant emitted != [] || y < n
      decreases n - y
    {
      assert selection[..] == q + [y];
      Collections.ConcatAssoc(emitted, [q + [y]], LastRun(q, y + 1, n));
      emitted := emitted + [selection[..]];
      selection[index] := selection[index] + 1;
      assert selection[..index] == q;
      y := y + 1;
    }
  }

  /**
   * The for loop of selectK: give the positions after index consecutive
   * values, the smallest completion of the selection so far.
   */
  method Fill(selection: array<int>, index: int, n: int)
    requires 0 <= index < selection.Length && selection[index] + (selection.Length - index - 1) < n
    modifies selection
    ensures var k := selection.Length;
      selection[k - 1] < n &&
      Pending(old(selection[..index]), old(selection[index]), n, k) == Pending(selection[..k - 1], selection[k - 1], n, k)
  {
    var k := selection.Length;
    ghost var q := selection[..index];
    ghost var x := selection[index];
    for i := index + 1 to k
      invariant selection[..index] == q && selection[index] == x
      invariant forall j | index <= j < i :: selection[j] == x + (j - index)
      invariant Pending(q, x, n, k) == Pending(selection[..i - 1], selection[i - 1], n, k)
    {
      FillNext(selection[..i - 1], selection[i - 1], n, k);
      ghost var filled := selection[..i];
      assert filled == selection[..i - 1] + [selection[i - 1]];
      selection[i] := selection[i - 1] + 1;
      assert selection[..i] == filled;
    }
  }

  /** The initial state, -1 at position 0, still has everything to visit. */
  lemma RemainingStart(n: int, k: nat)
    requires 1 <= k
    ensures Remaining([-1], n, k) == Combs(0, n, k)
  {
    var e: seq<int> := [];
    var total := Combs(0, n, k);
    assert [-1][..0] == e;
    forall i | 0 <= i < |total|
      ensures Prefixed(e, total)[i] == total[i]
    {
      assert e + total[i] == total[i];
    }
  }

  /**
   * One round of selectK's outer loop: advance the element at index; if the
   * selection can no longer be completed, go back one level, otherwise fill in
   * the rest and visit every candidate for the last position.
   */
  method Advance(selection: array<int>, index: int, n: int, ghost p: seq<int>)
    returns (next: int, emitted: seq<seq<int>>, ghost p': seq<int>)
    requires 0 <= index < selection.Length && |p| == index + 1 && selection[..index + 1] == p
    modifies selection
    ensures -1 <= next < selection.Length && |p'| == next + 1 && selection[..next + 1] == p'
    ensures Remaining(p, n, selection.Length) == emitted + Remaining(p', n, selection.Length)
    ensures emitted != [] || next < index
  {
    var k := selection.Length;
    ghost var q := p[..index];
    RemainingLast(p, q, n, k);
    selection[index] := selection[index] + 1;
    ghost var x := selection[index];
    assert selection[..index] == q;
    var elemNeeded := k - index - 1;
    if selection[index] + elemNeeded >= n {
      AdvanceExhausted(q, x, n, k);
      next, emitted, p' := index - 1, [], q;
      return;
    }
    Fill(selection, index, n);
    ghost var settled := selection[..k - 1];
    ghost var last := selection[k - 1];
    emitted := VisitLast(selection, n, settled, last);
    PendingLast(settled, last, n, k);
    next, p' := k - 2, settled;
  }

  /**
   * selectK(n, k, op): the selections are visited in exactly the order of
   * Combs(0, n, k). The source declares an array of k entries and writes
   * entry 0, so k is at least one.
   */
  method SelectK(n: int, k: int) returns (visited: seq<seq<int>>)
    requires 1 <= k
    ensures visited == Combs(0, n, k)
  {
    var selection := new int[k];
    var index := 0;
    selection[0] := -1;
    visited := [];
    ghost var total := Combs(0, n, k);
    assert selection[..1] == [-1];
    RemainingStart(n, k);
    ghost var p := selection[..1];
    while index >= 0
      invariant selection.Length == k && -1 <= index < k
      invariant |p| == index + 1 && selection[..index + 1] == p
      invariant visited + Remaining(p, n, k) == total
      decreases |total| - |visited|, index + 1
    {
      var emitted;
      ghost var p';
      index, emitted, p' := Advance(selection, index, n, p);
      Collections.ConcatAssoc(visited, emitted, Remaining(p', n, k));
      visited := visited + emitted;
      p := p';
    }
    assert p == [] && visited + [] == visited;
  }
}
