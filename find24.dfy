/**
 * The solver object (class Find24 in Find24/find24.hpp, find24.cpp and
 * find24.cc): sort the numbers, build the solution map bottom-up over
 * sub-multisets of increasing size, then look the full key and the target
 * value up.
 */
module Solver {
  import opened Rationals
  import opened Exprs
  import opened Nodes
  import opened Evaluation
  import opened Selections
  import opened Splits
  import opened Combination
  import opened Building
  import opened ValueBuilding
  import opened Rendering
  import Decimal
  import Trees

  // ---------------------------------------------------------------------
  // std::sort in the constructor
  // ---------------------------------------------------------------------

  /** x placed into a sorted sequence before the first larger element. */
  function Place(x: int, s: seq<int>): (r: seq<int>)
    requires NonDecreasing(s)
    ensures NonDecreasing(r) && multiset(r) == multiset(s) + multiset{x}
  {
    if s == [] || x <= s[0] then
      ConsSorted(x, s);
      [x] + s
    else
      assert s == [s[0]] + s[1..];
      var rest := Place(x, s[1..]);
      BoundedBelow(s[0], rest, s[1..], x);
      ConsSorted(s[0], rest);
      [s[0]] + rest
  }

  /** Every element of a rearrangement of s plus x is at least a lower bound of both. */
  lemma BoundedBelow(lo: int, r: seq<int>, s: seq<int>, x: int)
    requires multiset(r) == multiset(s) + multiset{x}
    requires lo <= x && forall i | 0 <= i < |s| :: lo <= s[i]
    ensures forall i | 0 <= i < |r| :: lo <= r[i]
  {
    forall i | 0 <= i < |r|
      ensures lo <= r[i]
    {
      assert r[i] in multiset(r);
      if r[i] != x {
        assert r[i] in multiset(s);
        var k :| 0 <= k < |s| && s[k] == r[i];
      }
    }
  }

  lemma ConsSorted(a: int, s: seq<int>)
    requires NonDecreasing(s) && forall i | 0 <= i < |s| :: a <= s[i]
    ensures NonDecreasing([a] + s)
  {
  }

  /** The numbers in ascending order, duplicates kept. */
  function Sort(s: seq<int>): (r: seq<int>)
    ensures NonDecreasing(r) && multiset(r) == multiset(s)
  {
    if s == [] then []
    else
      assert s == [s[0]] + s[1..];
      Place(s[0], Sort(s[1..]))
  }

  // ---------------------------------------------------------------------
  // Facts the builders rely on
  // ---------------------------------------------------------------------

  /** Every increasing selection of 1 up to size - 1 positions of elems has its key in the map. */
  ghost predicate Complete(keys: set<seq<int>>, elems: seq<int>, size: int) {
    forall c | Increasing(c, 0, |elems|) && 1 <= |c| < size :: Pick(elems, c) in keys
  }

  /** Every selection SelectK lists has m increasing positions below n. */
  lemma CombsAt(n: int, m: nat)
    ensures forall u | 0 <= u < |Combs(0, n, m)| :: |Combs(0, n, m)[u]| == m && Increasing(Combs(0, n, m)[u], 0, n)
  {
    CombsSound(0, n, m);
    forall u | 0 <= u < |Combs(0, n, m)|
      ensures |Combs(0, n, m)[u]| == m && Increasing(Combs(0, n, m)[u], 0, n)
    {
      assert Combs(0, n, m)[u] in Combs(0, n, m);
    }
  }

  /** The positions 0, 1, ..., n - 1. */
  function Whole(n: nat): (r: seq<int>)
    ensures |r| == n && Increasing(r, 0, n)
  {
    seq(n, i requires 0 <= i < n => i)
  }

  lemma PickWhole(s: seq<int>)
    ensures Pick(s, Whole(|s|)) == s
  {
  }

  /** The value map of a single number: its literal under its own value. */
  lemma LiteralGroups(x: int)
    ensures Groups(map[Rational(x, 1) := {Literal(x)}], Built([x]))
  {
    assert Value(Literal(x)) == Some(Rational(x, 1));
  }

  /** Recording a key whose value map groups what the key builds keeps the solution map consistent. */
  lemma SolutionInsert(solution: SolutionMap, key: seq<int>, value: ValExprMap)
    requires SolutionGroups(solution) && Groups(value, Built(key))
    ensures SolutionGroups(solution[key := value])
  {
  }

  /** Recording a new, non-empty key with such a value map only adds that key. */
  lemma Recording(solution: SolutionMap, key: seq<int>, value: ValExprMap)
    requires Consistent(solution) && Groups(value, Built(key)) && key != [] && key !in solution
    ensures Consistent(solution[key := value]) && Grows(solution, solution[key := value], {key})
  {
    SolutionInsert(solution, key, value);
    GrowsInsert(solution, key, value);
  }

  /**
   * Every key the solution map holds is non-empty and its value map groups
   * what the key builds.
   */
  ghost predicate Consistent(solution: SolutionMap) {
    SolutionGroups(solution) && [] !in solution
  }

  // ---------------------------------------------------------------------
  // SolutionBuilder's value map
  // ---------------------------------------------------------------------

  /** Every proper, non-empty sub-selection of key has its key in the map. */
  ghost predicate SubKeysIn(key: seq<int>, keys: set<seq<int>>) {
    forall c | Increasing(c, 0, |key|) && 1 <= |c| < |key| :: Pick(key, c) in keys
  }

  /** Both halves of a split into 1 up to |key| / 2 positions are already in the map. */
  lemma HalvesIn(key: seq<int>, sel: seq<int>, keys: set<seq<int>>)
    requires SubKeysIn(key, keys) && Increasing(sel, 0, |key|) && 1 <= |sel| <= |key| / 2
    ensures Pick(key, sel) in keys && Drop(key, sel) in keys
  {
    SplitCover(key, sel);
    CompSound(sel, |key|);
  }

  /** Valid splits followed by a prefix of valid splits are valid splits. */
  lemma HalfSplitsJoin(a: seq<seq<int>>, b: seq<seq<int>>, t: nat, n: nat)
    requires HalfSplits(a, n) && HalfSplits(b, n) && t <= |b|
    ensures HalfSplits(a + b[..t], n)
  {
    forall s | s in a + b[..t]
      ensures 1 <= |s| <= n / 2 && Increasing(s, 0, n)
    {
      if s !in a {
        assert s in b[..t];
        var u :| 0 <= u < t && b[..t][u] == s;
        assert b[u] == s;
      }
    }
  }

  lemma CombsHalf(n: nat, j: nat)
    requires 1 <= j <= n / 2
    ensures HalfSplits(Combs(0, n, j), n)
  {
    CombsSound(0, n, j);
  }

  /** Visiting one more split adds its combinations. */
  lemma BuiltFromSnoc(key: seq<int>, ss: seq<seq<int>>, sel: seq<int>)
    requires |key| >= 2 && HalfSplits(ss + [sel], |key|)
    ensures HalfSplits(ss, |key|)
    ensures Increasing(sel, 0, |key|)
    ensures BuiltFrom(key, ss + [sel]) == BuiltFrom(key, ss) + Combine(Built(Pick(key, sel)), Built(Drop(key, sel)))
  {
    assert sel in ss + [sel];
    assert (ss + [sel])[..|ss|] == ss;
    forall s | s in ss
      ensures s in ss + [sel]
    {
    }
  }

  /**
   * Visiting the split at position t of selectK(|key|, j): it is a valid
   * split whose halves are recorded, and it adds its combinations to what
   * the key builds so far.
   */
  lemma VisitStep(key: seq<int>, keys: set<seq<int>>, done: seq<seq<int>>, visited: seq<seq<int>>, t: nat)
    requires |key| >= 2 && SubKeysIn(key, keys)
    requires HalfSplits(done, |key|) && HalfSplits(visited, |key|) && t < |visited|
    ensures HalfSplits(done + visited[..t], |key|) && HalfSplits(done + visited[..t + 1], |key|)
    ensures Increasing(visited[t], 0, |key|)
    ensures Pick(key, visited[t]) in keys && Drop(key, visited[t]) in keys
    ensures BuiltFrom(key, done + visited[..t + 1]) ==
      BuiltFrom(key, done + visited[..t]) + Combine(Built(Pick(key, visited[t])), Built(Drop(key, visited[t])))
  {
    var sel := visited[t];
    HalfSplitsJoin(done, visited, t, |key|);
    HalfSplitsJoin(done, visited, t + 1, |key|);
    SnocSlice(done, visited, t);
    BuiltFromSnoc(key, done + visited[..t], sel);
    assert sel in visited;
    HalvesIn(key, sel, keys);
  }

  lemma SnocSlice<T>(a: seq<T>, b: seq<T>, t: nat)
    requires t < |b|
    ensures a + b[..t + 1] == (a + b[..t]) + [b[t]]
  {
    assert b[..t + 1] == b[..t] + [b[t]];
  }

  /** A key of two or more numbers builds what its splits into 1 up to |key| / 2 positions build. */
  lemma BuiltSplits(key: seq<int>, j: nat, value: ValExprMap)
    requires |key| >= 2 && j == |key| / 2 + 1 && HalfSplits(SplitChoices(|key|, j - 1), |key|)
    requires Groups(value, BuiltFrom(key, SplitChoices(|key|, j - 1)))
    ensures Groups(value, Built(key))
  {
  }

  /**
   * selectK(|key|, j, valueBuilder): visit every split into j positions,
   * in the order selectK lists them, adding each split's combinations to
   * the value map.
   */
  method VisitLevel(key: seq<int>, solution: SolutionMap, j: nat, value: ValExprMap) returns (value': ValExprMap)
    requires |key| >= 2 && 1 <= j <= |key| / 2
    requires SolutionGroups(solution) && SubKeysIn(key, solution.Keys)
    requires HalfSplits(SplitChoices(|key|, j - 1), |key|)
    requires Groups(value, BuiltFrom(key, SplitChoices(|key|, j - 1)))
    ensures HalfSplits(SplitChoices(|key|, j), |key|)
    ensures Groups(value', BuiltFrom(key, SplitChoices(|key|, j)))
  {
    var visited := SelectK(|key|, j);
    CombsHalf(|key|, j);
    value' := VisitAll(key, solution, SplitChoices(|key|, j - 1), visited, value);
  }

  /** The loop of selectK over the splits it lists, each handed to the ValueBuilder. */
  method VisitAll(key: seq<int>, solution: SolutionMap, ghost done: seq<seq<int>>, visited: seq<seq<int>>,
                  value: ValExprMap) returns (value': ValExprMap)
    requires |key| >= 2 && SolutionGroups(solution) && SubKeysIn(key, solution.Keys)
    requires HalfSplits(done, |key|) && HalfSplits(visited, |key|)
    requires Groups(value, BuiltFrom(key, done))
    ensures HalfSplits(done + visited, |key|)
    ensures Groups(value', BuiltFrom(key, done + visited))
  {
    assert done + visited[..0] == done;
    value' := value;
    for t := 0 to |visited|
      invariant HalfSplits(done + visited[..t], |key|)
      invariant Groups(value', BuiltFrom(key, done + visited[..t]))
    {
      value' := VisitNext(key, solution, done, visited, t, value');
    }
    assert visited[..|visited|] == visited;
  }

  /** One pass of selectK's loop: the ValueBuilder visits the split at position t. */
  method VisitNext(key: seq<int>, solution: SolutionMap, ghost done: seq<seq<int>>, visited: seq<seq<int>>, t: nat,
                   value: ValExprMap) returns (value': ValExprMap)
    requires |key| >= 2 && SolutionGroups(solution) && SubKeysIn(key, solution.Keys)
    requires HalfSplits(done, |key|) && HalfSplits(visited, |key|) && t < |visited|
    requires HalfSplits(done + visited[..t], |key|)
    requires Groups(value, BuiltFrom(key, done + visited[..t]))
    ensures HalfSplits(done + visited[..t + 1], |key|)
    ensures Groups(value', BuiltFrom(key, done + visited[..t + 1]))
  {
    VisitStep(key, solution.Keys, done, visited, t);
    value' := Visit(key, visited[t], solution, value, BuiltFrom(key, done + visited[..t]));
  }

  /**
   * The body of SolutionBuilder::operator() for a key not yet in the map:
   * run a ValueBuilder over every split into 1 up to |key| / 2 positions,
   * selectK(|key|, 1) first. The map is only read.
   */
  method BuildValue(elems: seq<int>, sel: seq<int>, key: seq<int>, solution: SolutionMap) returns (value: ValExprMap)
    requires Increasing(sel, 0, |elems|) && |sel| >= 2 && key == Pick(elems, sel)
    requires SolutionGroups(solution) && Complete(solution.Keys, elems, |sel|)
    ensures Groups(value, Built(key))
  {
    SubKeys(elems, sel, solution.Keys);
    value := map[];
    var j := 1;
    while j <= |key| / 2
      invariant 1 <= j <= |key| / 2 + 1
      invariant HalfSplits(SplitChoices(|key|, j - 1), |key|)
      invariant Groups(value, BuiltFrom(key, SplitChoices(|key|, j - 1)))
    {
      value := VisitLevel(key, solution, j, value);
      j := j + 1;
    }
    BuiltSplits(key, j, value);
  }

  /** A selection of elems' positions: its sub-selections select positions of elems too. */
  lemma SubKeys(elems: seq<int>, sel: seq<int>, keys: set<seq<int>>)
    requires Increasing(sel, 0, |elems|) && Complete(keys, elems, |sel|)
    ensures SubKeysIn(Pick(elems, sel), keys)
  {
    var key := Pick(elems, sel);
    forall c | Increasing(c, 0, |key|) && 1 <= |c| < |key|
      ensures Pick(key, c) in keys
    {
      PickPick(elems, sel, c);
      PickIncreasing(sel, c, |elems|);
    }
  }

  /** The numbers at the selected positions, in selection order. */
  method KeyOf(elems: seq<int>, sel: seq<int>) returns (key: seq<int>)
    requires InRange(sel, |elems|)
    ensures key == Pick(elems, sel)
  {
    key := [];
    for t := 0 to |sel|
      invariant key == Pick(elems, sel[..t])
    {
      PickSnoc(elems, sel[..t], sel[t]);
      assert sel[..t + 1] == sel[..t] + [sel[t]];
      key := key + [elems[sel[t]]];
    }
    assert sel[..|sel|] == sel;
  }

  /** m' holds the keys of m plus added, and every entry of m unchanged. */
  ghost predicate Grows<K, V>(m: map<K, V>, m': map<K, V>, added: set<K>) {
    m'.Keys == m.Keys + added && forall k | k in m :: m'[k] == m[k]
  }

  /** Inserting a key that is not there yet only adds it. */
  lemma GrowsInsert<K, V>(m: map<K, V>, k: K, v: V)
    requires k !in m
    ensures Grows(m, m[k := v], {k})
  {
  }

  /** A key that is already there is not added again. */
  lemma GrowsKept<K, V>(m: map<K, V>, k: K)
    requires k in m
    ensures Grows(m, m, {k})
  {
  }

  /** The keys of the single numbers of s. */
  function Singletons(s: seq<int>): (r: set<seq<int>>)
    ensures forall k | k in r :: |k| == 1 && k[0] in s
    ensures forall i | 0 <= i < |s| :: [s[i]] in r
  {
    set i | 0 <= i < |s| :: [s[i]]
  }

  lemma SingletonsSnoc(s: seq<int>, t: nat)
    requires t < |s|
    ensures Singletons(s[..t + 1]) == Singletons(s[..t]) + {[s[t]]}
  {
    assert s[..t + 1] == s[..t] + [s[t]];
  }

  /** The value map addLiterals records for a number: its value, holding its literal. */
  function LiteralEntry(x: int): (r: ValExprMap)
    ensures r.Keys == {Rational(x, 1)} && r[Rational(x, 1)] == {Literal(x)}
  {
    map[Rational(x, 1) := {Literal(x)}]
  }

  lemma AddLiteral(solution: SolutionMap, x: int)
    requires Consistent(solution)
    ensures Consistent(solution[[x] := LiteralEntry(x)])
  {
    LiteralGroups(x);
    SolutionInsert(solution, [x], LiteralEntry(x));
  }

  /** m' is m plus the literal entry of every number of s that m lacks. */
  ghost predicate LiteralsAdded(m: SolutionMap, m': SolutionMap, s: seq<int>) {
    Grows(m, m', Singletons(s)) &&
    forall k | k in m' && k !in m :: |k| == 1 && m'[k] == LiteralEntry(k[0])
  }

  /** k is the key of some non-empty selection of positions of elems. */
  ghost predicate Selectable(k: seq<int>, elems: seq<int>) {
    exists c :: Increasing(c, 0, |elems|) && 1 <= |c| && k == Pick(elems, c)
  }

  /**
   * The map only grew: every entry of m is kept as it was, and every key
   * added is the key of a selection of elems.
   */
  ghost predicate Extends(m: SolutionMap, m': SolutionMap, elems: seq<int>) {
    (forall k | k in m :: k in m' && m'[k] == m[k]) &&
    (forall k | k in m' && k !in m :: Selectable(k, elems))
  }

  lemma ExtendsTrans(m0: SolutionMap, m1: SolutionMap, m2: SolutionMap, elems: seq<int>)
    requires Extends(m0, m1, elems) && Extends(m1, m2, elems)
    ensures Extends(m0, m2, elems)
  {
  }

  /** The literal keys are the keys of one-position selections. */
  lemma {:induction false} LiteralsExtend(m: SolutionMap, m': SolutionMap, elems: seq<int>)
    requires LiteralsAdded(m, m', elems)
    ensures Extends(m, m', elems)
  {
    forall k | k in m' && k !in m
      ensures Selectable(k, elems)
    {
      assert k in Singletons(elems);
      var i :| 0 <= i < |elems| && k == [elems[i]];
      assert Increasing([i], 0, |elems|) && Pick(elems, [i]) == k;
    }
  }

  /** Recording the key of one selection extends the map. */
  lemma GrowsExtends(m: SolutionMap, m': SolutionMap, elems: seq<int>, sel: seq<int>)
    requires Increasing(sel, 0, |elems|) && 1 <= |sel|
    requires Grows(m, m', {Pick(elems, sel)})
    ensures Extends(m, m', elems)
  {
  }

  lemma GrowsNone<K, V>(m: map<K, V>)
    ensures Grows(m, m, {})
  {
  }

  /** One more number: its literal entry is added unless its key is already there. */
  lemma LiteralStep(m0: SolutionMap, m: SolutionMap, s: seq<int>, t: nat)
    requires t < |s| && LiteralsAdded(m0, m, s[..t])
    ensures LiteralsAdded(m0, if [s[t]] in m then m else m[[s[t]] := LiteralEntry(s[t])], s[..t + 1])
  {
    SingletonsSnoc(s, t);
  }

  /** Once every number has its key, every selection of one position has its key. */
  lemma LiteralsComplete(keys: set<seq<int>>, elems: seq<int>)
    requires Singletons(elems) <= keys
    ensures Complete(keys, elems, 2)
  {
    forall c | Increasing(c, 0, |elems|) && 1 <= |c| < 2
      ensures Pick(elems, c) in keys
    {
      assert Pick(elems, c) == [elems[c[0]]];
    }
  }

  /** The selection selectK(n, i) hands over at position t has i increasing positions. */
  lemma SelectionAt(n: int, i: nat, visited: seq<seq<int>>, t: nat)
    requires visited == Combs(0, n, i) && t < |visited|
    ensures |visited[t]| == i && Increasing(visited[t], 0, n)
  {
    CombsAt(n, i);
  }

  /** The keys of the first t selections of visited are recorded. */
  ghost predicate Listed(keys: set<seq<int>>, elems: seq<int>, visited: seq<seq<int>>, t: int) {
    forall u | 0 <= u < t && u < |visited| && InRange(visited[u], |elems|) :: Pick(elems, visited[u]) in keys
  }

  /** SolutionBuilder on selection t records its key and keeps every key recorded so far. */
  lemma ListedStep(keys: set<seq<int>>, keys': set<seq<int>>, elems: seq<int>, i: nat,
                   visited: seq<seq<int>>, t: nat)
    requires t < |visited| && InRange(visited[t], |elems|)
    requires Complete(keys, elems, i) && Listed(keys, elems, visited, t)
    requires keys' == keys + {Pick(elems, visited[t])}
    ensures Complete(keys', elems, i) && Listed(keys', elems, visited, t + 1)
  {
  }

  /** After selectK(|elems|, i) every selection of i positions has its key. */
  lemma LevelComplete(keys: set<seq<int>>, elems: seq<int>, i: nat, visited: seq<seq<int>>)
    requires visited == Combs(0, |elems|, i) && Complete(keys, elems, i)
    requires Listed(keys, elems, visited, |visited|)
    ensures Complete(keys, elems, i + 1)
  {
    forall c | Increasing(c, 0, |elems|) && 1 <= |c| < i + 1
      ensures Pick(elems, c) in keys
    {
      if |c| == i {
        CombsComplete(0, |elems|, i, c);
        var u :| 0 <= u < |visited| && visited[u] == c;
      }
    }
  }

  /** Past the last size, every non-empty selection has its key. */
  lemma CompleteDone(keys: set<seq<int>>, elems: seq<int>, i: int)
    requires Complete(keys, elems, i) && i > |elems|
    ensures Complete(keys, elems, |elems| + 1)
  {
  }

  // ---------------------------------------------------------------------
  // The object
  // ---------------------------------------------------------------------

  /** What run() ends with. */
  datatype Outcome =
    | Broken                  // the full key is missing from the solution map
    | NoSolution              // no expression of the full key has the target value
    | Found(exprs: set<Expr>) // every recorded expression of the target value

  /** The expressions over all the numbers, as the solution map records them, that evaluate to target. */
  ghost function Solutions(elems: seq<int>, target: int): set<Expr> {
    set e | e in Built(elems) && Value(e) == Some(Rational(target, 1))
  }

  class Find24 {
    var target: int
    var elems: seq<int>
    var solution: SolutionMap

    /** Find24(target, elems): keep the target and the numbers, sorted. */
    constructor(target: int, elems: seq<int>)
      ensures this.target == target && this.elems == Sort(elems) && solution == map[]
      ensures NonDecreasing(this.elems) && multiset(this.elems) == multiset(elems)
    {
      this.target := target;
      this.elems := Sort(elems);
      solution := map[];
    }

    /** addLiterals: the key [x] of every number not yet recorded, mapping its value to its literal. */
    method AddLiterals()
      modifies this
      requires Consistent(solution)
      ensures elems == old(elems) && target == old(target)
      ensures Consistent(solution) && LiteralsAdded(old(solution), solution, elems)
    {
      ghost var before := solution;
      var numbers := elems;
      GrowsNone(before);
      for t := 0 to |numbers|
        invariant elems == numbers && target == old(target)
        invariant Consistent(solution) && LiteralsAdded(before, solution, numbers[..t])
      {
        var recorded := solution;
        var elem := numbers[t];
        var key := [elem];
        LiteralStep(before, recorded, numbers, t);
        if key !in recorded {
          NewInteger(elem);
          var value := map[New(elem, 1) := {Literal(elem)}];
          assert value == LiteralEntry(elem);
          AddLiteral(recorded, elem);
          solution := recorded[key := value];
        }
      }
      assert numbers[..|numbers|] == numbers;
    }

    /**
     * SolutionBuilder::operator()(sel, k): the key of the selected
     * numbers; unless it is already recorded (a repeated number gives
     * equal keys), build its value map and record it.
     */
    method SolutionBuilder(sel: seq<int>)
      modifies this
      requires Increasing(sel, 0, |elems|) && |sel| >= 2
      requires Consistent(solution) && Complete(solution.Keys, elems, |sel|)
      ensures elems == old(elems) && target == old(target)
      ensures Consistent(solution)
      ensures Grows(old(solution), solution, {Pick(elems, sel)})
    {
      var numbers, recorded := elems, solution;
      var key := KeyOf(numbers, sel);
      if key !in recorded {
        var value := BuildValue(numbers, sel, key, recorded);
        Recording(recorded, key, value);
        solution := recorded[key := value];
      } else {
        GrowsKept(recorded, key);
      }
    }

    /**
     * buildSolutionMap: the literals, then every selection of 2, 3, ...,
     * |elems| positions in selectK order.
     */
    method BuildSolutionMap()
      modifies this
      requires Consistent(solution)
      ensures elems == old(elems) && target == old(target)
      ensures Consistent(solution) && Complete(solution.Keys, elems, |elems| + 1)
      ensures Extends(old(solution), solution, elems)
    {
      ghost var before := solution;
      AddLiterals();
      var numbers := elems;
      LiteralsComplete(solution.Keys, numbers);
      LiteralsExtend(before, solution, numbers);
      var i := 2;
      while i <= |numbers|
        invariant elems == numbers && target == old(target)
        invariant 2 <= i
        invariant Consistent(solution) && Complete(solution.Keys, numbers, i)
        invariant Extends(before, solution, numbers)
      {
        var visited := SelectK(|numbers|, i);
        for t := 0 to |visited|
          invariant elems == numbers && target == old(target)
          invariant Consistent(solution) && Complete(solution.Keys, numbers, i)
          invariant Listed(solution.Keys, numbers, visited, t)
          invariant Extends(before, solution, numbers)
        {
          SelectionAt(|numbers|, i, visited, t);
          ghost var keys := solution.Keys;
          ghost var prev := solution;
          SolutionBuilder(visited[t]);
          ListedStep(keys, solution.Keys, numbers, i, visited, t);
          GrowsExtends(prev, solution, numbers, visited[t]);
          ExtendsTrans(before, prev, solution, numbers);
        }
        LevelComplete(solution.Keys, numbers, i, visited);
        i := i + 1;
      }
      CompleteDone(solution.Keys, numbers, i);
    }

    /**
     * run(): build the solution map, look up the key of all the numbers
     * and in its value map the target value. The expressions found are
     * printed by the source; here they are returned.
     */
    method Run() returns (outcome: Outcome)
      modifies this
      requires Consistent(solution)
      ensures elems == old(elems) && target == old(target)
      ensures Consistent(solution) && Complete(solution.Keys, elems, |elems| + 1)
      ensures Extends(old(solution), solution, elems)
      ensures outcome == Broken <==> |elems| == 0
      ensures outcome == NoSolution <==> |elems| > 0 && Solutions(elems, target) == {}
      ensures outcome.Found? ==> outcome.exprs == Solutions(elems, target) && outcome.exprs != {}
    {
      BuildSolutionMap();
      if |elems| > 0 {
        PickWhole(elems);
      }
      if elems !in solution {
        outcome := Broken;
      } else {
        var value := solution[elems];
        NewInteger(target);
        var goal := New(target, 1);
        GroupsEntry(value, Built(elems), goal);
        outcome := if goal in value then Found(value[goal]) else NoSolution;
      }
    }
  }

  /**
   * What run() reports is sound: every expression found evaluates to the
   * target, is in canonical form and uses each number exactly as often as
   * it was given.
   */
  lemma SolutionsSound(elems: seq<int>, target: int)
    ensures forall e | e in Solutions(elems, target) ::
      Value(e) == Some(Rational(target, 1)) && Canonical(e) && Readable(e) &&
      forall v :: Uses(e, v) == multiset(elems)[v]
  {
    BuiltSound(elems);
  }

  /**
   * What run() reports is complete: every way of writing the target with
   * all the numbers, in any order and grouping, where no difference along
   * the way is negative and no divisor is zero, is among the answers in
   * the canonical form the constructors build.
   */
  lemma SolutionsComplete(elems: seq<int>, target: int, t: Trees.Tree)
    requires Trees.Admissible(t) && Trees.RealValue(t) == target as real
    requires multiset(Trees.Leaves(t)) == multiset(elems)
    ensures Trees.Canon(t) in Solutions(elems, target)
  {
    Trees.EvalExact(t);
    Trees.TreeBuilt(t, elems);
    NewInteger(target);
    EqualIffSameValue(Trees.Eval(t).value, Rational(target, 1));
  }

  /** Two different answers never print as the same line. */
  lemma SolutionsPrintApart(elems: seq<int>, target: int, a: Expr, b: Expr)
    requires a in Solutions(elems, target) && b in Solutions(elems, target) && a != b
    ensures Printable(a) && Printable(b) && Show(a, false) != Show(b, false)
  {
    SolutionsSound(elems, target);
    ShowInjective(a, b);
  }

  /** The line run() prints for an answer: its text, '=', and the text of its value. */
  function Line(e: Expr): (s: string)
    requires Printable(e) && Value(e).Some?
    ensures |s| > |Show(e, false)| && s[..|Show(e, false)|] == Show(e, false) && s[|Show(e, false)|] == '='
    ensures Rationals.Parse(s[|Show(e, false)| + 1..]) == Value(e).value
  {
    ToStringRoundTrip(Value(e).value);
    Show(e, false) + "=" + ToString(Value(e).value)
  }

  /** Every answer's line ends in "=" and the target, written as std::to_string writes it. */
  lemma SolutionLine(elems: seq<int>, target: int, e: Expr)
    requires e in Solutions(elems, target)
    ensures Printable(e) && Value(e).Some? && Line(e) == Show(e, false) + "=" + Decimal.IntToString(target)
  {
    SolutionsSound(elems, target);
    if target == 0 {
      assert Decimal.IntToString(0) == "0";
    }
  }
}
