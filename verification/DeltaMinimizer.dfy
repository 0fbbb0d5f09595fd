/// Delta debugging: minimising a list of changes under an arbitrary deterministic test.

module DeltaMinimizer {
  import opened Prelude

  type Test<!T> = seq<T> -> bool

  // ---------- Parts of a list ----------

  function Concat<T>(sets: seq<seq<T>>): seq<T> {
    if sets == [] then [] else sets[0] + Concat(sets[1..])
  }

  function Without<T>(s: seq<T>, i: nat): seq<T>
    requires i < |s|
  {
    s[..i] + s[i + 1..]
  }

  /** Partitions a list into one or two pieces. */
  function Split<T>(s: seq<T>): (r: seq<seq<T>>)
    ensures Concat(r) == s
    ensures if |s| >= 2 then |r| == 2 && |r[0]| == |s| / 2 && |r[1]| == |s| - |s| / 2 else r == [s]
  {
    var mid := |s| / 2;
    if mid == 0 then
      assert Concat([s]) == s;
      [s]
    else
      assert [s[..mid], s[mid..]][1..] == [s[mid..]];
      assert Concat([s[mid..]]) == s[mid..];
      [s[..mid], s[mid..]]
  }

  function Refine<T>(sets: seq<seq<T>>): seq<seq<T>> {
    if sets == [] then [] else Split(sets[0]) + Refine(sets[1..])
  }

  lemma {:induction false} ConcatAppend<T>(a: seq<seq<T>>, b: seq<seq<T>>)
    ensures Concat(a + b) == Concat(a) + Concat(b)
    decreases |a|
  {
    if a == [] {
      assert a + b == b;
    } else {
      ConcatAppend(a[1..], b);
      assert (a + b)[1..] == a[1..] + b;
    }
  }

  lemma {:induction false} ConcatAround<T>(sets: seq<seq<T>>, i: nat)
    requires i < |sets|
    ensures Concat(sets) == Concat(sets[..i]) + sets[i] + Concat(sets[i + 1..])
    ensures Concat(Without(sets, i)) == Concat(sets[..i]) + Concat(sets[i + 1..])
  {
    ConcatAppend(sets[..i], sets[i..]);
    assert sets == sets[..i] + sets[i..];
    assert sets[i..][0] == sets[i] && sets[i..][1..] == sets[i + 1..];
    ConcatAppend(sets[..i], sets[i + 1..]);
  }

  ghost predicate AllNonempty<T>(sets: seq<seq<T>>) {
    forall i :: 0 <= i < |sets| ==> sets[i] != []
  }

  /** `sets` is what `Reduced` may be given with `c`: the parts of `c` in order, none of them empty, and
      only one part when there is nothing to divide. */
  ghost predicate PartsOf<T>(sets: seq<seq<T>>, c: seq<T>) {
    Concat(sets) == c && if |sets| <= 1 then |c| <= 1 else AllNonempty(sets)
  }

  lemma {:induction false} NonemptyParts<T>(sets: seq<seq<T>>)
    requires AllNonempty(sets)
    ensures |sets| <= |Concat(sets)|
    decreases |sets|
  {
    if sets != [] {
      NonemptyParts(sets[1..]);
    }
  }

  lemma {:induction false} RefineParts<T>(sets: seq<seq<T>>)
    ensures Concat(Refine(sets)) == Concat(sets)
    ensures AllNonempty(sets) ==> AllNonempty(Refine(sets))
    ensures |Refine(sets)| >= |sets|
    ensures |Refine(sets)| == |sets| <==> forall i :: 0 <= i < |sets| ==> |sets[i]| <= 1
    decreases |sets|
  {
    if sets != [] {
      RefineParts(sets[1..]);
      ConcatAppend(Split(sets[0]), Refine(sets[1..]));
      assert forall i :: 1 <= i < |sets| ==> sets[i] == sets[1..][i - 1];
    }
  }

  lemma SplitParts<T>(s: seq<T>)
    ensures PartsOf(Split(s), s)
  {
  }

  lemma PartIsSmaller<T>(sets: seq<seq<T>>, i: nat)
    requires |sets| > 1 && AllNonempty(sets) && i < |sets|
    ensures |sets[i]| < |Concat(sets)|
    ensures |Concat(Without(sets, i))| < |Concat(sets)|
    ensures |sets| > 2 ==> PartsOf(Without(sets, i), Concat(Without(sets, i)))
  {
    ConcatAround(sets, i);
    NonemptyParts(sets[..i]);
    NonemptyParts(sets[i + 1..]);
  }

  // ---------- The algorithm without its cache ----------

  function Reduced<T>(test: Test<T>, c: seq<T>, sets: seq<seq<T>>): seq<T>
    requires PartsOf(sets, c)
    decreases |c|, |c| - |sets|, |sets| + 1
  {
    if |sets| <= 1 then c
    else
      match FoundFrom(test, c, sets, 0)
      case Some(r) => r
      case None =>
        RefineParts(sets);
        NonemptyParts(Refine(sets));
        if |Refine(sets)| == |sets| then c else Reduced(test, c, Refine(sets))
  }

  function FoundFrom<T>(test: Test<T>, c: seq<T>, sets: seq<seq<T>>, i: nat): Option<seq<T>>
    requires PartsOf(sets, c) && |sets| > 1 && i <= |sets|
    decreases |c|, |c| - |sets|, |sets| - i
  {
    if i == |sets| then None
    else
      PartIsSmaller(sets, i);
      SplitParts(sets[i]);
      NonemptyParts(sets);
      var complement := Concat(Without(sets, i));
      if test(sets[i]) then Some(Reduced(test, sets[i], Split(sets[i])))
      else if |sets| > 2 && test(complement) then Some(Reduced(test, complement, Without(sets, i)))
      else FoundFrom(test, c, sets, i + 1)
  }

  datatype Outcome<T> = InitialTestFails | Minimized(changes: seq<T>)

  function Minimize<T>(test: Test<T>, changes: seq<T>, force: bool): Outcome<T> {
    if !force && !test(changes) then InitialTestFails
    else if test([]) then Minimized([])
    else
      SplitParts(changes);
      Minimized(Reduced(test, changes, Split(changes)))
  }

  // ---------- Subsequences ----------

  /** `a` is `s` with some elements dropped. */
  ghost predicate Subsequence<T>(a: seq<T>, s: seq<T>)
    decreases |s|
  {
    a == [] ||
    (s != [] && ((a[0] == s[0] && Subsequence(a[1..], s[1..])) || Subsequence(a, s[1..])))
  }

  lemma {:induction false} SubsequenceOfItself<T>(s: seq<T>)
    ensures Subsequence(s, s)
    decreases |s|
  {
    if s != [] {
      SubsequenceOfItself(s[1..]);
    }
  }

  lemma {:induction false} SubsequenceChain<T>(a: seq<T>, b: seq<T>, s: seq<T>)
    requires Subsequence(a, b) && Subsequence(b, s)
    ensures Subsequence(a, s)
    decreases |s|
  {
    if a != [] {
      if b[0] == s[0] && Subsequence(b[1..], s[1..]) {
        if a[0] == b[0] && Subsequence(a[1..], b[1..]) {
          SubsequenceChain(a[1..], b[1..], s[1..]);
        } else {
          SubsequenceChain(a, b[1..], s[1..]);
        }
      } else {
        SubsequenceChain(a, b, s[1..]);
      }
    }
  }

  lemma {:induction false} SubsequenceJoin<T>(a: seq<T>, s: seq<T>, b: seq<T>, t: seq<T>)
    requires Subsequence(a, s) && Subsequence(b, t)
    ensures Subsequence(a + b, s + t)
    decreases |s|
  {
    if s == [] {
      assert a + b == b && s + t == t;
    } else {
      assert (s + t)[1..] == s[1..] + t;
      if a != [] && a[0] == s[0] && Subsequence(a[1..], s[1..]) {
        SubsequenceJoin(a[1..], s[1..], b, t);
        assert (a + b)[1..] == a[1..] + b;
      } else {
        SubsequenceJoin(a, s[1..], b, t);
      }
    }
  }

  lemma PartsAreSubsequences<T>(sets: seq<seq<T>>, i: nat)
    requires i < |sets|
    ensures Subsequence(sets[i], Concat(sets))
    ensures Subsequence(Concat(Without(sets, i)), Concat(sets))
  {
    ConcatAround(sets, i);
    MiddleAndEnds(Concat(sets[..i]), sets[i], Concat(sets[i + 1..]));
  }

  lemma MiddleAndEnds<T>(before: seq<T>, middle: seq<T>, after: seq<T>)
    ensures Subsequence(middle, before + middle + after)
    ensures Subsequence(before + after, before + middle + after)
  {
    SubsequenceOfItself(before);
    SubsequenceOfItself(middle);
    SubsequenceOfItself(after);
    SubsequenceJoin([], before, middle, middle);
    SubsequenceJoin([] + middle, before + middle, [], after);
    assert [] + middle + [] == middle;
    SubsequenceJoin(before, before, [], middle);
    SubsequenceJoin(before + [], before + middle, after, after);
    assert before + [] + after == before + after;
  }

  function Elements<T>(s: seq<T>): set<T> {
    set x | x in s
  }

  lemma {:induction false} SubsequenceElements<T>(a: seq<T>, s: seq<T>)
    requires Subsequence(a, s)
    ensures forall x :: x in a ==> x in s
    decreases |s|
  {
    if a != [] {
      if a[0] == s[0] && Subsequence(a[1..], s[1..]) {
        SubsequenceElements(a[1..], s[1..]);
        assert a == [a[0]] + a[1..];
      } else {
        SubsequenceElements(a, s[1..]);
      }
    }
  }

  /** A subsequence of a list without repetitions is determined by its elements: this is why failures
      may be remembered by set. */
  lemma {:induction false} SameElementsSameList<T>(a: seq<T>, b: seq<T>, s: seq<T>)
    requires NoRepeats(s) && Subsequence(a, s) && Subsequence(b, s) && Elements(a) == Elements(b)
    ensures a == b
    decreases |s|
  {
    NoElements(a);
    NoElements(b);
    if a != [] && b != [] {
      StartsOrSkips(a, s);
      StartsOrSkips(b, s);
      assert s[0] in a <==> s[0] in Elements(a);
      assert s[0] in b <==> s[0] in Elements(b);
      if s[0] in a {
        RestElements(a, s);
        RestElements(b, s);
        SameElementsSameList(a[1..], b[1..], s[1..]);
        assert a == [a[0]] + a[1..] && b == [b[0]] + b[1..];
      } else {
        SameElementsSameList(a, b, s[1..]);
      }
    }
  }

  lemma NoElements<T>(a: seq<T>)
    ensures Elements(a) == {} <==> a == []
  {
    if a != [] {
      assert a[0] in Elements(a);
    }
  }

  lemma StartsOrSkips<T>(a: seq<T>, s: seq<T>)
    requires NoRepeats(s) && a != [] && Subsequence(a, s)
    ensures if s[0] in a then a[0] == s[0] && Subsequence(a[1..], s[1..]) else Subsequence(a, s[1..])
  {
    if !(a[0] == s[0] && Subsequence(a[1..], s[1..])) {
      SubsequenceElements(a, s[1..]);
      assert s[0] !in s[1..];
    }
  }

  lemma RestElements<T>(a: seq<T>, s: seq<T>)
    requires NoRepeats(s) && a != [] && s != [] && a[0] == s[0] && Subsequence(a[1..], s[1..])
    ensures Elements(a[1..]) == Elements(a) - {s[0]}
  {
    SubsequenceElements(a[1..], s[1..]);
    assert s[0] !in s[1..];
    assert a == [a[0]] + a[1..];
  }

  // ---------- What the result means ----------

  /** Dropping any single element makes the test fail. */
  ghost predicate OneMinimal<T>(test: Test<T>, r: seq<T>) {
    forall k :: 0 <= k < |r| ==> !test(Without(r, k))
  }

  /** The result passes if the input did, is a subsequence of it, and is 1-minimal. */
  ghost predicate GoodResult<T>(test: Test<T>, c: seq<T>, r: seq<T>) {
    Subsequence(r, c) && (r == c || test(r)) && OneMinimal(test, r)
  }

  lemma {:induction false} DeltaIsGood<T>(test: Test<T>, c: seq<T>, sets: seq<seq<T>>)
    requires PartsOf(sets, c) && !test([])
    ensures GoodResult(test, c, Reduced(test, c, sets))
    decreases |c|, |c| - |sets|, |sets| + 1
  {
    SubsequenceOfItself(c);
    if |sets| <= 1 {
      assert forall k :: 0 <= k < |c| ==> Without(c, k) == [];
    } else {
      SearchIsGood(test, c, sets, 0);
      if FoundFrom(test, c, sets, 0) == None {
        RefineParts(sets);
        NonemptyParts(Refine(sets));
        if |Refine(sets)| == |sets| {
          SinglesAreMinimal(test, c, sets);
        } else {
          DeltaIsGood(test, c, Refine(sets));
        }
      }
    }
  }

  lemma {:induction false} SearchIsGood<T>(test: Test<T>, c: seq<T>, sets: seq<seq<T>>, i: nat)
    requires PartsOf(sets, c) && |sets| > 1 && i <= |sets| && !test([])
    ensures var r := FoundFrom(test, c, sets, i);
      && (r.Some? ==> GoodResult(test, c, r.value))
      && (r.None? ==> forall j :: i <= j < |sets| ==>
            !test(sets[j]) && (|sets| > 2 ==> !test(Concat(Without(sets, j)))))
    decreases |c|, |c| - |sets|, |sets| - i
  {
    if i < |sets| {
      PartIsSmaller(sets, i);
      SplitParts(sets[i]);
      NonemptyParts(sets);
      PartsAreSubsequences(sets, i);
      var complement := Concat(Without(sets, i));
      if test(sets[i]) {
        DeltaIsGood(test, sets[i], Split(sets[i]));
        SubsequenceChain(Reduced(test, sets[i], Split(sets[i])), sets[i], c);
      } else if |sets| > 2 && test(complement) {
        DeltaIsGood(test, complement, Without(sets, i));
        SubsequenceChain(Reduced(test, complement, Without(sets, i)), complement, c);
      } else {
        SearchIsGood(test, c, sets, i + 1);
      }
    }
  }

  /** When every part has one element, the complements tried are the list with one element dropped. */
  lemma {:induction false} SinglesAreMinimal<T>(test: Test<T>, c: seq<T>, sets: seq<seq<T>>)
    requires PartsOf(sets, c) && |sets| > 1 && forall i :: 0 <= i < |sets| ==> |sets[i]| <= 1
    requires forall j :: 0 <= j < |sets| ==> !test(sets[j]) && (|sets| > 2 ==> !test(Concat(Without(sets, j))))
    ensures OneMinimal(test, c)
  {
    SinglesConcat(sets);
    forall k | 0 <= k < |c|
      ensures !test(Without(c, k))
    {
      WithoutSingle(c, sets, k);
    }
  }

  /** Dropping an element is dropping its part. */
  lemma WithoutSingle<T>(c: seq<T>, sets: seq<seq<T>>, k: nat)
    requires c == Concat(sets) && k < |sets| && forall i :: 0 <= i < |sets| ==> |sets[i]| == 1
    ensures k < |c| && Without(c, k) == Concat(Without(sets, k))
    ensures |sets| == 2 ==> Without(c, k) == sets[1 - k]
  {
    var fewer := Without(sets, k);
    SinglesConcat(sets);
    SinglesConcat(fewer);
    forall i | 0 <= i < |fewer|
      ensures Without(c, k)[i] == Concat(fewer)[i]
    {
      assert [Concat(fewer)[i]] == fewer[i] == sets[if i < k then i else i + 1];
    }
    assert Without(c, k) == Concat(fewer);
  }

  lemma {:induction false} SinglesConcat<T>(sets: seq<seq<T>>)
    requires forall i :: 0 <= i < |sets| ==> |sets[i]| == 1
    ensures |Concat(sets)| == |sets| && forall i :: 0 <= i < |sets| ==> [Concat(sets)[i]] == sets[i]
    decreases |sets|
  {
    if sets != [] {
      SinglesConcat(sets[1..]);
    }
  }

  /** For a test that passes on the input, the outcome passes, is a subsequence of the input, and is
      1-minimal; even when forced on a failing input it is 1-minimal. */
  lemma {:induction false} MinimizeIsGood<T>(test: Test<T>, changes: seq<T>, force: bool)
    ensures var r := Minimize(test, changes, force);
      && (r.InitialTestFails? <==> !force && !test(changes))
      && (r.Minimized? ==> GoodResult(test, changes, r.changes) && (test(changes) ==> test(r.changes)))
  {
    SplitParts(changes);
    if !test([]) {
      DeltaIsGood(test, changes, Split(changes));
    }
  }

  // ---------- How many tests are asked for ----------

  function ReducedCalls<T>(test: Test<T>, c: seq<T>, sets: seq<seq<T>>): nat
    requires PartsOf(sets, c)
    decreases |c|, |c| - |sets|, |sets| + 1
  {
    if |sets| <= 1 then 0
    else
      RefineParts(sets);
      NonemptyParts(Refine(sets));
      FoundCalls(test, c, sets, 0) +
      if FoundFrom(test, c, sets, 0).Some? || |Refine(sets)| == |sets| then 0
      else ReducedCalls(test, c, Refine(sets))
  }

  function FoundCalls<T>(test: Test<T>, c: seq<T>, sets: seq<seq<T>>, i: nat): nat
    requires PartsOf(sets, c) && |sets| > 1 && i <= |sets|
    decreases |c|, |c| - |sets|, |sets| - i
  {
    if i == |sets| then 0
    else
      PartIsSmaller(sets, i);
      SplitParts(sets[i]);
      NonemptyParts(sets);
      var complement := Concat(Without(sets, i));
      if test(sets[i]) then 1 + ReducedCalls(test, sets[i], Split(sets[i]))
      else if |sets| <= 2 then 1 + FoundCalls(test, c, sets, i + 1)
      else if test(complement) then 2 + ReducedCalls(test, complement, Without(sets, i))
      else 2 + FoundCalls(test, c, sets, i + 1)
  }

  function MinimizeCalls<T>(test: Test<T>, changes: seq<T>, force: bool): nat {
    if !force && !test(changes) then 1
    else
      SplitParts(changes);
      (if force then 0 else 1) + 1 + if test([]) then 0 else ReducedCalls(test, changes, Split(changes))
  }

  /** The sizes of the parts differ by at most one. */
  ghost predicate Balanced<T>(sets: seq<seq<T>>, size: nat) {
    size >= 1 && forall i :: 0 <= i < |sets| ==> size <= |sets[i]| <= size + 1
  }

  ghost predicate AllSingles<T>(sets: seq<seq<T>>) {
    forall i :: 0 <= i < |sets| ==> |sets[i]| == 1
  }

  /** What the searches that find nothing may still cost before the parts are single elements. */
  ghost function Slack<T>(n: nat, sets: seq<seq<T>>, size: nat): int {
    if |sets| <= 1 then 0
    else if size >= 2 then 6 * n - 2 * |sets|
    else if AllSingles(sets) then 2 * n
    else 4 * n
  }

  lemma {:induction false} BalancedSize<T>(sets: seq<seq<T>>, size: nat)
    requires Balanced(sets, size)
    ensures |sets| <= |Concat(sets)|
    ensures size >= 2 ==> 2 * |sets| <= |Concat(sets)|
    ensures sets != [] ==> |Concat(sets)| >= size
    decreases |sets|
  {
    if sets != [] {
      BalancedSize(sets[1..], size);
    }
  }

  lemma {:induction false} RefineBalanced<T>(sets: seq<seq<T>>, size: nat)
    requires Balanced(sets, size)
    ensures size >= 2 ==> Balanced(Refine(sets), size / 2) && |Refine(sets)| == 2 * |sets|
    ensures size == 1 ==> Balanced(Refine(sets), 1) && AllSingles(Refine(sets))
    decreases |sets|
  {
    if sets != [] {
      RefineBalanced(sets[1..], size);
    }
  }

  /** Going on with one part leaves enough. */
  lemma {:induction false} SubsetFits<T>(sets: seq<seq<T>>, i: nat, size: nat)
    requires Balanced(sets, size) && |sets| > 1 && i < |sets|
    ensures var n, part := |Concat(sets)|, sets[i];
      && |part| < n
      && (|part| >= 2 ==> Balanced(Split(part), |part| / 2))
      && Slack(|part|, Split(part), |part| / 2) <= Slack(n, sets, size)
  {
    PartFits(sets, i, size);
    HalvesFit(sets[i]);
    BalancedSize(sets, size);
  }

  lemma PartFits<T>(sets: seq<seq<T>>, i: nat, size: nat)
    requires Balanced(sets, size) && |sets| > 1 && i < |sets|
    ensures size <= |sets[i]| <= size + 1
    ensures |sets[i]| + size <= |Concat(sets)| && |sets[i]| + |sets| - 1 <= |Concat(sets)|
  {
    ConcatAround(sets, i);
    assert Balanced(Without(sets, i), size);
    BalancedSize(Without(sets, i), size);
  }

  lemma HalvesFit<T>(part: seq<T>)
    ensures |part| >= 2 ==> Balanced(Split(part), |part| / 2)
    ensures Slack(|part|, Split(part), |part| / 2) <= if |part| >= 4 then 6 * |part| - 4 else 4 * |part|
  {
  }

  /** Going on with the complement of one part leaves enough. */
  lemma {:induction false} ComplementFits<T>(sets: seq<seq<T>>, i: nat, size: nat)
    requires Balanced(sets, size) && |sets| > 2 && i < |sets|
    ensures var n, m := |Concat(sets)|, |Concat(Without(sets, i))|;
      && m < n
      && Balanced(Without(sets, i), size)
      && Slack(m, Without(sets, i), size) <= Slack(n, sets, size)
  {
    ConcatAround(sets, i);
    BalancedSize(sets, size);
    if AllSingles(sets) {
      assert AllSingles(Without(sets, i));
    }
  }

  lemma SmallerSquare(m: nat, n: nat)
    requires m < n
    ensures m * m + m + 2 * n <= n * n + n
  {
    assert m * m <= (n - 1) * (n - 1);
  }

  lemma {:induction false} ReducedCallsBound<T>(test: Test<T>, c: seq<T>, sets: seq<seq<T>>, size: nat)
    requires PartsOf(sets, c) && (|sets| > 1 ==> Balanced(sets, size))
    ensures ReducedCalls(test, c, sets) <= |c| * |c| + |c| + Slack(|c|, sets, size)
    decreases |c|, |c| - |sets|, |sets| + 1
  {
    if |sets| > 1 {
      BalancedSize(sets, size);
      FoundCallsBound(test, c, sets, 0, size);
      RefineParts(sets);
      NonemptyParts(Refine(sets));
      if FoundFrom(test, c, sets, 0).None? && |Refine(sets)| != |sets| {
        RefineBalanced(sets, size);
        ReducedCallsBound(test, c, Refine(sets), if size >= 2 then size / 2 else 1);
        if size == 1 {
          assert !AllSingles(sets);
        }
      }
    }
  }

  lemma {:induction false} FoundCallsBound<T>(test: Test<T>, c: seq<T>, sets: seq<seq<T>>, i: nat, size: nat)
    requires PartsOf(sets, c) && |sets| > 1 && i <= |sets| && Balanced(sets, size)
    ensures FoundCalls(test, c, sets, i) <= 2 * (|sets| - i) +
      if FoundFrom(test, c, sets, i).Some? then |c| * |c| + |c| + Slack(|c|, sets, size) - 2 * |sets| else 0
    decreases |c|, |c| - |sets|, |sets| - i
  {
    if i < |sets| {
      PartIsSmaller(sets, i);
      SplitParts(sets[i]);
      NonemptyParts(sets);
      var complement := Concat(Without(sets, i));
      if test(sets[i]) {
        SubsetFits(sets, i, size);
        ReducedCallsBound(test, sets[i], Split(sets[i]), |sets[i]| / 2);
        SmallerSquare(|sets[i]|, |c|);
      } else if |sets| > 2 && test(complement) {
        ComplementFits(sets, i, size);
        ReducedCallsBound(test, complement, Without(sets, i), size);
        SmallerSquare(|complement|, |c|);
      } else {
        FoundCallsBound(test, c, sets, i + 1, size);
      }
    }
  }

  /** Minimising n changes asks for at most n^2 + 7n + 2 test results, and never for more than 3n^2 + 3n + 2. */
  lemma {:induction false} MinimizeCallsBound<T>(test: Test<T>, changes: seq<T>, force: bool)
    ensures var n := |changes|; MinimizeCalls(test, changes, force) <= n * n + 7 * n + 2
    ensures var n := |changes|; MinimizeCalls(test, changes, force) <= 3 * n * n + 3 * n + 2
  {
    var n := |changes|;
    SplitParts(changes);
    ReducedCallsBound(test, changes, Split(changes), n / 2);
    if n >= 2 {
      AtLeastDouble(n);
    }
  }

  lemma AtLeastDouble(n: nat)
    requires n >= 2
    ensures n * n >= 2 * n && 3 * n * n == n * n + 2 * (n * n)
  {
    assert n * n == (n - 2) * n + 2 * n && (n - 2) * n >= 0;
  }

  // ---------- The algorithm with its cache ----------

  class DeltaAlgorithm<T(==,!new)> {
    const test: Test<T>
    /** The element sets of the lists that are known to fail. */
    var cache: set<set<T>>
    /** How many test results were asked for. */
    ghost var calls: nat

    constructor (test: Test<T>)
      ensures this.test == test && cache == {} && calls == 0
    {
      this.test := test;
      cache, calls := {}, 0;
    }

    /** What the cache says of a subsequence of `input` is what the test says. */
    ghost predicate Agrees(input: seq<T>)
      reads this
    {
      forall a :: Subsequence(a, input) && Elements(a) in cache ==> !test(a)
    }

    method GetTestResult(changes: seq<T>, ghost input: seq<T>) returns (r: bool)
      requires NoRepeats(input) && Subsequence(changes, input) && Agrees(input)
      modifies this
      ensures Agrees(input) && r == test(changes) && calls == old(calls) + 1
      ensures cache == if r then old(cache) else old(cache) + {Elements(changes)}
    {
      calls := calls + 1;
      var changeset := Elements(changes);
      if changeset in cache {
        assert cache == cache + {changeset};
        return false;
      }
      if test(changes) {
        return true;
      }
      forall a | Subsequence(a, input) && Elements(a) == changeset
        ensures a == changes
      {
        SameElementsSameList(a, changes, input);
      }
      cache := cache + {changeset};
      r := false;
    }

    method Run(changes: seq<T>, force: bool) returns (r: Outcome<T>)
      requires NoRepeats(changes) && Agrees(changes)
      modifies this
      ensures Agrees(changes) && r == Minimize(test, changes, force)
      ensures calls == old(calls) + MinimizeCalls(test, changes, force)
    {
      SubsequenceOfItself(changes);
      if !force {
        var initial := GetTestResult(changes, changes);
        if !initial {
          return InitialTestFails;
        }
      }
      var empty := GetTestResult([], changes);
      if empty {
        return Minimized([]);
      }
      SplitParts(changes);
      var reduced := Delta(changes, Split(changes), changes);
      r := Minimized(reduced);
    }

    method Delta(c: seq<T>, sets: seq<seq<T>>, ghost input: seq<T>) returns (r: seq<T>)
      requires PartsOf(sets, c) && NoRepeats(input) && Subsequence(c, input) && Agrees(input)
      modifies this
      ensures Agrees(input) && r == Reduced(test, c, sets)
      ensures calls == old(calls) + ReducedCalls(test, c, sets)
      decreases |c|, |c| - |sets|, |sets| + 1
    {
      if |sets| <= 1 {
        return c;
      }
      var res := Search(c, sets, input);
      if res.Some? {
        return res.value;
      }
      var refined := Refine(sets);
      RefineParts(sets);
      NonemptyParts(refined);
      if |refined| == |sets| {
        return c;
      }
      r := Delta(c, refined, input);
    }

    method Search(c: seq<T>, sets: seq<seq<T>>, ghost input: seq<T>) returns (r: Option<seq<T>>)
      requires PartsOf(sets, c) && |sets| > 1 && NoRepeats(input) && Subsequence(c, input) && Agrees(input)
      modifies this
      ensures Agrees(input) && r == FoundFrom(test, c, sets, 0)
      ensures calls == old(calls) + FoundCalls(test, c, sets, 0)
      decreases |c|, |c| - |sets|, |sets|
    {
      NonemptyParts(sets);
      for i := 0 to |sets|
        invariant Agrees(input)
        invariant FoundFrom(test, c, sets, i) == FoundFrom(test, c, sets, 0)
        invariant calls + FoundCalls(test, c, sets, i) == old(calls) + FoundCalls(test, c, sets, 0)
      {
        PartIsSmaller(sets, i);
        PartsAreSubsequences(sets, i);
        SubsequenceChain(sets[i], c, input);
        var passes := GetTestResult(sets[i], input);
        if passes {
          SplitParts(sets[i]);
          var reduced := Delta(sets[i], Split(sets[i]), input);
          return Some(reduced);
        }
        if |sets| > 2 {
          var complement := Concat(Without(sets, i));
          SubsequenceChain(complement, c, input);
          passes := GetTestResult(complement, input);
          if passes {
            var reduced := Delta(complement, Without(sets, i), input);
            return Some(reduced);
          }
        }
      }
      r := None;
    }
  }
}
