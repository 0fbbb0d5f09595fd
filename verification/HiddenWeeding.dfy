/// Removing hidden elements from a sequence while the test for "hidden" reads that same sequence.

module HiddenWeeding {

  /** `hides(x, y)`: x hides y. */
  type Hiding<!T> = (T, T) -> bool

  /** Among the elements of `s`, hiding is a strict partial order. */
  ghost predicate StrictOrderOn<T>(hides: Hiding<T>, s: seq<T>) {
    && (forall x :: x in s ==> !hides(x, x))
    && (forall x, y, z :: x in s && y in s && z in s && hides(x, y) && hides(y, z) ==> hides(x, z))
  }

  ghost predicate HiddenIn<T>(hides: Hiding<T>, s: seq<T>, y: T) {
    exists x :: x in s && hides(x, y)
  }

  /** The plain filter: the elements of `t`, in order, that nothing in `s` hides. */
  ghost function Survivors<T>(hides: Hiding<T>, s: seq<T>, t: seq<T>): (r: seq<T>)
    ensures |r| <= |t|
  {
    if t == [] then []
    else
      var front := Survivors(hides, s, t[..|t| - 1]);
      if HiddenIn(hides, s, t[|t| - 1]) then front else front + [t[|t| - 1]]
  }

  lemma {:induction false} SurvivorsMembers<T>(hides: Hiding<T>, s: seq<T>, t: seq<T>, x: T)
    ensures x in Survivors(hides, s, t) <==> x in t && !HiddenIn(hides, s, x)
    decreases |t|
  {
    if t != [] {
      SurvivorsMembers(hides, s, t[..|t| - 1], x);
      assert t == t[..|t| - 1] + [t[|t| - 1]];
    }
  }

  /** Whatever is hidden is hidden by something that is not hidden itself. */
  lemma {:induction false} HiddenBySurvivor<T>(hides: Hiding<T>, s: seq<T>, y: T, hider: T) returns (z: T)
    requires StrictOrderOn(hides, s) && y in s && hider in s && hides(hider, y)
    ensures z in s && hides(z, y) && !HiddenIn(hides, s, z)
    decreases |set x | x in s && hides(x, hider)|
  {
    if HiddenIn(hides, s, hider) {
      var x :| x in s && hides(x, hider);
      var above, higher := set w | w in s && hides(w, hider), set w | w in s && hides(w, x);
      assert higher <= above;
      assert x in above && x !in higher;
      SmallerSet(higher, above, x);
      z := HiddenBySurvivor(hides, s, y, x);
    } else {
      z := hider;
    }
  }

  lemma SmallerSet<T>(a: set<T>, b: set<T>, x: T)
    requires a <= b && x in b && x !in a
    ensures |a| < |b|
  {
    assert a <= b - {x};
    SubsetSize(a, b - {x});
  }

  lemma {:induction false} SubsetSize<T>(a: set<T>, b: set<T>)
    requires a <= b
    ensures |a| <= |b|
    decreases |a|
  {
    if a != {} {
      var x :| x in a;
      SubsetSize(a - {x}, b - {x});
    }
  }

  /** Weeding never empties a sequence. */
  lemma {:induction false} SomethingSurvives<T>(hides: Hiding<T>, s: seq<T>)
    requires StrictOrderOn(hides, s) && s != []
    ensures Survivors(hides, s, s) != []
  {
    var z := s[0];
    if HiddenIn(hides, s, z) {
      var hider :| hider in s && hides(hider, z);
      z := HiddenBySurvivor(hides, s, z, hider);
    }
    SurvivorsMembers(hides, s, s, z);
  }

  /** The test may read any collection of original elements that still has all the survivors. */
  lemma {:induction false} PartialViewSuffices<T>(hides: Hiding<T>, s: seq<T>, seen: seq<T>, y: T)
    requires StrictOrderOn(hides, s) && y in s
    requires forall x :: x in seen ==> x in s
    requires forall x :: x in s && !HiddenIn(hides, s, x) ==> x in seen
    ensures HiddenIn(hides, seen, y) <==> HiddenIn(hides, s, y)
  {
    if HiddenIn(hides, s, y) {
      var hider :| hider in s && hides(hider, y);
      var z := HiddenBySurvivor(hides, s, y, hider);
    }
  }

  /** Some element of `now` at another position hides the one at `i`. */
  ghost predicate HiddenAmong<T>(hides: Hiding<T>, now: seq<T>, i: nat)
    requires i < |now|
  {
    exists j :: 0 <= j < |now| && j != i && hides(now[j], now[i])
  }

  /** The test of the in-place algorithm. */
  method IsHidden<T>(a: array<T>, n: nat, i: nat, hides: Hiding<T>) returns (r: bool)
    requires i < n <= a.Length
    ensures r <==> HiddenAmong(hides, a[..n], i)
  {
    for j := 0 to n
      invariant forall k :: 0 <= k < j && k != i ==> !hides(a[k], a[i])
    {
      if j != i && hides(a[j], a[i]) {
        return true;
      }
    }
    return false;
  }

  /** Compacts `a[..n]` in place. The test reads the half-compacted array, yet what is left in
      `a[..kept]` is exactly the plain filter of the original contents. */
  method RemoveHidden<T>(a: array<T>, n: nat, hides: Hiding<T>) returns (kept: nat)
    requires n <= a.Length && StrictOrderOn(hides, a[..n])
    modifies a
    ensures kept <= n && a[..kept] == Survivors(hides, old(a[..n]), old(a[..n]))
    ensures a[n..] == old(a[n..])
    ensures n > 0 ==> kept > 0
  {
    ghost var original := a[..n];
    kept := 0;
    for i := 0 to n
      invariant kept <= i && Compacted(hides, original, i, a[..n], kept)
      invariant a[n..] == old(a[n..])
    {
      ghost var now := a[..n];
      CompactingKeepsTest(hides, original, i, now, kept);
      var hidden := IsHidden(a, n, i, hides);
      CompactOne(hides, original, i, now, kept, hidden);
      if !hidden {
        a[kept] := a[i];
        assert a[..n] == now[kept := now[i]];
        kept := kept + 1;
      }
    }
    CompactedAll(hides, original, a[..n], kept);
    assert a[..kept] == a[..n][..kept];
    if n > 0 {
      SomethingSurvives(hides, original);
    }
  }

  /** Of `s`, the first `i` elements have been dealt with, and `kept` of them are left at the front of `now`. */
  ghost predicate Compacted<T>(hides: Hiding<T>, s: seq<T>, i: nat, now: seq<T>, kept: nat) {
    && kept <= i <= |s| == |now|
    && now[..kept] == Survivors(hides, s, s[..i]) && now[kept..] == s[kept..]
  }

  lemma CompactOne<T>(hides: Hiding<T>, s: seq<T>, i: nat, now: seq<T>, kept: nat, hidden: bool)
    requires Compacted(hides, s, i, now, kept) && i < |s| && (hidden <==> HiddenIn(hides, s, s[i]))
    ensures if hidden then Compacted(hides, s, i + 1, now, kept)
            else Compacted(hides, s, i + 1, now[kept := now[i]], kept + 1)
  {
    assert s[..i + 1][..i] == s[..i];
    assert now[i] == now[kept..][i - kept] == s[i];
    if !hidden {
      var next := now[kept := now[i]];
      assert next[..kept + 1] == now[..kept] + [s[i]];
      assert next[kept + 1..] == now[kept..][1..] == s[kept + 1..];
    }
  }

  lemma CompactedAll<T>(hides: Hiding<T>, s: seq<T>, now: seq<T>, kept: nat)
    requires Compacted(hides, s, |s|, now, kept)
    ensures now[..kept] == Survivors(hides, s, s)
  {
    assert s[..|s|] == s;
  }

  /** In the half-compacted sequence `now`, the test at `i` gives the same answer as in the original. */
  lemma {:induction false} CompactingKeepsTest<T>(hides: Hiding<T>, s: seq<T>, i: nat, now: seq<T>, kept: nat)
    requires StrictOrderOn(hides, s) && i < |s| && Compacted(hides, s, i, now, kept)
    ensures HiddenAmong(hides, now, i) <==> HiddenIn(hides, s, s[i])
  {
    assert now == now[..kept] + now[kept..] == now[..kept] + s[kept..];
    forall x | x in now
      ensures x in s
    {
      SurvivorsMembers(hides, s, s[..i], x);
    }
    forall x | x in s && !HiddenIn(hides, s, x)
      ensures x in now
    {
      SurvivorsMembers(hides, s, s[..i], x);
      if x !in s[..i] {
        var k :| 0 <= k < |s| && s[k] == x;
        assert k >= i && now[k] == x;
      }
    }
    PartialViewSuffices(hides, s, now, s[i]);
    assert now[i] == s[i];
    if HiddenIn(hides, now, s[i]) {
      var x :| x in now && hides(x, s[i]);
      var j :| 0 <= j < |now| && now[j] == x;
      assert j != i;
    }
  }

  /** Erases hidden elements one by one from a linked list. The test reads the list as erased so far. */
  method EraseHidden<T>(s: seq<T>, hides: Hiding<T>) returns (r: seq<T>)
    requires StrictOrderOn(hides, s)
    ensures r == Survivors(hides, s, s)
    ensures s != [] ==> r != []
  {
    r := s;
    var i := 0;
    ghost var done := 0;
    while i < |r|
      invariant i <= |r| && done + (|r| - i) == |s|
      invariant r[..i] == Survivors(hides, s, s[..done]) && r[i..] == s[done..]
      decreases |r| - i
    {
      ErasingKeepsTest(hides, s, done, r, i);
      assert r[i] == r[i..][0] == s[done];
      assert s[..done + 1][..done] == s[..done];
      var hidden := IsHiddenInList(r, r[i], hides);
      if hidden {
        ghost var was := r;
        r := r[..i] + r[i + 1..];
        assert r[..i] == was[..i] && r[i..] == was[i + 1..] == was[i..][1..];
      } else {
        assert r[..i + 1] == r[..i] + [r[i]] && r[i + 1..] == r[i..][1..];
        i := i + 1;
      }
      assert s[done + 1..] == s[done..][1..];
      done := done + 1;
    }
    assert s[..done] == s && r[..i] == r;
    if s != [] {
      SomethingSurvives(hides, s);
    }
  }

  method IsHiddenInList<T>(s: seq<T>, y: T, hides: Hiding<T>) returns (r: bool)
    ensures r <==> HiddenIn(hides, s, y)
  {
    for j := 0 to |s|
      invariant forall k :: 0 <= k < j ==> !hides(s[k], y)
    {
      if hides(s[j], y) {
        return true;
      }
    }
    return false;
  }

  lemma {:induction false} ErasingKeepsTest<T>(hides: Hiding<T>, s: seq<T>, done: nat, now: seq<T>, i: nat)
    requires StrictOrderOn(hides, s) && done < |s| && i <= |now|
    requires now[..i] == Survivors(hides, s, s[..done]) && now[i..] == s[done..]
    ensures HiddenIn(hides, now, s[done]) <==> HiddenIn(hides, s, s[done])
  {
    assert now == now[..i] + now[i..] && s == s[..done] + s[done..];
    forall x
      ensures x in now ==> x in s
      ensures x in s && !HiddenIn(hides, s, x) ==> x in now
    {
      SurvivorsMembers(hides, s, s[..done], x);
    }
    PartialViewSuffices(hides, s, now, s[done]);
  }
}
