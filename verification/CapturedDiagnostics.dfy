/// The captured diagnostics, from which those fixed by a migration are cleared.

module CapturedDiagnostics {
  import opened Prelude

  /** A stored diagnostic; notes belong to the diagnostic they follow. */
  datatype Diagnostic = Diagnostic(id: nat, isNote: bool, loc: int, message: string)

  /** Which diagnostics to look for: any of `ids` (all, if there are none) in a source range. */
  datatype Query = Query(ids: seq<nat>, valid: bool, begin: int, end: int)

  predicate Matches(q: Query, d: Diagnostic) {
    (q.ids == [] || d.id in q.ids) && !(d.loc < q.begin) && (d.loc == q.end || d.loc < q.end)
  }

  ghost predicate Has(q: Query, list: seq<Diagnostic>) {
    q.valid && exists k :: 0 <= k < |list| && Matches(q, list[k])
  }

  /** The diagnostic that a note at position `k` would belong to: the nearest one before that is no note. */
  function Parent(list: seq<Diagnostic>, k: nat): (r: Option<nat>)
    requires k <= |list|
    ensures r.Some? ==> r.value < k && !list[r.value].isNote
  {
    if k == 0 then None
    else if !list[k - 1].isNote then Some(k - 1)
    else Parent(list, k - 1)
  }

  /** Entry `k` stays: it does not match, and if it is a note, neither does the diagnostic it belongs to. */
  predicate Kept(q: Query, list: seq<Diagnostic>, k: nat)
    requires k < |list|
  {
    && !Matches(q, list[k])
    && (list[k].isNote ==> match Parent(list, k) case None => true case Some(j) => !Matches(q, list[j]))
  }

  /** The positions below `n` of the entries that stay. */
  function KeptBelow(q: Query, list: seq<Diagnostic>, n: nat): (r: seq<nat>)
    requires n <= |list|
    ensures forall a :: 0 <= a < |r| ==> r[a] < n
  {
    if n == 0 then []
    else KeptBelow(q, list, n - 1) + if Kept(q, list, n - 1) then [n - 1] else []
  }

  function Pick(list: seq<Diagnostic>, at: seq<nat>): (r: seq<Diagnostic>)
    requires forall a :: 0 <= a < |at| ==> at[a] < |list|
    ensures |r| == |at| && forall a :: 0 <= a < |at| ==> r[a] == list[at[a]]
  {
    seq(|at|, a requires 0 <= a < |at| => list[at[a]])
  }

  /** The list after clearing. */
  function Cleared(q: Query, list: seq<Diagnostic>): seq<Diagnostic> {
    if q.valid then Pick(list, KeptBelow(q, list, |list|)) else list
  }

  lemma {:induction false} KeptBelowIsOrdered(q: Query, list: seq<Diagnostic>, n: nat)
    requires n <= |list|
    ensures var at := KeptBelow(q, list, n);
      && (forall a, b :: 0 <= a < b < |at| ==> at[a] < at[b])
      && (forall k: nat :: k in at <==> k < n && Kept(q, list, k))
    decreases n
  {
    if n > 0 {
      KeptBelowIsOrdered(q, list, n - 1);
    }
  }

  /** A query asks for the diagnostics from its first location to its last, both included, with one of its ids
      if it has any. */
  ghost predicate Asked(q: Query, d: Diagnostic) {
    && q.begin <= d.loc <= q.end
    && (q.ids != [] ==> exists i :: 0 <= i < |q.ids| && q.ids[i] == d.id)
  }

  /** Entry `k` is a note in the group of notes that follow entry `j`, which is none itself. */
  ghost predicate NoteOf(list: seq<Diagnostic>, k: nat, j: nat)
    requires k < |list|
  {
    j < k && !list[j].isNote && forall m :: j < m <= k ==> list[m].isNote
  }

  lemma {:induction false} ParentIsNoteOf(list: seq<Diagnostic>, k: nat, n: nat)
    requires n <= k < |list| && forall m :: n <= m <= k ==> list[m].isNote
    ensures Parent(list, n).Some? ==> NoteOf(list, k, Parent(list, n).value)
    ensures forall j: nat :: NoteOf(list, k, j) ==> Parent(list, n) == Some(j)
    decreases n
  {
    if n > 0 && list[n - 1].isNote {
      ParentIsNoteOf(list, k, n - 1);
    }
  }

  /** Entry `k` is asked for, or is a note of one that is. */
  ghost predicate GoneWith(q: Query, list: seq<Diagnostic>, k: nat)
    requires k < |list|
  {
    Asked(q, list[k]) || exists j: nat :: NoteOf(list, k, j) && Asked(q, list[j])
  }

  lemma MatchesAsked(q: Query, d: Diagnostic)
    ensures Matches(q, d) <==> Asked(q, d)
  {
  }

  lemma KeptExactly(q: Query, list: seq<Diagnostic>, k: nat)
    requires k < |list|
    ensures Kept(q, list, k) <==> !GoneWith(q, list, k)
  {
    if list[k].isNote {
      ParentIsNoteOf(list, k, k);
    }
    forall d
      ensures Matches(q, d) <==> Asked(q, d)
    {
      MatchesAsked(q, d);
    }
  }

  lemma AllPositions(n: nat) returns (at: seq<nat>)
    ensures |at| == n && forall k :: 0 <= k < n ==> at[k] == k
    ensures forall k: nat :: k in at <==> k < n
  {
    at := [];
    while |at| < n
      invariant |at| <= n && forall k :: 0 <= k < |at| ==> at[k] == k
      invariant forall k: nat :: k in at <==> k < |at|
    {
      at := at + [|at|];
    }
  }

  lemma HasAsked(q: Query, list: seq<Diagnostic>)
    ensures Has(q, list) <==> q.valid && exists k :: 0 <= k < |list| && Asked(q, list[k])
  {
    forall k | 0 <= k < |list|
      ensures Matches(q, list[k]) <==> Asked(q, list[k])
    {
      MatchesAsked(q, list[k]);
    }
  }

  /** A query finds something exactly when some entry is asked for. What a valid query leaves are, in their order,
      the entries at the positions `at`: exactly those that are neither asked for nor a note of one that is. */
  lemma ClearedExactly(q: Query, list: seq<Diagnostic>) returns (at: seq<nat>)
    ensures Has(q, list) <==> q.valid && exists k :: 0 <= k < |list| && Asked(q, list[k])
    ensures forall a, b :: 0 <= a < b < |at| ==> at[a] < at[b]
    ensures forall k: nat :: k in at <==> k < |list| && (q.valid ==> !GoneWith(q, list, k))
    ensures |Cleared(q, list)| == |at|
    ensures forall a :: 0 <= a < |at| ==> at[a] < |list| && Cleared(q, list)[a] == list[at[a]]
  {
    HasAsked(q, list);
    forall k: nat | k < |list|
      ensures Kept(q, list, k) <==> !GoneWith(q, list, k)
    {
      KeptExactly(q, list, k);
    }
    KeptBelowIsOrdered(q, list, |list|);
    if q.valid {
      at := KeptBelow(q, list, |list|);
    } else {
      at := AllPositions(|list|);
    }
  }

  /** Clearing leaves nothing that the query would find. */
  lemma {:induction false} NothingIsLeft(q: Query, list: seq<Diagnostic>)
    ensures !Has(q, Cleared(q, list))
  {
    KeptBelowIsOrdered(q, list, |list|);
    var at := KeptBelow(q, list, |list|);
    forall a | 0 <= a < |at|
      ensures Kept(q, list, at[a])
    {
      assert at[a] in at;
    }
  }

  /** When nothing matches, clearing changes nothing. */
  lemma {:induction false} NothingToClear(q: Query, list: seq<Diagnostic>)
    requires !Has(q, list)
    ensures Cleared(q, list) == list
  {
    if q.valid {
      AllKept(q, list, |list|);
    }
  }

  lemma {:induction false} AllKept(q: Query, list: seq<Diagnostic>, n: nat)
    requires q.valid && !Has(q, list) && n <= |list|
    ensures |KeptBelow(q, list, n)| == n && forall k :: 0 <= k < n ==> KeptBelow(q, list, n)[k] == k
    decreases n
  {
    if n > 0 {
      AllKept(q, list, n - 1);
    }
  }

  /** What follows the first `n` entries has the same parent when only those at `at` are left, if it stays. */
  ghost predicate SameParent(q: Query, list: seq<Diagnostic>, n: nat, at: seq<nat>)
    requires n <= |list| && forall a :: 0 <= a < |at| ==> at[a] < |list|
  {
    var r := Pick(list, at);
    match Parent(list, n)
    case None => Parent(r, |r|) == None
    case Some(j) => Kept(q, list, j) ==> Parent(r, |r|).Some? && at[Parent(r, |r|).value] == j
  }

  lemma {:induction false} SameParentKept(q: Query, list: seq<Diagnostic>, n: nat, before: seq<nat>)
    requires n < |list| && (forall a :: 0 <= a < |before| ==> before[a] < |list|) && SameParent(q, list, n, before)
    ensures SameParent(q, list, n + 1, before + [n])
  {
    var s := Pick(list, before);
    assert Pick(list, before + [n]) == s + [list[n]];
    ParentOfPrefix(s, list[n], |s|);
  }

  lemma {:induction false} ParentsBelow(q: Query, list: seq<Diagnostic>, n: nat)
    requires n <= |list|
    ensures SameParent(q, list, n, KeptBelow(q, list, n))
    decreases n
  {
    if n > 0 {
      var before := KeptBelow(q, list, n - 1);
      ParentsBelow(q, list, n - 1);
      if Kept(q, list, n - 1) {
        SameParentKept(q, list, n - 1, before);
      } else {
        assert before + [] == before;
      }
    }
  }

  lemma {:induction false} ParentOfPrefix(s: seq<Diagnostic>, d: Diagnostic, k: nat)
    requires k <= |s|
    ensures Parent(s + [d], k) == Parent(s, k)
    decreases k
  {
    if k > 0 {
      ParentOfPrefix(s, d, k - 1);
    }
  }

  /** A note that stays belongs to the same diagnostic as before, which stays too. */
  lemma {:induction false} NotesKeepTheirParent(q: Query, list: seq<Diagnostic>, a: nat)
    requires q.valid && a < |KeptBelow(q, list, |list|)|
    requires list[KeptBelow(q, list, |list|)[a]].isNote
    ensures var at := KeptBelow(q, list, |list|);
      match Parent(list, at[a])
      case None => Parent(Cleared(q, list), a) == None
      case Some(j) => Parent(Cleared(q, list), a).Some? && at[Parent(Cleared(q, list), a).value] == j
  {
    var at := KeptBelow(q, list, |list|);
    var n := at[a];
    KeptBelowIsOrdered(q, list, |list|);
    assert n in at;
    PrefixOfKept(q, list, n, |list|, a);
    ParentsBelow(q, list, n);
    var front := Pick(list, KeptBelow(q, list, n));
    ParentInPrefix(front, Cleared(q, list), a);
  }

  /** The kept positions below an entry that stays at position `a` are the first `a` of all. */
  lemma {:induction false} PrefixOfKept(q: Query, list: seq<Diagnostic>, n: nat, m: nat, a: nat)
    requires n < m <= |list| && a < |KeptBelow(q, list, m)| && KeptBelow(q, list, m)[a] == n
    ensures KeptBelow(q, list, n) == KeptBelow(q, list, m)[..a]
    decreases m
  {
    var at, before := KeptBelow(q, list, m), KeptBelow(q, list, m - 1);
    assert at == before || at == before + [m - 1];
    if n < m - 1 {
      assert a < |before| && before[a] == n;
      PrefixOfKept(q, list, n, m - 1, a);
      assert at[..a] == before[..a];
    } else {
      assert a == |before| && at[..a] == before;
    }
  }

  lemma {:induction false} ParentInPrefix(s: seq<Diagnostic>, t: seq<Diagnostic>, k: nat)
    requires k <= |s| && s <= t
    ensures Parent(s, k) == Parent(t, k)
    decreases k
  {
    if k > 0 {
      ParentInPrefix(s, t, k - 1);
    }
  }

  lemma {:induction false} KeptOfPrefix(q: Query, list: seq<Diagnostic>, d: Diagnostic, n: nat)
    requires n <= |list|
    ensures KeptBelow(q, list + [d], n) == KeptBelow(q, list, n)
    decreases n
  {
    if n > 0 {
      KeptOfPrefix(q, list, d, n - 1);
      ParentOfPrefix(list, d, n - 1);
    }
  }

  /** The diagnostic `d`, added after `list`, goes with the diagnostic it belongs to. */
  predicate GoesWithParent(q: Query, list: seq<Diagnostic>, d: Diagnostic) {
    d.isNote && match Parent(list, |list|) case None => false case Some(j) => Matches(q, list[j])
  }

  /** A diagnostic added later does not change what is found and cleared of those before it; it is cleared
      itself if it matches or goes with the one it belongs to. */
  lemma {:induction false} AddedLater(q: Query, list: seq<Diagnostic>, d: Diagnostic)
    ensures Has(q, list + [d]) <==> Has(q, list) || (q.valid && Matches(q, d))
    ensures Cleared(q, list + [d]) ==
            Cleared(q, list) + if q.valid && (Matches(q, d) || GoesWithParent(q, list, d)) then [] else [d]
  {
    var longer := list + [d];
    if q.valid {
      KeptOfPrefix(q, list, d, |list|);
      ParentOfPrefix(list, d, |list|);
      assert Pick(longer, KeptBelow(q, list, |list|)) == Cleared(q, list);
    }
    if Has(q, list) {
      var k :| 0 <= k < |list| && Matches(q, list[k]);
      assert longer[k] == list[k];
    }
    assert longer[|list|] == d;
  }

  /** If a note comes next, the diagnostic it belongs to does not match. */
  ghost predicate NotesOfKept(q: Query, all: seq<Diagnostic>, done: nat)
    requires done <= |all|
  {
    done < |all| && all[done].isNote ==>
      match Parent(all, done) case None => true case Some(j) => !Matches(q, all[j])
  }

  /** A matching entry, with its notes if it is no note itself, goes as a whole. */
  lemma {:induction false} ErasedGroup(q: Query, all: seq<Diagnostic>, first: nat, done: nat)
    requires first < done <= |all| && Matches(q, all[first]) && NotesOfKept(q, all, first)
    requires if all[first].isNote then done == first + 1
             else (forall k :: first < k < done ==> all[k].isNote) && (done < |all| ==> !all[done].isNote)
    ensures KeptBelow(q, all, done) == KeptBelow(q, all, first) && NotesOfKept(q, all, done)
  {
    if !all[first].isNote {
      GroupBelow(q, all, first, done);
    }
  }

  lemma {:induction false} GroupBelow(q: Query, all: seq<Diagnostic>, first: nat, done: nat)
    requires first < done <= |all| && Matches(q, all[first]) && !all[first].isNote
    requires forall k :: first < k < done ==> all[k].isNote
    ensures KeptBelow(q, all, done) == KeptBelow(q, all, first) && Parent(all, done) == Some(first)
    decreases done
  {
    if done > first + 1 {
      GroupBelow(q, all, first, done - 1);
    }
  }

  lemma KeepsOne(q: Query, all: seq<Diagnostic>, done: nat)
    requires done < |all| && !Matches(q, all[done]) && NotesOfKept(q, all, done)
    ensures KeptBelow(q, all, done + 1) == KeptBelow(q, all, done) + [done] && NotesOfKept(q, all, done + 1)
    ensures Pick(all, KeptBelow(q, all, done + 1)) == Pick(all, KeptBelow(q, all, done)) + [all[done]]
  {
  }

  /** Of the original entries, `done` have been dealt with; what stays of them is `now[..i]`. */
  ghost predicate Clearing(q: Query, all: seq<Diagnostic>, done: nat, now: seq<Diagnostic>, i: nat) {
    && i <= |now| && done <= |all| && now[i..] == all[done..]
    && now[..i] == Pick(all, KeptBelow(q, all, done))
    && NotesOfKept(q, all, done)
  }

  ghost predicate MatchedBelow(q: Query, all: seq<Diagnostic>, n: nat)
    requires n <= |all|
  {
    exists k :: 0 <= k < n && Matches(q, all[k])
  }

  lemma EraseStep(q: Query, all: seq<Diagnostic>, done: nat, now: seq<Diagnostic>, i: nat, next: nat)
    requires Clearing(q, all, done, now, i) && i < next <= |now| && Matches(q, now[i])
    requires if now[i].isNote then next == i + 1
             else (forall k :: i < k < next ==> now[k].isNote) && (next < |now| ==> !now[next].isNote)
    ensures Clearing(q, all, done + (next - i), now[..i] + now[next..], i)
    ensures MatchedBelow(q, all, done + (next - i))
  {
    assert forall k :: i <= k < |now| ==> now[k] == now[i..][k - i] == all[done + (k - i)];
    ErasedGroup(q, all, done, done + (next - i));
    var erased := now[..i] + now[next..];
    assert erased[..i] == now[..i] && erased[i..] == now[next..] == all[done + (next - i)..];
  }

  lemma KeepStep(q: Query, all: seq<Diagnostic>, done: nat, now: seq<Diagnostic>, i: nat)
    requires Clearing(q, all, done, now, i) && i < |now| && !Matches(q, now[i])
    ensures done < |all| && Clearing(q, all, done + 1, now, i + 1)
    ensures MatchedBelow(q, all, done + 1) == MatchedBelow(q, all, done)
  {
    assert now[i] == now[i..][0] == all[done];
    KeepsOne(q, all, done);
    assert now[..i + 1] == now[..i] + [now[i]];
  }

  lemma ClearingDone(q: Query, all: seq<Diagnostic>, done: nat, now: seq<Diagnostic>, i: nat)
    requires q.valid && Clearing(q, all, done, now, i) && i == |now|
    ensures now == Cleared(q, all) && (MatchedBelow(q, all, done) <==> Has(q, all))
  {
    assert now[i..] == [] && |all[done..]| == 0;
    assert now[..i] == now && done == |all|;
  }

  method SkipNotes(list: seq<Diagnostic>, from: nat) returns (next: nat)
    requires from <= |list|
    ensures from <= next <= |list| && forall k :: from <= k < next ==> list[k].isNote
    ensures next < |list| ==> !list[next].isNote
  {
    next := from;
    while next < |list| && list[next].isNote
      invariant from <= next <= |list| && forall k :: from <= k < next ==> list[k].isNote
    {
      next := next + 1;
    }
  }

  class CapturedDiagList {
    var list: seq<Diagnostic>

    constructor ()
      ensures list == []
    {
      list := [];
    }

    /** Adds a diagnostic; what is found and cleared of those before it stays the same. */
    method PushBack(d: Diagnostic)
      modifies this
      ensures list == old(list) + [d]
      ensures forall q :: Has(q, list) <==> Has(q, old(list)) || (q.valid && Matches(q, d))
      ensures forall q :: Cleared(q, list) ==
                Cleared(q, old(list)) +
                if q.valid && (Matches(q, d) || GoesWithParent(q, old(list), d)) then [] else [d]
    {
      forall q: Query
        ensures Has(q, list + [d]) <==> Has(q, list) || (q.valid && Matches(q, d))
        ensures Cleared(q, list + [d]) ==
                Cleared(q, list) + if q.valid && (Matches(q, d) || GoesWithParent(q, list, d)) then [] else [d]
      {
        AddedLater(q, list, d);
      }
      list := list + [d];
    }

    /** Erases entry `i`, and if it is no note itself the notes that follow it. */
    method Erase(i: nat) returns (ghost next: nat)
      requires i < |list|
      modifies this
      ensures i < next <= |old(list)| && list == old(list)[..i] + old(list)[next..]
      ensures if old(list)[i].isNote then next == i + 1
              else
                && (forall k :: i < k < next ==> old(list)[k].isNote)
                && (next < |old(list)| ==> !old(list)[next].isNote)
    {
      var upTo := i + 1;
      if !list[i].isNote {
        upTo := SkipNotes(list, i + 1);
      }
      next := upTo;
      list := list[..i] + list[upTo..];
    }

    /** Answers whether a matching diagnostic was there, and clears all of them with their notes. */
    method ClearDiagnostic(q: Query) returns (cleared: bool)
      modifies this
      ensures cleared <==> q.valid && exists k :: 0 <= k < |old(list)| && Asked(q, old(list)[k])
      ensures list == Cleared(q, old(list))
    {
      if !q.valid {
        return false;
      }
      cleared := false;
      var i := 0;
      ghost var all := list;
      ghost var done: nat := 0;
      while i < |list|
        invariant Clearing(q, all, done, list, i)
        invariant cleared <==> MatchedBelow(q, all, done)
        decreases |list| - i
      {
        if Matches(q, list[i]) {
          cleared := true;
          ghost var now := list;
          ghost var next := Erase(i);
          EraseStep(q, all, done, now, i, next);
          done := done + (next - i);
        } else {
          KeepStep(q, all, done, list, i);
          i := i + 1;
          done := done + 1;
        }
      }
      ClearingDone(q, all, done, list, i);
      HasAsked(q, all);
    }

    method HasDiagnostic(q: Query) returns (r: bool)
      ensures r <==> q.valid && exists k :: 0 <= k < |list| && Asked(q, list[k])
      ensures r <==> Has(q, list)
    {
      HasAsked(q, list);
      if !q.valid {
        return false;
      }
      var i := 0;
      while i < |list|
        invariant i <= |list| && forall k :: 0 <= k < i ==> !Matches(q, list[k])
      {
        if Matches(q, list[i]) {
          return true;
        }
        i := i + 1;
      }
      r := false;
    }
  }
}
