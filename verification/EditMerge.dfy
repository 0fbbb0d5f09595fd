/// Merging requested removals and insertions before they are applied to a file.

module EditMerge {

  /** A character range: from `begin` up to but not including `end`, as offsets in translation order. */
  datatype CharRange = CharRange(begin: int, end: int)

  datatype Comparison = Before | After | Contains | Contained | ExtendsBegin | ExtendsEnd

  function CompareWith(a: CharRange, b: CharRange): Comparison {
    if a.end < b.begin then Before
    else if b.end < a.begin then After
    else if a.begin >= b.begin && b.end >= a.end then Contained
    else if a.begin < b.begin && b.end < a.end then Contains
    else if a.begin < b.begin then ExtendsBegin
    else ExtendsEnd
  }

  type Inserts = map<int, seq<string>>

  // ---------- The list of removals ----------

  /** The removals after `r` is merged in, working from the back of the list. */
  function AddBack(rs: seq<CharRange>, r: CharRange): seq<CharRange> {
    if rs == [] then [r]
    else
      var front, last := rs[..|rs| - 1], rs[|rs| - 1];
      match CompareWith(r, last)
      case Before => AddBack(front, r) + [last]
      case After => rs + [r]
      case Contained => rs
      case Contains => AddBack(front, r)
      case ExtendsBegin => AddBack(front, CharRange(r.begin, last.end))
      case ExtendsEnd => front + [CharRange(last.begin, r.end)]
  }

  /** Sorted, nonempty ranges with a gap between neighbours. */
  ghost predicate NormalForm(rs: seq<CharRange>) {
    && (forall i :: 0 <= i < |rs| ==> rs[i].begin < rs[i].end)
    && (forall i, j :: 0 <= i < j < |rs| ==> rs[i].end < rs[j].begin)
  }

  ghost predicate Inside(r: CharRange, x: int) {
    r.begin <= x < r.end
  }

  ghost predicate Covers(rs: seq<CharRange>, x: int) {
    exists i :: 0 <= i < |rs| && Inside(rs[i], x)
  }

  lemma {:induction false} AddBackCovers(rs: seq<CharRange>, r: CharRange, x: int)
    requires NormalForm(rs) && r.begin < r.end
    ensures Covers(AddBack(rs, r), x) <==> Covers(rs, x) || Inside(r, x)
    decreases |rs|
  {
    if rs == [] {
      CoversLast([], r, x);
      assert [] + [r] == [r];
    } else {
      var front, last := rs[..|rs| - 1], rs[|rs| - 1];
      CoversLast(front, last, x);
      assert rs == front + [last];
      match CompareWith(r, last) {
        case Before =>
          AddBackCovers(front, r, x);
          CoversLast(AddBack(front, r), last, x);
        case After =>
          CoversLast(rs, r, x);
        case Contained =>
        case Contains =>
          AddBackCovers(front, r, x);
        case ExtendsBegin =>
          AddBackCovers(front, CharRange(r.begin, last.end), x);
        case ExtendsEnd =>
          CoversLast(front, CharRange(last.begin, r.end), x);
      }
    }
  }

  lemma {:induction false} AddBackNormal(rs: seq<CharRange>, r: CharRange)
    requires NormalForm(rs) && r.begin < r.end
    ensures NormalForm(AddBack(rs, r))
    decreases |rs|
  {
    if rs != [] {
      var front, last := rs[..|rs| - 1], rs[|rs| - 1];
      match CompareWith(r, last) {
        case Before =>
          AddBackNormal(front, r);
          StaysBelow(front, r, last);
        case After =>
        case Contained =>
        case Contains =>
          AddBackNormal(front, r);
        case ExtendsBegin =>
          AddBackNormal(front, CharRange(r.begin, last.end));
        case ExtendsEnd =>
      }
    }
  }

  /** Merging keeps the normal form and adds exactly the positions of the new range. */
  lemma AddBackKeeps(rs: seq<CharRange>, r: CharRange)
    requires NormalForm(rs) && r.begin < r.end
    ensures NormalForm(AddBack(rs, r))
    ensures forall x :: Covers(AddBack(rs, r), x) <==> Covers(rs, x) || Inside(r, x)
  {
    AddBackNormal(rs, r);
    forall x
      ensures Covers(AddBack(rs, r), x) <==> Covers(rs, x) || Inside(r, x)
    {
      AddBackCovers(rs, r, x);
    }
  }

  lemma CoversLast(front: seq<CharRange>, last: CharRange, x: int)
    ensures Covers(front + [last], x) <==> Covers(front, x) || Inside(last, x)
  {
    var all := front + [last];
    if Covers(front, x) {
      var i :| 0 <= i < |front| && Inside(front[i], x);
      assert all[i] == front[i];
    }
    if Inside(last, x) {
      assert all[|front|] == last;
    }
  }

  /** What lies before `last` still does after merging in a range that ends before it. */
  lemma StaysBelow(front: seq<CharRange>, r: CharRange, last: CharRange)
    requires NormalForm(front) && r.begin < r.end < last.begin && NormalForm(AddBack(front, r))
    requires forall i :: 0 <= i < |front| ==> front[i].end < last.begin
    ensures forall i :: 0 <= i < |AddBack(front, r)| ==> AddBack(front, r)[i].end < last.begin
  {
    var merged := AddBack(front, r);
    forall i | 0 <= i < |merged|
      ensures merged[i].end < last.begin
    {
      assert Inside(merged[i], merged[i].end - 1);
      AddBackCovers(front, r, merged[i].end - 1);
    }
  }

  /** There is only one list in normal form that covers a given set of positions. */
  lemma {:induction false} NormalFormIsUnique(a: seq<CharRange>, b: seq<CharRange>)
    requires NormalForm(a) && NormalForm(b) && forall x :: Covers(a, x) <==> Covers(b, x)
    ensures a == b
    decreases |a| + |b|
  {
    if a == [] || b == [] {
      FirstIsCovered(a);
      FirstIsCovered(b);
    } else {
      var front, less := a[..|a| - 1], b[..|b| - 1];
      SameLast(a, b, front, less);
      NormalFormIsUnique(front, less);
      assert a == front + [a[|a| - 1]] && b == less + [b[|b| - 1]];
    }
  }

  lemma SameLast(a: seq<CharRange>, b: seq<CharRange>, front: seq<CharRange>, less: seq<CharRange>)
    requires NormalForm(a) && NormalForm(b) && a != [] && b != [] && forall x :: Covers(a, x) <==> Covers(b, x)
    requires front == a[..|a| - 1] && less == b[..|b| - 1]
    ensures a[|a| - 1] == b[|b| - 1] && NormalForm(front) && NormalForm(less)
    ensures forall x :: Covers(front, x) <==> Covers(less, x)
  {
    LastIsNotBelow(a, b);
    LastIsNotBelow(b, a);
    forall x
      ensures Covers(front, x) <==> Covers(less, x)
    {
      FrontCovers(a, x);
      FrontCovers(b, x);
    }
  }

  lemma FirstIsCovered(a: seq<CharRange>)
    requires NormalForm(a)
    ensures a != [] ==> Covers(a, a[0].begin)
  {
    if a != [] {
      assert Inside(a[0], a[0].begin);
    }
  }

  lemma FrontCovers(a: seq<CharRange>, x: int)
    requires NormalForm(a) && a != []
    ensures Covers(a[..|a| - 1], x) <==> Covers(a, x) && !Inside(a[|a| - 1], x)
  {
    CoversLast(a[..|a| - 1], a[|a| - 1], x);
    assert a == a[..|a| - 1] + [a[|a| - 1]];
  }

  lemma LastIsNotBelow(a: seq<CharRange>, b: seq<CharRange>)
    requires NormalForm(a) && NormalForm(b) && a != [] && b != [] && forall x :: Covers(a, x) <==> Covers(b, x)
    ensures var p, q := a[|a| - 1], b[|b| - 1]; p.end <= q.end && (p.end == q.end ==> p.begin >= q.begin)
  {
    var p, q := a[|a| - 1], b[|b| - 1];
    assert Inside(p, p.end - 1) && Covers(a, p.end - 1);
    var i :| 0 <= i < |b| && Inside(b[i], p.end - 1);
    assert !Covers(b, q.begin - 1);
    assert Inside(p, q.begin - 1) ==> Covers(a, q.begin - 1);
  }

  // ---------- Insertions ----------

  /** `loc` lies strictly inside one of the removals. */
  ghost predicate StrictlyInside(rs: seq<CharRange>, loc: int) {
    exists i :: 0 <= i < |rs| && rs[i].begin < loc < rs[i].end
  }

  /** In normal form that means that the positions on both sides of `loc` are removed. */
  lemma StrictlyInsideIsBothSides(rs: seq<CharRange>, loc: int)
    requires NormalForm(rs)
    ensures StrictlyInside(rs, loc) <==> Covers(rs, loc - 1) && Covers(rs, loc)
  {
    if StrictlyInside(rs, loc) {
      var i :| 0 <= i < |rs| && rs[i].begin < loc < rs[i].end;
      assert Inside(rs[i], loc - 1) && Inside(rs[i], loc);
    }
    if Covers(rs, loc - 1) && Covers(rs, loc) {
      var i :| 0 <= i < |rs| && Inside(rs[i], loc - 1);
      var j :| 0 <= j < |rs| && Inside(rs[j], loc);
      assert i == j;
    }
  }

  function TextsAt(ins: Inserts, loc: int): seq<string> {
    if loc in ins then ins[loc] else []
  }

  function EraseBetween(ins: Inserts, begin: int, end: int): Inserts {
    map k | k in ins && !(begin < k < end) :: ins[k]
  }

  // ---------- A run of edits ----------

  datatype Op = Remove(range: CharRange) | Insert(loc: int, text: string)

  datatype Edits = Edits(removals: seq<CharRange>, inserts: Inserts)

  const NO_EDITS: Edits := Edits([], map[])

  ghost function Perform(st: Edits, op: Op): Edits {
    match op
    case Remove(r) =>
      if r.begin == r.end then st
      else Edits(AddBack(st.removals, r), EraseBetween(st.inserts, r.begin, r.end))
    case Insert(loc, text) =>
      if StrictlyInside(st.removals, loc) then st
      else st.(inserts := st.inserts[loc := TextsAt(st.inserts, loc) + [text]])
  }

  ghost function PerformAll(ops: seq<Op>): Edits {
    if ops == [] then NO_EDITS else Perform(PerformAll(ops[..|ops| - 1]), ops[|ops| - 1])
  }

  ghost predicate WellFormed(ops: seq<Op>) {
    forall i :: 0 <= i < |ops| && ops[i].Remove? ==> ops[i].range.begin <= ops[i].range.end
  }

  /** Some removal among `ops` asks for position `x`. */
  ghost predicate Removed(ops: seq<Op>, x: int) {
    exists i :: 0 <= i < |ops| && ops[i].Remove? && Inside(ops[i].range, x)
  }

  /** After any run the removals are in normal form and cover exactly what was asked for: hence they do
      not depend on the order of the requests. */
  lemma {:induction false} RemovalsAreTheUnion(ops: seq<Op>)
    requires WellFormed(ops)
    ensures NormalForm(PerformAll(ops).removals)
    ensures forall x :: Covers(PerformAll(ops).removals, x) <==> Removed(ops, x)
    decreases |ops|
  {
    if ops != [] {
      var front, last := ops[..|ops| - 1], ops[|ops| - 1];
      RemovalsAreTheUnion(front);
      RemovedLast(front, last);
      assert ops == front + [last];
      if last.Remove? && last.range.begin < last.range.end {
        AddBackKeeps(PerformAll(front).removals, last.range);
      }
    }
  }

  lemma RemovedLast(front: seq<Op>, last: Op)
    ensures forall x :: Removed(front + [last], x) <==> Removed(front, x) || (last.Remove? && Inside(last.range, x))
  {
    var all := front + [last];
    forall x
      ensures Removed(all, x) <==> Removed(front, x) || (last.Remove? && Inside(last.range, x))
    {
      if Removed(front, x) {
        var i :| 0 <= i < |front| && front[i].Remove? && Inside(front[i].range, x);
        assert all[i] == front[i];
      }
      if last.Remove? && Inside(last.range, x) {
        assert all[|front|] == last;
      }
    }
  }

  /** Two runs that ask for the removal of the same positions end with the same list. */
  lemma {:induction false} RequestOrderIsIrrelevant(ops: seq<Op>, other: seq<Op>)
    requires WellFormed(ops) && WellFormed(other)
    requires forall x :: Removed(ops, x) <==> Removed(other, x)
    ensures PerformAll(ops).removals == PerformAll(other).removals
  {
    RemovalsAreTheUnion(ops);
    RemovalsAreTheUnion(other);
    NormalFormIsUnique(PerformAll(ops).removals, PerformAll(other).removals);
  }

  /** The insertion `ops[i]` survives: what was removed before does not reach around its location, and
      no later request reaches across it. */
  ghost predicate Survives(ops: seq<Op>, i: nat)
    requires i < |ops| && ops[i].Insert?
  {
    var loc := ops[i].loc;
    && !(Removed(ops[..i], loc - 1) && Removed(ops[..i], loc))
    && forall j :: i < j < |ops| && ops[j].Remove? ==> !(ops[j].range.begin < loc < ops[j].range.end)
  }

  /** The texts of the surviving insertions at `loc` among the first `n` requests, in order. */
  ghost function Surviving(ops: seq<Op>, n: nat, loc: int): seq<string>
    requires n <= |ops|
  {
    if n == 0 then []
    else
      Surviving(ops, n - 1, loc) +
      if ops[n - 1].Insert? && ops[n - 1].loc == loc && Survives(ops, n - 1) then [ops[n - 1].text] else []
  }

  /** All texts inserted at `loc`, in order. */
  ghost function Requested(ops: seq<Op>, n: nat, loc: int): seq<string>
    requires n <= |ops|
  {
    if n == 0 then []
    else
      Requested(ops, n - 1, loc) +
      if ops[n - 1].Insert? && ops[n - 1].loc == loc then [ops[n - 1].text] else []
  }

  lemma {:induction false} SurvivingBeforeLast(front: seq<Op>, last: Op, n: nat, loc: int)
    requires n <= |front|
    ensures Surviving(front + [last], n, loc) ==
            if last.Remove? && last.range.begin < loc < last.range.end then [] else Surviving(front, n, loc)
    decreases n
  {
    if n > 0 {
      var all := front + [last];
      SurvivingBeforeLast(front, last, n - 1, loc);
      assert all[n - 1] == front[n - 1];
      if front[n - 1].Insert? && front[n - 1].loc == loc {
        assert all[..n - 1] == front[..n - 1];
        assert all[|front|] == last;
        assert forall j :: 0 <= j < |front| ==> all[j] == front[j];
      }
    }
  }

  /** What one more request does to the texts at a location. */
  lemma OneMoreEdit(st: Edits, op: Op, loc: int)
    requires loc in st.inserts ==> st.inserts[loc] != []
    ensures var r := Perform(st, op);
      && (loc in r.inserts ==> r.inserts[loc] != [])
      && TextsAt(r.inserts, loc) ==
         match op
         case Remove(range) => if range.begin < loc < range.end then [] else TextsAt(st.inserts, loc)
         case Insert(l, text) =>
           TextsAt(st.inserts, loc) + if l == loc && !StrictlyInside(st.removals, loc) then [text] else []
  {
  }

  /** After any run the texts kept at a location are those of the surviving insertions, in the order in
      which they were requested. */
  lemma {:induction false} InsertsAreTheSurvivors(ops: seq<Op>, loc: int)
    requires WellFormed(ops)
    ensures TextsAt(PerformAll(ops).inserts, loc) == Surviving(ops, |ops|, loc)
    ensures loc in PerformAll(ops).inserts ==> PerformAll(ops).inserts[loc] != []
    decreases |ops|
  {
    if ops != [] {
      var front, last := ops[..|ops| - 1], ops[|ops| - 1];
      assert ops == front + [last];
      InsertsAreTheSurvivors(front, loc);
      SurvivingBeforeLast(front, last, |front|, loc);
      OneMoreEdit(PerformAll(front), last, loc);
      if last.Insert? {
        LastSurvives(front, last);
      }
    }
  }

  lemma LastSurvives(front: seq<Op>, last: Op)
    requires WellFormed(front) && last.Insert?
    ensures Survives(front + [last], |front|) <==> !StrictlyInside(PerformAll(front).removals, last.loc)
  {
    RemovalsAreTheUnion(front);
    StrictlyInsideIsBothSides(PerformAll(front).removals, last.loc);
    assert (front + [last])[..|front|] == front;
  }

  /** No surviving insertion lies strictly inside any single requested removal. */
  lemma {:induction false} NoInsertionInsideARequest(ops: seq<Op>, loc: int, j: nat)
    requires WellFormed(ops) && j < |ops| && ops[j].Remove? && loc in PerformAll(ops).inserts
    ensures !(ops[j].range.begin < loc < ops[j].range.end)
  {
    InsertsAreTheSurvivors(ops, loc);
    var i := SomeSurvivor(ops, |ops|, loc);
    if j < i && ops[j].range.begin < loc < ops[j].range.end {
      assert ops[..i][j] == ops[j];
      assert Inside(ops[j].range, loc - 1) && Inside(ops[j].range, loc);
    }
  }

  lemma {:induction false} SomeSurvivor(ops: seq<Op>, n: nat, loc: int) returns (i: nat)
    requires n <= |ops| && Surviving(ops, n, loc) != []
    ensures i < n && ops[i].Insert? && ops[i].loc == loc && Survives(ops, i)
    decreases n
  {
    if ops[n - 1].Insert? && ops[n - 1].loc == loc && Survives(ops, n - 1) {
      i := n - 1;
    } else {
      i := SomeSurvivor(ops, n - 1, loc);
    }
  }

  /** At a location that is not strictly inside the region finally removed, every insertion survives. */
  lemma {:induction false} OutsideEverythingSurvives(ops: seq<Op>, loc: int)
    requires WellFormed(ops) && !StrictlyInside(PerformAll(ops).removals, loc)
    ensures TextsAt(PerformAll(ops).inserts, loc) == Requested(ops, |ops|, loc)
  {
    RemovalsAreTheUnion(ops);
    StrictlyInsideIsBothSides(PerformAll(ops).removals, loc);
    InsertsAreTheSurvivors(ops, loc);
    AllSurvive(ops, |ops|, loc);
  }

  lemma {:induction false} AllSurvive(ops: seq<Op>, n: nat, loc: int)
    requires n <= |ops| && !(Removed(ops, loc - 1) && Removed(ops, loc))
    ensures Surviving(ops, n, loc) == Requested(ops, n, loc)
    decreases n
  {
    if n > 0 {
      AllSurvive(ops, n - 1, loc);
      if ops[n - 1].Insert? && ops[n - 1].loc == loc {
        forall x | Removed(ops[..n - 1], x)
          ensures Removed(ops, x)
        {
          var i :| 0 <= i < n - 1 && ops[..n - 1][i].Remove? && Inside(ops[..n - 1][i].range, x);
          assert ops[i] == ops[..n - 1][i];
        }
        forall j | n - 1 < j < |ops| && ops[j].Remove?
          ensures !(ops[j].range.begin < loc < ops[j].range.end)
        {
          if ops[j].range.begin < loc < ops[j].range.end {
            assert Inside(ops[j].range, loc - 1) && Inside(ops[j].range, loc);
          }
        }
      }
    }
  }

  /** Two removals that touch are merged, but an insertion already made where they touch is kept, although
      it then lies strictly inside the merged removal. */
  lemma TouchingKeepsInsertion(text: string)
    ensures var st := PerformAll([Insert(5, text), Remove(CharRange(0, 5)), Remove(CharRange(5, 9))]);
      st.removals == [CharRange(0, 9)] && TextsAt(st.inserts, 5) == [text]
  {
    var ops := [Insert(5, text), Remove(CharRange(0, 5)), Remove(CharRange(5, 9))];
    assert ops[..2] == [Insert(5, text), Remove(CharRange(0, 5))];
    assert ops[..2][..1] == [Insert(5, text)];
    assert ops[..1][..0] == [];
    assert PerformAll([Insert(5, text)]) == Perform(NO_EDITS, Insert(5, text));
    assert PerformAll(ops[..2]) == Perform(PerformAll([Insert(5, text)]), Remove(CharRange(0, 5)));
    assert PerformAll(ops) == Perform(PerformAll(ops[..2]), Remove(CharRange(5, 9)));
  }

  // ---------- The edits as the program keeps them ----------

  /** The list that results when the backward walk has reached position `i` with range `r`. */
  ghost function MergedAt(rs: seq<CharRange>, i: nat, r: CharRange): seq<CharRange>
    requires i <= |rs|
  {
    AddBack(rs[..i], r) + rs[i..]
  }

  /** One step of the backward walk. */
  lemma MergeStep(rs: seq<CharRange>, i: nat, r: CharRange)
    requires 0 < i <= |rs|
    ensures var last := rs[i - 1];
      MergedAt(rs, i, r) ==
      match CompareWith(r, last)
      case Before => MergedAt(rs, i - 1, r)
      case After => rs[..i] + [r] + rs[i..]
      case Contained => rs
      case Contains => MergedAt(rs[..i - 1] + rs[i..], i - 1, r)
      case ExtendsBegin => MergedAt(rs[..i - 1] + rs[i..], i - 1, CharRange(r.begin, last.end))
      case ExtendsEnd => rs[i - 1 := CharRange(last.begin, r.end)]
  {
    assert rs[..i][..i - 1] == rs[..i - 1] && rs[..i][i - 1] == rs[i - 1];
    assert rs[i - 1..] == [rs[i - 1]] + rs[i..];
    var erased := rs[..i - 1] + rs[i..];
    assert erased[..i - 1] == rs[..i - 1] && erased[i - 1..] == rs[i..];
    assert rs == rs[..i] + rs[i..];
  }

  class EditList {
    var removals: seq<CharRange>
    var inserts: Inserts

    constructor ()
      ensures Value() == NO_EDITS && Valid()
    {
      removals, inserts := [], map[];
    }

    function Value(): Edits
      reads this
    {
      Edits(removals, inserts)
    }

    ghost predicate Valid()
      reads this
    {
      NormalForm(removals)
    }

    method AddInsertion(loc: int, text: string)
      requires Valid()
      modifies this
      ensures Valid() && Value() == Perform(old(Value()), Insert(loc, text))
    {
      var i := |removals|;
      while i > 0
        invariant 0 <= i <= |removals|
        invariant forall k :: i <= k < |removals| ==> loc <= removals[k].begin
      {
        i := i - 1;
        if !(loc < removals[i].end) {
          break;
        }
        if removals[i].begin < loc {
          return;
        }
      }
      assert !StrictlyInside(removals, loc);
      inserts := inserts[loc := TextsAt(inserts, loc) + [text]];
    }

    /** Walks the list backwards, merging the new range into the ranges it meets. */
    method AddRemoval(range: CharRange)
      requires Valid() && range.begin <= range.end
      modifies this
      ensures Valid() && Value() == Perform(old(Value()), Remove(range))
    {
      if range.begin == range.end {
        return;
      }
      AddBackKeeps(removals, range);
      inserts := EraseBetween(inserts, range.begin, range.end);
      var newRange := range;
      var i := |removals|;
      assert removals[..i] == removals && removals[..i] + removals[i..] == removals && removals[i..] == [];
      while i > 0
        invariant 0 <= i <= |removals|
        invariant MergedAt(removals, i, newRange) == AddBack(old(removals), range)
        invariant inserts == EraseBetween(old(inserts), range.begin, range.end)
        decreases i
      {
        var ri := i - 1;
        MergeStep(removals, i, newRange);
        match CompareWith(newRange, removals[ri]) {
          case Before =>
            i := ri;
          case After =>
            removals := removals[..i] + [newRange] + removals[i..];
            return;
          case Contained =>
            return;
          case Contains =>
            removals := removals[ri := CharRange(removals[ri].begin, newRange.end)];
            newRange := CharRange(newRange.begin, removals[ri].end);
            removals := removals[..ri] + removals[i..];
            i := ri;
          case ExtendsBegin =>
            newRange := CharRange(newRange.begin, removals[ri].end);
            removals := removals[..ri] + removals[i..];
            i := ri;
          case ExtendsEnd =>
            removals := removals[ri := CharRange(removals[ri].begin, newRange.end)];
            return;
        }
      }
      assert removals[..0] == [] && removals[0..] == removals;
      removals := [newRange] + removals;
    }
  }
}
