/// What the search leaves in its scratch path and in its list of recorded paths.

module RecordedPaths {
  import opened Hierarchy
  import opened BasePathSearch
  import opened SubobjectCounting
  import opened Containment

  // ---------- The scratch path ----------

  lemma {:induction false} VisitRestores(h: Lattice, m: Criterion, mode: Mode, st: State, c: nat, i: nat,
                                         access: Access, first: bool, v: Visited)
    requires c < |h| && i < |h[c]|
    requires v == Visit(h, m, mode, st, c, i, access, first) && !v.stop
    ensures v.st.scratch == st.scratch && st.paths <= v.st.paths
    decreases c, 0
  {
    var e := h[c][i];
    var entered := Enter(h, mode, st, c, i, access, first);
    if !Hits(m, e) && (!e.isVirtual || !CountOf(st.counts, e.cls).isVirt) {
      SearchRestores(h, m, mode, entered, e.cls);
    }
  }

  lemma {:induction false} WalkRestores(h: Lattice, m: Criterion, mode: Mode, st: State, c: nat, i: nat, found: bool,
                                        access: Access, first: bool, r: (State, bool))
    requires c < |h| && i <= |h[c]|
    requires r == Walk(h, m, mode, st, c, i, found, access, first)
    requires mode.findAmbiguities || !r.1
    ensures r.0.scratch == st.scratch && r.0.access == access && st.paths <= r.0.paths
    decreases c, |h[c]| - i + 1
  {
    if i < |h[c]| {
      var v := Visit(h, m, mode, st, c, i, access, first);
      VisitRestores(h, m, mode, st, c, i, access, first, v);
      WalkRestores(h, m, mode, v.st, c, i + 1, found || v.hit, access, first, r);
    }
  }

  /** A search that is exhaustive or finds nothing leaves the scratch path and its access as they were. */
  lemma {:induction false} SearchRestores(h: Lattice, m: Criterion, mode: Mode, st: State, c: nat)
    requires c < |h| && (mode.findAmbiguities || !Search(h, m, mode, st, c).1)
    ensures var r := Search(h, m, mode, st, c).0;
      r.scratch == st.scratch && r.access == st.access && st.paths <= r.paths
    decreases c, |h[c]| + 2
  {
    WalkRestores(h, m, mode, st, c, 0, false, st.access, st.scratch == [], Search(h, m, mode, st, c));
  }

  // ---------- Recorded paths as inheritance paths ----------

  function Steps(es: seq<PathElement>): (p: seq<nat>)
    ensures |p| == |es|
  {
    seq(|es|, k requires 0 <= k < |es| => es[k].base)
  }

  /** The elements lead down from class `c`, each naming the class it starts from. */
  ghost predicate Follows(h: Lattice, c: nat, es: seq<PathElement>)
    requires c < |h|
    decreases |es|
  {
    es == [] ||
    (es[0].record == c && es[0].base < |h[c]| && Follows(h, h[c][es[0].base].cls, es[1..]))
  }

  lemma {:induction false} FollowsIsPath(h: Lattice, c: nat, es: seq<PathElement>)
    requires c < |h| && Follows(h, c, es)
    ensures IsPath(h, c, Steps(es))
    decreases |es|
  {
    if es != [] {
      FollowsIsPath(h, h[c][es[0].base].cls, es[1..]);
      assert Steps(es)[1..] == Steps(es[1..]);
    }
  }

  /** No step of `p` but perhaps the last meets the criterion. */
  predicate Approaches(h: Lattice, m: Criterion, c: nat, p: seq<nat>)
    requires c < |h| && IsPath(h, c, p)
    decreases |p|
  {
    |p| > 1 ==> !Hits(m, h[c][p[0]]) && Approaches(h, m, h[c][p[0]].cls, p[1..])
  }

  /** The last step of `p`, and no earlier one, meets the criterion. */
  ghost predicate FirstMatch(h: Lattice, m: Criterion, c: nat, p: seq<nat>)
    requires c < |h|
  {
    IsMatchingPath(h, m, c, p) && Approaches(h, m, c, p)
  }

  /** Path `p` extends `scratch` by a path from `c` whose last step is the first to meet the criterion. */
  ghost predicate ExtendsToMatch(h: Lattice, m: Criterion, c: nat, scratch: seq<PathElement>, p: BasePath)
    requires c < |h|
  {
    && |p.elements| >= |scratch| && p.elements[..|scratch|] == scratch
    && var tail := p.elements[|scratch|..];
      Follows(h, c, tail) && FirstMatch(h, m, c, Steps(tail))
  }

  /** The same, and the extension denotes the subobject `s` (seen from `c`). */
  ghost predicate Extends(h: Lattice, m: Criterion, c: nat, scratch: seq<PathElement>, p: BasePath, s: Subobject)
    requires c < |h|
  {
    ExtendsToMatch(h, m, c, scratch, p) && Denote(h, c, Steps(p.elements[|scratch|..])) == s
  }

  /** The subobject seen from `c` when it is `s` seen from base `i` of `c`. */
  function Lift(h: Lattice, c: nat, i: nat, s: Subobject): Subobject
    requires c < |h| && i < |h[c]|
  {
    if s.start.VirtualBase? then s
    else if h[c][i].isVirtual then Subobject(VirtualBase(h[c][i].cls), s.steps)
    else Subobject(MostDerived, [i] + s.steps)
  }

  lemma {:induction false} ExtendsFurther(h: Lattice, m: Criterion, c: nat, i: nat, scratch: seq<PathElement>,
                                          x: PathElement, p: BasePath, s: Subobject)
    requires c < |h| && i < |h[c]| && x.record == c && x.base == i && !Hits(m, h[c][i])
    requires Extends(h, m, h[c][i].cls, scratch + [x], p, s)
    ensures Extends(h, m, c, scratch, p, Lift(h, c, i, s))
  {
    var tail := p.elements[|scratch|..];
    assert p.elements[|scratch| + 1..] == tail[1..];
    assert tail[0] == x by {
      assert p.elements[..|scratch| + 1][|scratch|] == x;
    }
    assert p.elements[..|scratch|] == p.elements[..|scratch| + 1][..|scratch|] == scratch;
    assert Steps(tail)[1..] == Steps(tail[1..]);
  }

  lemma {:induction false} KeptExtends(h: Lattice, m: Criterion, c: nat, i: nat, scratch: seq<PathElement>,
                                       x: PathElement, access: Access)
    requires c < |h| && i < |h[c]| && x.record == c && x.base == i && Hits(m, h[c][i])
    ensures Extends(h, m, c, scratch, BasePath(scratch + [x], access), Lift(h, c, i, Subobject(MostDerived, [])))
  {
    var tail := [x];
    assert (scratch + [x])[|scratch|..] == tail && (scratch + [x])[..|scratch|] == scratch;
    assert Follows(h, h[c][i].cls, tail[1..]);
    assert Steps(tail) == [i] && [i][1..] == [];
  }

  const RECORDING: Mode := Mode(true, true)

  /** Everything recorded after the first `k` paths extends `scratch` to a match below `c`. */
  ghost predicate AllExtend(h: Lattice, m: Criterion, c: nat, scratch: seq<PathElement>, paths: seq<BasePath>, k: nat)
    requires c < |h|
  {
    forall j :: k <= j < |paths| ==> ExtendsToMatch(h, m, c, scratch, paths[j])
  }

  lemma {:induction false} VisitRecordsMatches(h: Lattice, m: Criterion, st: State, c: nat, i: nat,
                                               access: Access, first: bool, v: Visited)
    requires c < |h| && i < |h[c]| && v == Visit(h, m, RECORDING, st, c, i, access, first)
    ensures AllExtend(h, m, c, st.scratch, v.st.paths, |st.paths|)
    decreases c, 0
  {
    var e := h[c][i];
    var entered := Enter(h, RECORDING, st, c, i, access, first);
    var x := entered.scratch[|st.scratch|];
    if Hits(m, e) {
      KeptExtends(h, m, c, i, st.scratch, x, entered.access);
    } else if !e.isVirtual || !CountOf(st.counts, e.cls).isVirt {
      var below := Search(h, m, RECORDING, entered, e.cls).0;
      SearchRecordsMatches(h, m, entered, e.cls);
      forall j | |st.paths| <= j < |below.paths|
        ensures ExtendsToMatch(h, m, c, st.scratch, below.paths[j])
      {
        var s := Denote(h, e.cls, Steps(below.paths[j].elements[|entered.scratch|..]));
        ExtendsFurther(h, m, c, i, st.scratch, x, below.paths[j], s);
      }
    }
  }

  lemma {:induction false} WalkRecordsMatches(h: Lattice, m: Criterion, st: State, c: nat, i: nat, found: bool,
                                              access: Access, first: bool, r: (State, bool))
    requires c < |h| && i <= |h[c]| && r == Walk(h, m, RECORDING, st, c, i, found, access, first)
    ensures AllExtend(h, m, c, st.scratch, r.0.paths, |st.paths|)
    decreases c, |h[c]| - i + 1
  {
    if i < |h[c]| {
      var v := Visit(h, m, RECORDING, st, c, i, access, first);
      VisitRecordsMatches(h, m, st, c, i, access, first, v);
      VisitRestores(h, m, RECORDING, st, c, i, access, first, v);
      WalkRecordsMatches(h, m, v.st, c, i + 1, found || v.hit, access, first, r);
      WalkRestores(h, m, RECORDING, v.st, c, i + 1, found || v.hit, access, first, r);
    }
  }

  lemma {:induction false} SearchRecordsMatches(h: Lattice, m: Criterion, st: State, c: nat)
    requires c < |h|
    ensures AllExtend(h, m, c, st.scratch, Search(h, m, RECORDING, st, c).0.paths, |st.paths|)
    decreases c, |h[c]| + 2
  {
    WalkRecordsMatches(h, m, st, c, 0, false, st.access, st.scratch == [], Search(h, m, RECORDING, st, c));
  }

  // ---------- No subobject is missed ----------

  /** Whether a base specifier meets the criterion depends on the class it names only. */
  ghost predicate OnClasses(m: Criterion) {
    forall cls: nat :: m(cls, true) == m(cls, false)
  }

  /** A first match reached by non-virtual steps. */
  ghost predicate OrdinaryMatch(h: Lattice, m: Criterion, c: nat, p: seq<nat>)
    requires c < |h|
  {
    FirstMatch(h, m, c, p) && Denote(h, c, p).start.MostDerived?
  }

  /** `s` is the subobject at a first match below a base of `c` from `i` on, or in a virtual base of `vs` but
      not `us`. */
  ghost predicate Wanted(h: Lattice, m: Criterion, c: nat, i: nat, us: set<nat>, vs: set<nat>, s: Subobject)
    requires c < |h|
  {
    match s.start
    case MostDerived => OrdinaryMatch(h, m, c, s.steps) && s.steps[0] >= i
    case VirtualBase(v) =>
      && v < |h| && v in vs && v !in us
      && if s.steps == [] then m(v, true) else !m(v, true) && OrdinaryMatch(h, m, v, s.steps)
  }

  ghost predicate Recorded(h: Lattice, m: Criterion, c: nat, scratch: seq<PathElement>, paths: seq<BasePath>, k: nat,
                           s: Subobject)
    requires c < |h|
  {
    exists j :: k <= j < |paths| && Extends(h, m, c, scratch, paths[j], s)
  }

  lemma OrdinaryMatchBelow(h: Lattice, m: Criterion, c: nat, p: seq<nat>)
    requires c < |h| && OrdinaryMatch(h, m, c, p)
    ensures !h[c][p[0]].isVirtual && p == [p[0]] + p[1..]
    ensures if Hits(m, h[c][p[0]]) then |p| == 1 else OrdinaryMatch(h, m, h[c][p[0]].cls, p[1..])
  {
    DenoteShape(h, c, p);
  }

  /** A wanted subobject as seen from the base it lies below. */
  function Inward(vs: set<nat>, s: Subobject): Subobject
    requires s.start.VirtualBase? || s.steps != []
  {
    if s.start.MostDerived? then Subobject(MostDerived, s.steps[1..])
    else if s.start.cls in vs then Subobject(MostDerived, s.steps)
    else s
  }

  lemma {:induction false} VisitRecordsAll(h: Lattice, m: Criterion, st: State, c: nat, i: nat, access: Access,
                                           first: bool, v: Visited, s: Subobject)
    requires c < |h| && i < |h[c]| && OnClasses(m) && v == Visit(h, m, RECORDING, st, c, i, access, first)
    requires Wanted(h, m, c, i, VirtSet(st), VirtSet(v.st), s) && (s.start.MostDerived? ==> s.steps[0] == i)
    ensures Recorded(h, m, c, st.scratch, v.st.paths, |st.paths|, s)
    decreases c, 0
  {
    var e := h[c][i];
    var entered := Enter(h, RECORDING, st, c, i, access, first);
    var x := entered.scratch[|st.scratch|];
    EnterSees(h, RECORDING, st, c, i, access, first);
    if s.start.MostDerived? {
      OrdinaryMatchBelow(h, m, c, s.steps);
    }
    if Hits(m, e) {
      assert VirtSet(v.st) == VirtSet(entered);
      KeptExtends(h, m, c, i, st.scratch, x, entered.access);
      assert v.st.paths[|st.paths|] == BasePath(st.scratch + [x], entered.access);
    } else if !e.isVirtual || !CountOf(st.counts, e.cls).isVirt {
      var below := Search(h, m, RECORDING, entered, e.cls).0;
      assert VirtSet(v.st) == VirtSet(below);
      var inner := Inward(VirtSet(entered), s);
      SearchRecordsAll(h, m, entered, e.cls, inner);
      var j :| |st.paths| <= j < |below.paths| && Extends(h, m, e.cls, entered.scratch, below.paths[j], inner);
      ExtendsFurther(h, m, c, i, st.scratch, x, below.paths[j], inner);
    }
  }

  lemma RecordedInMore(h: Lattice, m: Criterion, c: nat, scratch: seq<PathElement>, paths: seq<BasePath>, k: nat,
                       more: seq<BasePath>, l: nat, s: Subobject)
    requires c < |h| && paths <= more && l <= k && Recorded(h, m, c, scratch, paths, k, s)
    ensures Recorded(h, m, c, scratch, more, l, s)
  {
    var j :| k <= j < |paths| && Extends(h, m, c, scratch, paths[j], s);
    assert more[j] == paths[j];
  }

  /** `s` is wanted at base `i` itself, rather than further on. */
  ghost predicate WantedHere(i: nat, vs: set<nat>, s: Subobject) {
    match s.start
    case MostDerived => s.steps != [] && s.steps[0] == i
    case VirtualBase(v) => v in vs
  }

  /** What is wanted from base `i` on is wanted there or further on. */
  lemma WantedHereOrLater(h: Lattice, m: Criterion, c: nat, i: nat, us: set<nat>, vs: set<nat>, ws: set<nat>,
                          s: Subobject)
    requires c < |h| && Wanted(h, m, c, i, us, ws, s)
    ensures if WantedHere(i, vs, s) then Wanted(h, m, c, i, us, vs, s) else Wanted(h, m, c, i + 1, vs, ws, s)
  {
  }

  /** Whatever the visit of base `i` or the rest of the walk has recorded is there in the end. */
  lemma RecordedHereOrLater(h: Lattice, m: Criterion, c: nat, i: nat, st: State, mid: State, end: State, s: Subobject)
    requires c < |h| && mid.scratch == st.scratch && st.paths <= mid.paths <= end.paths
    requires Recorded(h, m, c, st.scratch, mid.paths, |st.paths|, s) ||
             Recorded(h, m, c, mid.scratch, end.paths, |mid.paths|, s)
    ensures Recorded(h, m, c, st.scratch, end.paths, |st.paths|, s)
  {
    if Recorded(h, m, c, st.scratch, mid.paths, |st.paths|, s) {
      RecordedInMore(h, m, c, st.scratch, mid.paths, |st.paths|, end.paths, |st.paths|, s);
    } else {
      RecordedInMore(h, m, c, st.scratch, end.paths, |mid.paths|, end.paths, |st.paths|, s);
    }
  }

  /** The states before a visit, after it and at the end of the walk. */
  lemma WalkGoesOn(h: Lattice, m: Criterion, st: State, c: nat, i: nat, found: bool,
                   access: Access, first: bool, v: Visited, r: (State, bool))
    requires c < |h| && i < |h[c]| && r == Walk(h, m, RECORDING, st, c, i, found, access, first)
    requires v == Visit(h, m, RECORDING, st, c, i, access, first)
    ensures r == Walk(h, m, RECORDING, v.st, c, i + 1, found || v.hit, access, first)
    ensures v.st.scratch == st.scratch && st.paths <= v.st.paths <= r.0.paths
  {
    VisitRestores(h, m, RECORDING, st, c, i, access, first, v);
    WalkRestores(h, m, RECORDING, v.st, c, i + 1, found || v.hit, access, first, r);
  }

  lemma {:induction false} WalkRecordsAll(h: Lattice, m: Criterion, st: State, c: nat, i: nat, found: bool,
                                          access: Access, first: bool, r: (State, bool), s: Subobject)
    requires c < |h| && i <= |h[c]| && OnClasses(m) && r == Walk(h, m, RECORDING, st, c, i, found, access, first)
    requires Wanted(h, m, c, i, VirtSet(st), VirtSet(r.0), s)
    ensures Recorded(h, m, c, st.scratch, r.0.paths, |st.paths|, s)
    decreases c, |h[c]| - i + 1
  {
    if i < |h[c]| {
      var v := Visit(h, m, RECORDING, st, c, i, access, first);
      WalkGoesOn(h, m, st, c, i, found, access, first, v, r);
      WantedHereOrLater(h, m, c, i, VirtSet(st), VirtSet(v.st), VirtSet(r.0), s);
      if WantedHere(i, VirtSet(v.st), s) {
        VisitRecordsAll(h, m, st, c, i, access, first, v, s);
      } else {
        WalkRecordsAll(h, m, v.st, c, i + 1, found || v.hit, access, first, r, s);
      }
      RecordedHereOrLater(h, m, c, i, st, v.st, r.0, s);
    }
  }

  lemma {:induction false} SearchRecordsAll(h: Lattice, m: Criterion, st: State, c: nat, s: Subobject)
    requires c < |h| && OnClasses(m)
    requires Wanted(h, m, c, 0, VirtSet(st), VirtSet(Search(h, m, RECORDING, st, c).0), s)
    ensures Recorded(h, m, c, st.scratch, Search(h, m, RECORDING, st, c).0.paths, |st.paths|, s)
    decreases c, |h[c]| + 2
  {
    WalkRecordsAll(h, m, st, c, 0, false, st.access, st.scratch == [], Search(h, m, RECORDING, st, c), s);
  }

  // ---------- Exactly the first matches ----------

  /** Both parts of an approach are approaches, and the first part meets nothing. */
  lemma {:induction false} ApproachSplits(h: Lattice, m: Criterion, c: nat, p: seq<nat>, q: seq<nat>)
    requires c < |h| && IsPath(h, c, p + q) && Approaches(h, m, c, p + q) && p != []
    ensures IsPath(h, c, p) && IsPath(h, End(h, c, p), q)
    ensures Approaches(h, m, c, p) && Approaches(h, m, End(h, c, p), q)
    ensures q != [] ==> !Hits(m, LastEdge(h, c, p)) && LastEdge(h, End(h, c, p), q) == LastEdge(h, c, p + q)
    decreases |p|
  {
    PathSplits(h, c, p, q);
    assert (p + q)[1..] == p[1..] + q;
    if |p| > 1 {
      ApproachSplits(h, m, h[c][p[0]].cls, p[1..], q);
    } else {
      assert p[1..] == [] && (p + q)[1..] == q;
    }
  }

  /** An approach that ends by a virtual step ends at a virtual base the search has seen. */
  lemma {:induction false} ApproachedIsSeen(h: Lattice, m: Criterion, vs: set<nat>, c: nat, p: seq<nat>)
    requires c < |h| && OnClasses(m) && Closed(h, m, vs, c)
    requires IsPath(h, c, p) && p != [] && Approaches(h, m, c, p) && LastEdge(h, c, p).isVirtual
    requires forall u :: u in vs ==> u < |h| && (m(u, true) || Closed(h, m, vs, u))
    ensures End(h, c, p) in vs
    decreases |p|
  {
    if |p| > 1 {
      ApproachedIsSeen(h, m, vs, h[c][p[0]].cls, p[1..]);
    } else {
      assert p[1..] == [];
    }
  }

  /** The subobject at a first match is wanted from the whole search. */
  lemma {:induction false} FirstMatchIsWanted(h: Lattice, m: Criterion, c: nat, p: seq<nat>)
    requires c < |h| && OnClasses(m) && FirstMatch(h, m, c, p)
    ensures Wanted(h, m, c, 0, {}, VirtSet(Search(h, m, RECORDING, EMPTY, c).0), Denote(h, c, p))
  {
    var vs := VirtSet(Search(h, m, RECORDING, EMPTY, c).0);
    assert VirtSet(EMPTY) == {};
    SearchSees(h, m, RECORDING, EMPTY, c);
    DenoteShape(h, c, p);
    if Denote(h, c, p).start.VirtualBase? {
      var v, steps := Denote(h, c, p).start.cls, Denote(h, c, p).steps;
      var k := EndsBySteps(h, c, p);
      assert p == p[..k] + steps;
      ApproachSplits(h, m, c, p[..k], steps);
      ApproachedIsSeen(h, m, vs, c, p[..k]);
      NVPathsMembers(h, v, End(h, c, p), steps);
      if steps == [] {
        assert p[..k] == p;
      }
    }
  }

  /** For a criterion on classes, the paths recorded by a search from `c` denote exactly the subobjects at
      the end of an inheritance path on which no class but the last matches: none is missed although every
      virtual base is searched once, and nothing else is recorded. */
  lemma {:induction false} RecordedPathsDenoteFirstMatches(h: Lattice, m: Criterion, c: nat, s: Subobject)
    requires c < |h| && OnClasses(m)
    ensures Recorded(h, m, c, [], Search(h, m, RECORDING, EMPTY, c).0.paths, 0, s) <==>
            exists p :: FirstMatch(h, m, c, p) && Denote(h, c, p) == s
  {
    var r := Search(h, m, RECORDING, EMPTY, c).0;
    assert VirtSet(EMPTY) == {};
    forall p | FirstMatch(h, m, c, p)
      ensures Recorded(h, m, c, [], r.paths, 0, Denote(h, c, p))
    {
      FirstMatchIsWanted(h, m, c, p);
      SearchRecordsAll(h, m, EMPTY, c, Denote(h, c, p));
    }
    if Recorded(h, m, c, [], r.paths, 0, s) {
      var j :| 0 <= j < |r.paths| && Extends(h, m, c, [], r.paths[j], s);
      assert FirstMatch(h, m, c, Steps(r.paths[j].elements[0..]));
    }
  }

  /** Every path to `b` meets it first at its end. */
  lemma {:induction false} ToClassApproaches(h: Lattice, b: nat, c: nat, p: seq<nat>)
    requires c < |h| && IsPath(h, c, p) && End(h, c, p) == b
    ensures Approaches(h, ToClass(b), c, p)
    decreases |p|
  {
    if |p| > 1 {
      ToClassApproaches(h, b, h[c][p[0]].cls, p[1..]);
    }
  }

  /** The paths recorded by a search from `c` for its proper base `b` denote exactly the subobjects of
      class `b`. */
  lemma {:induction false} RecordedPathsDenoteSubobjects(h: Lattice, c: nat, b: nat, s: Subobject)
    requires c < |h| && b < |h| && b != c
    ensures Recorded(h, ToClass(b), c, [], Search(h, ToClass(b), RECORDING, EMPTY, c).0.paths, 0, s) <==>
            IsSubobject(h, c, b, s)
  {
    RecordedPathsDenoteFirstMatches(h, ToClass(b), c, s);
    forall p | IsPath(h, c, p) && End(h, c, p) == b
      ensures FirstMatch(h, ToClass(b), c, p)
    {
      ToClassApproaches(h, b, c, p);
      assert LastEdge(h, c, p).cls == b;
    }
    forall p | FirstMatch(h, ToClass(b), c, p)
      ensures End(h, c, p) == b
    {
      assert LastEdge(h, c, p).cls == b;
    }
  }

  // ---------- The access along a recorded path ----------

  /** The access computed step by step from the top of the path. */
  function TopDown(accesses: seq<Access>): Access
    requires NoAccess !in accesses
  {
    if accesses == [] then Public
    else if |accesses| == 1 then accesses[0]
    else MergeAccess(TopDown(accesses[..|accesses| - 1]), accesses[|accesses| - 1])
  }

  /** The rule it implements: `private` anywhere but first denies access, and otherwise the most
      restrictive access on the path counts. */
  lemma {:induction false} TopDownIsTheRule(accesses: seq<Access>)
    requires accesses != [] && NoAccess !in accesses
    ensures TopDown(accesses) == NoAccess <==> exists k :: 1 <= k < |accesses| && accesses[k] == Private
    ensures TopDown(accesses) != NoAccess ==>
      TopDown(accesses) in accesses &&
      forall k :: 0 <= k < |accesses| ==> Rank(accesses[k]) <= Rank(TopDown(accesses))
    decreases |accesses|
  {
    if |accesses| > 1 {
      var front, last := accesses[..|accesses| - 1], accesses[|accesses| - 1];
      TopDownIsTheRule(front);
      if TopDown(front) == NoAccess {
        var k :| 1 <= k < |front| && front[k] == Private;
        assert accesses[k] == Private;
      } else if last != Private {
        assert forall k :: 0 <= k < |front| ==> accesses[k] == front[k];
      }
    }
  }

  ghost predicate InHierarchy(h: Lattice, es: seq<PathElement>) {
    forall k :: 0 <= k < |es| ==> es[k].record < |h| && es[k].base < |h[es[k].record]|
  }

  function Accesses(h: Lattice, es: seq<PathElement>): (r: seq<Access>)
    requires InHierarchy(h, es)
    ensures |r| == |es| && NoAccess !in r
  {
    seq(|es|, k requires 0 <= k < |es| => h[es[k].record][es[k].base].access)
  }

  /** The access carried by every path recorded after the first `k` is that of its elements. */
  ghost predicate AccessesAgree(h: Lattice, paths: seq<BasePath>, k: nat) {
    forall j :: k <= j < |paths| ==>
      InHierarchy(h, paths[j].elements) && paths[j].access == TopDown(Accesses(h, paths[j].elements))
  }

  /** `access` and `first` describe the path `scratch`. */
  ghost predicate AccessOf(h: Lattice, scratch: seq<PathElement>, access: Access, first: bool) {
    && InHierarchy(h, scratch)
    && first == (scratch == [])
    && (!first ==> access == TopDown(Accesses(h, scratch)))
  }

  lemma EnterAccess(h: Lattice, st: State, c: nat, i: nat, access: Access, first: bool)
    requires c < |h| && i < |h[c]| && AccessOf(h, st.scratch, access, first)
    ensures var entered := Enter(h, RECORDING, st, c, i, access, first);
      AccessOf(h, entered.scratch, entered.access, false)
  {
    var entered := Enter(h, RECORDING, st, c, i, access, first);
    var all := Accesses(h, entered.scratch);
    assert all[..|all| - 1] == Accesses(h, st.scratch);
  }

  lemma {:induction false} VisitAccess(h: Lattice, m: Criterion, st: State, c: nat, i: nat,
                                       access: Access, first: bool, v: Visited)
    requires c < |h| && i < |h[c]| && v == Visit(h, m, RECORDING, st, c, i, access, first)
    requires AccessOf(h, st.scratch, access, first)
    ensures AccessesAgree(h, v.st.paths, |st.paths|)
    decreases c, 0
  {
    var e := h[c][i];
    EnterAccess(h, st, c, i, access, first);
    if !Hits(m, e) && (!e.isVirtual || !CountOf(st.counts, e.cls).isVirt) {
      SearchAccess(h, m, Enter(h, RECORDING, st, c, i, access, first), e.cls);
    }
  }

  lemma {:induction false} WalkAccess(h: Lattice, m: Criterion, st: State, c: nat, i: nat, found: bool,
                                      access: Access, first: bool, r: (State, bool))
    requires c < |h| && i <= |h[c]| && r == Walk(h, m, RECORDING, st, c, i, found, access, first)
    requires AccessOf(h, st.scratch, access, first)
    ensures AccessesAgree(h, r.0.paths, |st.paths|)
    decreases c, |h[c]| - i + 1
  {
    if i < |h[c]| {
      var v := Visit(h, m, RECORDING, st, c, i, access, first);
      VisitAccess(h, m, st, c, i, access, first, v);
      VisitRestores(h, m, RECORDING, st, c, i, access, first, v);
      WalkAccess(h, m, v.st, c, i + 1, found || v.hit, access, first, r);
      WalkRestores(h, m, RECORDING, v.st, c, i + 1, found || v.hit, access, first, r);
    }
  }

  /** The top-down access of every recorded path is the one its own base specifiers give. */
  lemma {:induction false} SearchAccess(h: Lattice, m: Criterion, st: State, c: nat)
    requires c < |h| && AccessOf(h, st.scratch, st.access, st.scratch == [])
    ensures AccessesAgree(h, Search(h, m, RECORDING, st, c).0.paths, |st.paths|)
    decreases c, |h[c]| + 2
  {
    WalkAccess(h, m, st, c, 0, false, st.access, st.scratch == [], Search(h, m, RECORDING, st, c));
  }
}
