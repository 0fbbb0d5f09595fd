/// Lookup in base classes, with the paths hidden through virtual bases removed afterwards.

module MemberLookup {
  import opened Hierarchy
  import opened BasePathSearch
  import opened SubobjectCounting
  import opened RecordedPaths
  import opened HiddenWeeding
  import opened Containment

  /** A recorded path that leads down from `c` by at least one step. */
  ghost predicate ValidPath(h: Lattice, c: nat, p: BasePath)
    requires c < |h|
  {
    p.elements != [] && Follows(h, c, p.elements)
  }

  predicate InLattice(h: Lattice, p: BasePath) {
    p.elements != [] &&
    forall k :: 0 <= k < |p.elements| ==>
      p.elements[k].record < |h| && p.elements[k].base < |h[p.elements[k].record]|
  }

  function SpecOf(h: Lattice, x: PathElement): BaseSpec
    requires x.record < |h| && x.base < |h[x.record]|
  {
    h[x.record][x.base]
  }

  function LastClass(h: Lattice, p: BasePath): nat
    requires InLattice(h, p)
  {
    SpecOf(h, p.elements[|p.elements| - 1]).cls
  }

  /** Path `q` hides path `p`: the class `q` ends in is virtually derived from a virtual base on `p`. */
  predicate PathHides(h: Lattice, q: BasePath, p: BasePath) {
    InLattice(h, p) && InLattice(h, q) &&
    exists k :: 0 <= k < |p.elements| && SpecOf(h, p.elements[k]).isVirtual &&
      VirtuallyDerives(h, LastClass(h, q), SpecOf(h, p.elements[k]).cls)
  }

  lemma {:induction false} PathsDescend(h: Lattice, c: nat, es: seq<PathElement>, k: nat)
    requires c < |h| && Follows(h, c, es) && k < |es|
    ensures InLattice(h, BasePath(es, Public))
    ensures var v, l := SpecOf(h, es[k]).cls, LastClass(h, BasePath(es, Public));
      v == l || Derives(h, v, l)
    decreases |es|
  {
    var d := h[c][es[0].base].cls;
    if |es| > 1 {
      assert forall j :: 1 <= j < |es| ==> es[j] == es[1..][j - 1];
      PathsDescend(h, d, es[1..], if k == 0 then 0 else k - 1);
      var l := LastClass(h, BasePath(es[1..], Public));
      assert InLattice(h, BasePath(es[1..], Public));
      if k == 0 {
        var e := SpecOf(h, es[1]).cls;
        assert Hits(ToClass(e), h[d][es[1].base]);
        assert Derives(h, d, e);
        if e != l {
          DerivesTransitively(h, ToClass(l), d, e);
        }
      }
    }
  }

  /** Hiding between valid paths is a strict partial order. */
  lemma {:induction false} PathHidingIsStrict(h: Lattice, c: nat, ps: seq<BasePath>)
    requires c < |h| && forall j :: 0 <= j < |ps| ==> ValidPath(h, c, ps[j])
    ensures StrictOrderOn(Hider(h), ps)
  {
    forall p | p in ps
      ensures !PathHides(h, p, p)
    {
      if PathHides(h, p, p) {
        var k :| 0 <= k < |p.elements| && SpecOf(h, p.elements[k]).isVirtual &&
          VirtuallyDerives(h, LastClass(h, p), SpecOf(h, p.elements[k]).cls);
        NotVirtuallyAbove(h, c, p, k);
      }
    }
    forall r, q, p | r in ps && q in ps && p in ps && PathHides(h, r, q) && PathHides(h, q, p)
      ensures PathHides(h, r, p)
    {
      PathHidingChains(h, c, r, q, p);
    }
  }

  lemma {:induction false} NotVirtuallyAbove(h: Lattice, c: nat, p: BasePath, k: nat)
    requires c < |h| && ValidPath(h, c, p) && InLattice(h, p) && k < |p.elements|
    ensures !VirtuallyDerives(h, LastClass(h, p), SpecOf(h, p.elements[k]).cls)
  {
    var v, l := SpecOf(h, p.elements[k]).cls, LastClass(h, p);
    PathsDescend(h, c, p.elements, k);
    if VirtuallyDerives(h, l, v) {
      VBaseIsVirtuallyDerived(h, l, v);
      DerivesBelow(h, l, v);
      if v != l {
        DerivesBelow(h, v, l);
      }
    }
  }

  lemma {:induction false} PathHidingChains(h: Lattice, c: nat, r: BasePath, q: BasePath, p: BasePath)
    requires c < |h| && ValidPath(h, c, q) && PathHides(h, r, q) && PathHides(h, q, p)
    ensures PathHides(h, r, p)
  {
    var k :| 0 <= k < |p.elements| && SpecOf(h, p.elements[k]).isVirtual &&
      VirtuallyDerives(h, LastClass(h, q), SpecOf(h, p.elements[k]).cls);
    var j :| 0 <= j < |q.elements| && SpecOf(h, q.elements[j]).isVirtual &&
      VirtuallyDerives(h, LastClass(h, r), SpecOf(h, q.elements[j]).cls);
    var v, w := SpecOf(h, p.elements[k]).cls, SpecOf(h, q.elements[j]).cls;
    PathsDescend(h, c, q.elements, j);
    if w != LastClass(h, q) {
      DerivesTransitively(h, VirtuallyTo(v), w, LastClass(h, q));
    }
    VBaseIsVirtuallyDerived(h, LastClass(h, r), w);
    DerivesTransitively(h, VirtuallyTo(v), LastClass(h, r), w);
  }

  lemma {:induction false} RecordedPathsAreValid(h: Lattice, m: Criterion, c: nat)
    requires c < |h|
    ensures var ps := Search(h, m, RECORDING, EMPTY, c).0.paths;
      forall j :: 0 <= j < |ps| ==> ValidPath(h, c, ps[j]) && IsMatchingPath(h, m, c, Steps(ps[j].elements))
  {
    var ps := Search(h, m, RECORDING, EMPTY, c).0.paths;
    SearchRecordsMatches(h, m, EMPTY, c);
    forall j | 0 <= j < |ps|
      ensures ValidPath(h, c, ps[j]) && IsMatchingPath(h, m, c, Steps(ps[j].elements))
    {
      assert ExtendsToMatch(h, m, c, [], ps[j]);
      assert ps[j].elements[|EMPTY.scratch|..] == ps[j].elements;
    }
  }

  /** Lookup in the bases of `c`: it succeeds exactly when a match lies below `c`, and with both modes
      on it keeps exactly the recorded paths that no recorded path hides, at least one of them. */
  method LookupInBases(h: Lattice, m: Criterion, c: nat, paths: BasePaths) returns (found: bool)
    requires c < |h| && paths.Value() == EMPTY
    modifies paths
    ensures found <==> MatchBelow(h, m, c)
    ensures found && paths.mode == RECORDING ==>
      var all := Search(h, m, RECORDING, EMPTY, c).0.paths;
      paths.paths == Survivors(Hider(h), all, all) && paths.paths != []
    ensures paths.Value().(paths := []) == Search(h, m, paths.mode, EMPTY, c).0.(paths := [])
  {
    found := paths.LookupInBases(h, m, c);
    SearchIsExact(h, m, paths.mode, c);
    if !found {
      return false;
    }
    if !paths.mode.recordPaths || !paths.mode.findAmbiguities {
      return true;
    }
    RecordedPathsAreValid(h, m, c);
    PathHidingIsStrict(h, c, paths.paths);
    SuccessIsRecorded(h, m, c);
    paths.paths := EraseHidden(paths.paths, Hider(h));
  }

  /** A successful search records a path. */
  lemma {:induction false} SuccessIsRecorded(h: Lattice, m: Criterion, c: nat)
    requires c < |h| && Search(h, m, RECORDING, EMPTY, c).1
    ensures Search(h, m, RECORDING, EMPTY, c).0.paths != []
  {
    WalkRecordsSuccess(h, m, EMPTY, c, 0, false, Public, true, Search(h, m, RECORDING, EMPTY, c));
  }

  lemma {:induction false} WalkRecordsSuccess(h: Lattice, m: Criterion, st: State, c: nat, i: nat, found: bool,
                                              access: Access, first: bool, r: (State, bool))
    requires c < |h| && i <= |h[c]| && r == Walk(h, m, RECORDING, st, c, i, found, access, first)
    requires r.1 && !found
    ensures |r.0.paths| > |st.paths|
    decreases c, |h[c]| - i
  {
    if i < |h[c]| {
      var e := h[c][i];
      var v := Visit(h, m, RECORDING, st, c, i, access, first);
      VisitRestores(h, m, RECORDING, st, c, i, access, first, v);
      WalkRestores(h, m, RECORDING, v.st, c, i + 1, found || v.hit, access, first, r);
      if !v.hit {
        WalkRecordsSuccess(h, m, v.st, c, i + 1, found, access, first, r);
      } else if !Hits(m, e) {
        var entered := Enter(h, RECORDING, st, c, i, access, first);
        WalkRecordsSuccess(h, m, entered, e.cls, 0, false, entered.access, false,
                           Search(h, m, RECORDING, entered, e.cls));
      }
    }
  }

  /** When the lookup is for a base class, no recorded path hides another. */
  lemma {:induction false} BaseLookupHidesNothing(h: Lattice, c: nat, b: nat, p: BasePath, q: BasePath)
    requires c < |h| && ValidPath(h, c, p) && ValidPath(h, c, q)
    requires End(h, c, EndSteps(h, c, p)) == b && End(h, c, EndSteps(h, c, q)) == b
    ensures !PathHides(h, q, p)
  {
    if PathHides(h, q, p) {
      var k :| 0 <= k < |p.elements| && SpecOf(h, p.elements[k]).isVirtual &&
        VirtuallyDerives(h, LastClass(h, q), SpecOf(h, p.elements[k]).cls);
      LastClassIsEnd(h, c, p.elements);
      LastClassIsEnd(h, c, q.elements);
      NotVirtuallyAbove(h, c, p, k);
    }
  }

  function EndSteps(h: Lattice, c: nat, p: BasePath): (s: seq<nat>)
    requires c < |h| && ValidPath(h, c, p)
    ensures IsPath(h, c, s)
  {
    FollowsIsPath(h, c, p.elements);
    Steps(p.elements)
  }

  lemma {:induction false} LastClassIsEnd(h: Lattice, c: nat, es: seq<PathElement>)
    requires c < |h| && Follows(h, c, es) && es != []
    ensures IsPath(h, c, Steps(es)) && InLattice(h, BasePath(es, Public))
    ensures LastClass(h, BasePath(es, Public)) == End(h, c, Steps(es))
    decreases |es|
  {
    FollowsIsPath(h, c, es);
    PathsDescend(h, c, es, 0);
    if |es| > 1 {
      LastClassIsEnd(h, h[c][es[0].base].cls, es[1..]);
      assert Steps(es)[1..] == Steps(es[1..]);
    }
  }

  // ---------- What is found ----------

  /** The proper base classes of `c` that match. */
  function Matching(m: Criterion, c: nat): Property {
    (a: nat) => a != c && m(a, true)
  }

  function Hider(h: Lattice): Hiding<BasePath> {
    (q, p) => PathHides(h, q, p)
  }

  lemma {:induction false} ApproachIsClean(h: Lattice, m: Criterion, c: nat, d: nat, p: seq<nat>)
    requires d < |h| && OnClasses(m) && IsPath(h, d, p)
    ensures Approaches(h, m, d, p) && !Matching(m, c)(d) ==> Clean(h, Matching(m, c), d, p)
    ensures Clean(h, Matching(m, c), d, p) && d <= c ==> Approaches(h, m, d, p)
    decreases |p|
  {
    if p != [] {
      var e := h[d][p[0]];
      assert m(e.cls, true) == m(e.cls, false);
      assert Hits(m, e) == m(e.cls, true);
      ApproachIsClean(h, m, c, e.cls, p[1..]);
      if |p| > 1 && Clean(h, Matching(m, c), d, p) && d <= c {
        assert Clean(h, Matching(m, c), e.cls, p[1..]) && p[1..] != [];
        assert !Matching(m, c)(e.cls) && e.cls != c;
      }
    }
  }

  lemma {:induction false} SpecIsLastEdge(h: Lattice, c: nat, es: seq<PathElement>, k: nat)
    requires c < |h| && Follows(h, c, es) && k < |es|
    ensures InLattice(h, BasePath(es, Public)) && IsPath(h, c, Steps(es)) && IsPath(h, c, Steps(es)[..k + 1])
    ensures SpecOf(h, es[k]) == LastEdge(h, c, Steps(es)[..k + 1])
    decreases k
  {
    PathsDescend(h, c, es, k);
    FollowsIsPath(h, c, es);
    PathPrefix(h, c, Steps(es), k + 1);
    if k > 0 {
      SpecIsLastEdge(h, h[c][es[0].base].cls, es[1..], k - 1);
      assert Steps(es)[..k + 1][1..] == Steps(es[1..])[..k];
    } else {
      assert Steps(es)[..1] == [es[0].base];
    }
  }

  /** A path hides another exactly when the class it ends in is virtually derived from one the other passes. */
  lemma {:induction false} HiddenAt(h: Lattice, c: nat, q: BasePath, p: BasePath, k: nat)
    requires c < |h| && ValidPath(h, c, p) && ValidPath(h, c, q) && k < |p.elements|
    requires IsPath(h, c, Steps(p.elements)[..k + 1]) && LastEdge(h, c, Steps(p.elements)[..k + 1]).isVirtual
    requires VirtuallyDerives(h, End(h, c, EndSteps(h, c, q)), End(h, c, Steps(p.elements)[..k + 1]))
    ensures PathHides(h, q, p)
  {
    SpecIsLastEdge(h, c, p.elements, k);
    LastClassIsEnd(h, c, q.elements);
  }

  /** Path `p` was recorded and ends by its first match. */
  ghost predicate Kept(h: Lattice, m: Criterion, c: nat, all: seq<BasePath>, p: BasePath)
    requires c < |h|
  {
    p in all && ValidPath(h, c, p) && FirstMatch(h, m, c, EndSteps(h, c, p))
  }

  lemma RecordedIsKept(h: Lattice, m: Criterion, c: nat, all: seq<BasePath>, p: BasePath)
    requires c < |h| && all == Search(h, m, RECORDING, EMPTY, c).0.paths && p in all
    ensures Kept(h, m, c, all, p)
  {
    SearchRecordsMatches(h, m, EMPTY, c);
    var j :| 0 <= j < |all| && all[j] == p;
    assert ExtendsToMatch(h, m, c, [], all[j]);
    assert p.elements[0..] == p.elements;
  }

  /** The subobject at any first match is denoted by a recorded path. */
  lemma MatchIsKept(h: Lattice, m: Criterion, c: nat, all: seq<BasePath>, p: seq<nat>) returns (q: BasePath)
    requires c < |h| && OnClasses(m) && all == Search(h, m, RECORDING, EMPTY, c).0.paths && FirstMatch(h, m, c, p)
    ensures Kept(h, m, c, all, q) && Denote(h, c, EndSteps(h, c, q)) == Denote(h, c, p)
    ensures End(h, c, EndSteps(h, c, q)) == End(h, c, p)
  {
    RecordedPathsDenoteFirstMatches(h, m, c, Denote(h, c, p));
    var j :| 0 <= j < |all| && Extends(h, m, c, [], all[j], Denote(h, c, p));
    q := all[j];
    RecordedIsKept(h, m, c, all, q);
    assert q.elements[0..] == q.elements;
    SameClass(h, c, EndSteps(h, c, q), p);
  }

  /** A first match is a match, and its path is clean. */
  lemma KeptIsClean(h: Lattice, m: Criterion, c: nat, p: seq<nat>)
    requires c < |h| && OnClasses(m) && FirstMatch(h, m, c, p)
    ensures Clean(h, Matching(m, c), c, p) && Matching(m, c)(End(h, c, p))
  {
    ApproachIsClean(h, m, c, c, p);
  }

  lemma OutermostIsFirstMatch(h: Lattice, m: Criterion, c: nat, p: seq<nat>)
    requires c < |h| && OnClasses(m) && IsPath(h, c, p) && Matching(m, c)(End(h, c, p))
    requires Outermost(h, Matching(m, c), c, End(h, c, p), Denote(h, c, p))
    ensures FirstMatch(h, m, c, p)
  {
    OutermostIsClean(h, Matching(m, c), c, p);
    ApproachIsClean(h, m, c, c, p);
  }

  /** What no recorded path hides lies in no other matching subobject. */
  lemma {:induction false} UnhiddenIsOutermost(h: Lattice, m: Criterion, c: nat, all: seq<BasePath>, p: BasePath)
    requires c < |h| && OnClasses(m) && all == Search(h, m, RECORDING, EMPTY, c).0.paths
    requires Kept(h, m, c, all, p) && !HiddenIn(Hider(h), all, p)
    ensures var s := EndSteps(h, c, p); Outermost(h, Matching(m, c), c, End(h, c, s), Denote(h, c, s))
  {
    var has, s := Matching(m, c), EndSteps(h, c, p);
    KeptIsClean(h, m, c, s);
    forall r | IsPath(h, c, r) && has(End(h, c, r))
      ensures !Contains(h, End(h, c, r), Denote(h, c, r), End(h, c, s), Denote(h, c, s))
    {
      if Contains(h, End(h, c, r), Denote(h, c, r), End(h, c, s), Denote(h, c, s)) {
        var o := OutermostAbove(h, has, c, r);
        if Contains(h, End(h, c, o), Denote(h, c, o), End(h, c, r), Denote(h, c, r)) {
          ContainsTransitively(h, End(h, c, o), Denote(h, c, o), End(h, c, r), Denote(h, c, r), End(h, c, s),
                               Denote(h, c, s));
        }
        HiddenByOutermost(h, m, c, all, p, o);
      }
    }
  }

  lemma {:induction false} HiddenByOutermost(h: Lattice, m: Criterion, c: nat, all: seq<BasePath>, p: BasePath,
                                             o: seq<nat>)
    requires c < |h| && OnClasses(m) && all == Search(h, m, RECORDING, EMPTY, c).0.paths && Kept(h, m, c, all, p)
    requires IsPath(h, c, o) && Matching(m, c)(End(h, c, o))
    requires Outermost(h, Matching(m, c), c, End(h, c, o), Denote(h, c, o))
    requires Contains(h, End(h, c, o), Denote(h, c, o), End(h, c, EndSteps(h, c, p)), Denote(h, c, EndSteps(h, c, p)))
    ensures HiddenIn(Hider(h), all, p)
  {
    var s := EndSteps(h, c, p);
    OutermostIsFirstMatch(h, m, c, o);
    var q := MatchIsKept(h, m, c, all, o);
    KeptIsClean(h, m, c, s);
    CleanContainedVirtually(h, Matching(m, c), c, s, o);
    var k := EndsBySteps(h, c, s);
    HiddenAt(h, c, q, p, k - 1);
    assert Hider(h)(q, p);
  }

  /** What lies in no other matching subobject is hidden by no recorded path. */
  lemma {:induction false} OutermostIsUnhidden(h: Lattice, m: Criterion, c: nat, all: seq<BasePath>, p: BasePath)
    requires c < |h| && OnClasses(m) && all == Search(h, m, RECORDING, EMPTY, c).0.paths && Kept(h, m, c, all, p)
    requires var s := EndSteps(h, c, p); Outermost(h, Matching(m, c), c, End(h, c, s), Denote(h, c, s))
    ensures !HiddenIn(Hider(h), all, p)
  {
    forall q | q in all
      ensures !PathHides(h, q, p)
    {
      if PathHides(h, q, p) {
        var k :| 0 <= k < |p.elements| && SpecOf(h, p.elements[k]).isVirtual &&
          VirtuallyDerives(h, LastClass(h, q), SpecOf(h, p.elements[k]).cls);
        RecordedIsKept(h, m, c, all, q);
        LastClassIsEnd(h, c, q.elements);
        SpecIsLastEdge(h, c, p.elements, k);
        KeptIsClean(h, m, c, EndSteps(h, c, q));
        HiderContains(h, c, EndSteps(h, c, q), EndSteps(h, c, p), k + 1);
      }
    }
  }

  /** A subobject reached through a virtual base of a class lies in every subobject of that class. */
  lemma {:induction false} HiderContains(h: Lattice, c: nat, r: seq<nat>, s: seq<nat>, k: nat)
    requires c < |h| && IsPath(h, c, r) && IsPath(h, c, s) && 0 < k <= |s|
    requires IsPath(h, c, s[..k]) && LastEdge(h, c, s[..k]).isVirtual
    requires VirtuallyDerives(h, End(h, c, r), End(h, c, s[..k]))
    ensures Contains(h, End(h, c, r), Denote(h, c, r), End(h, c, s), Denote(h, c, s))
  {
    PathPrefix(h, c, s, k);
    VirtualEnd(h, c, s[..k]);
    InVirtualBase(h, End(h, c, r), Denote(h, c, r), End(h, c, s[..k]), s[k..]);
  }

  ghost predicate Denotes(h: Lattice, c: nat, p: BasePath, s: Subobject)
    requires c < |h|
  {
    ValidPath(h, c, p) && Denote(h, c, EndSteps(h, c, p)) == s
  }

  /** `s` is a matching proper base subobject of an object of class `c` that lies in no other. */
  ghost predicate OutermostMatch(h: Lattice, m: Criterion, c: nat, s: Subobject, p: seq<nat>)
    requires c < |h|
  {
    && IsPath(h, c, p) && Denote(h, c, p) == s && Matching(m, c)(End(h, c, p))
    && Outermost(h, Matching(m, c), c, End(h, c, p), s)
  }

  /** For a criterion on classes, the paths that survive the lookup denote exactly the matching subobjects
      that are not base subobjects of another matching one. */
  lemma {:induction false} LookupFindsOutermost(h: Lattice, m: Criterion, c: nat, s: Subobject)
    requires c < |h| && OnClasses(m)
    ensures var all := Search(h, m, RECORDING, EMPTY, c).0.paths;
      (exists p :: p in Survivors(Hider(h), all, all) && Denotes(h, c, p, s)) <==>
      (exists p :: OutermostMatch(h, m, c, s, p))
  {
    var all := Search(h, m, RECORDING, EMPTY, c).0.paths;
    forall p | p in Survivors(Hider(h), all, all) && Denotes(h, c, p, s)
      ensures OutermostMatch(h, m, c, s, EndSteps(h, c, p))
    {
      SurvivorsMembers(Hider(h), all, all, p);
      RecordedIsKept(h, m, c, all, p);
      UnhiddenIsOutermost(h, m, c, all, p);
      KeptIsClean(h, m, c, EndSteps(h, c, p));
    }
    forall p | OutermostMatch(h, m, c, s, p)
      ensures exists q :: q in Survivors(Hider(h), all, all) && Denotes(h, c, q, s)
    {
      OutermostIsFirstMatch(h, m, c, p);
      var q := MatchIsKept(h, m, c, all, p);
      OutermostIsUnhidden(h, m, c, all, q);
      SurvivorsMembers(Hider(h), all, all, q);
      assert Denotes(h, c, q, s);
    }
  }
}
