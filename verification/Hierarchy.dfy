/// Class hierarchies: direct bases, inheritance paths and the subobjects they denote.

module Hierarchy {
  import opened Prelude

  datatype Access = Public | Protected | Private | NoAccess

  /** One base specifier of a class: the base class, `virtual` or not, and the access written. */
  datatype BaseSpec = BaseSpec(cls: nat, isVirtual: bool, access: Access)

  /** Classes are numbered in the order in which they are completed. A base class is complete
      before the class that names it, so every direct base has a smaller number. */
  ghost predicate WellFormed(h: seq<seq<BaseSpec>>) {
    forall c, i :: 0 <= c < |h| && 0 <= i < |h[c]| ==> h[c][i].cls < c && h[c][i].access != NoAccess
  }

  type Lattice = h: seq<seq<BaseSpec>> | WellFormed(h) witness []

  /** What a lookup asks of a base specifier: the class it names and whether it is virtual. */
  type Criterion = (nat, bool) -> bool

  predicate Hits(m: Criterion, e: BaseSpec) {
    m(e.cls, e.isVirtual)
  }

  // ---------- Inheritance paths ----------

  /** `p` lists, from `c` downwards, the index of the base specifier taken at each step. */
  predicate IsPath(h: Lattice, c: nat, p: seq<nat>)
    requires c < |h|
    decreases |p|
  {
    p == [] || (p[0] < |h[c]| && IsPath(h, h[c][p[0]].cls, p[1..]))
  }

  function End(h: Lattice, c: nat, p: seq<nat>): (e: nat)
    requires c < |h| && IsPath(h, c, p)
    ensures e < |h| && e <= c && (p != [] ==> e < c)
    decreases |p|
  {
    if p == [] then c else End(h, h[c][p[0]].cls, p[1..])
  }

  /** The last base specifier taken on a nonempty path. */
  function LastEdge(h: Lattice, c: nat, p: seq<nat>): (e: BaseSpec)
    requires c < |h| && IsPath(h, c, p) && p != []
    ensures e.cls == End(h, c, p)
    decreases |p|
  {
    if |p| == 1 then h[c][p[0]] else LastEdge(h, h[c][p[0]].cls, p[1..])
  }

  // ---------- Subobjects ----------

  /** Where the non-virtual part of a path to a subobject starts. */
  datatype Start = MostDerived | VirtualBase(cls: nat)

  /** A subobject is named by its start and the non-virtual steps below it. */
  datatype Subobject = Subobject(start: Start, steps: seq<nat>)

  /** The subobject at the end of a path: every step up to the last virtual one is forgotten,
      because a virtual base class is one and the same subobject however it is reached. */
  function Denote(h: Lattice, c: nat, p: seq<nat>): Subobject
    requires c < |h| && IsPath(h, c, p)
    decreases |p|
  {
    if p == [] then Subobject(MostDerived, [])
    else
      var e := h[c][p[0]];
      var d := Denote(h, e.cls, p[1..]);
      if d.start.VirtualBase? then d
      else if e.isVirtual then Subobject(VirtualBase(e.cls), d.steps)
      else Subobject(MostDerived, [p[0]] + d.steps)
  }

  /** `s` is a subobject of class `b` in an object of class `c`. */
  ghost predicate IsSubobject(h: Lattice, c: nat, b: nat, s: Subobject)
    requires c < |h|
  {
    exists p :: IsPath(h, c, p) && End(h, c, p) == b && Denote(h, c, p) == s
  }

  /** `v` is a direct or indirect virtual base class of `c`. */
  predicate IsVBase(h: Lattice, c: nat, v: nat)
    requires c < |h|
    decreases c
  {
    exists i :: 0 <= i < |h[c]| &&
      ((h[c][i].isVirtual && h[c][i].cls == v) || IsVBase(h, h[c][i].cls, v))
  }

  function VBases(h: Lattice, c: nat): set<nat>
    requires c < |h|
  {
    set v | 0 <= v < c && IsVBase(h, c, v)
  }

  lemma {:induction false} VBaseBelow(h: Lattice, c: nat, v: nat)
    requires c < |h| && IsVBase(h, c, v)
    ensures v < c
    decreases c
  {
    var i :| 0 <= i < |h[c]| && ((h[c][i].isVirtual && h[c][i].cls == v) || IsVBase(h, h[c][i].cls, v));
    if !(h[c][i].isVirtual && h[c][i].cls == v) {
      VBaseBelow(h, h[c][i].cls, v);
    }
  }

  /** Every path of `ps` with the step `k` put in front. */
  function PrependAll(k: nat, ps: seq<seq<nat>>): (r: seq<seq<nat>>)
    ensures |r| == |ps| && forall j :: 0 <= j < |ps| ==> r[j] == [k] + ps[j]
  {
    seq(|ps|, j requires 0 <= j < |ps| => [k] + ps[j])
  }

  /** The non-virtual paths from `c` to `b`, each once. */
  function NVPaths(h: Lattice, c: nat, b: nat): seq<seq<nat>>
    requires c < |h|
    decreases c, |h[c]| + 1
  {
    (if c == b then [[]] else []) + NVPathsUpTo(h, c, |h[c]|, b)
  }

  function NVPathsUpTo(h: Lattice, c: nat, n: nat, b: nat): (ps: seq<seq<nat>>)
    requires c < |h| && n <= |h[c]|
    decreases c, n
  {
    if n == 0 then []
    else if h[c][n - 1].isVirtual then NVPathsUpTo(h, c, n - 1, b)
    else NVPathsUpTo(h, c, n - 1, b) + PrependAll(n - 1, NVPaths(h, h[c][n - 1].cls, b))
  }

  /** How many non-virtual paths of at least one step lead from `c` to `b`. */
  function NVCount(h: Lattice, c: nat, b: nat): nat
    requires c < |h|
    decreases c, |h[c]| + 1
  {
    NVCountUpTo(h, c, |h[c]|, b)
  }

  function NVCountUpTo(h: Lattice, c: nat, n: nat, b: nat): nat
    requires c < |h| && n <= |h[c]|
    decreases c, n
  {
    if n == 0 then 0
    else if h[c][n - 1].isVirtual then NVCountUpTo(h, c, n - 1, b)
    else NVCountUpTo(h, c, n - 1, b) + NVCount(h, h[c][n - 1].cls, b) + if h[c][n - 1].cls == b then 1 else 0
  }

  lemma {:induction false} NVCountIsLength(h: Lattice, c: nat, b: nat)
    requires c < |h|
    ensures |NVPaths(h, c, b)| == NVCount(h, c, b) + if c == b then 1 else 0
    decreases c, |h[c]| + 1
  {
    NVCountUpToIsLength(h, c, |h[c]|, b);
  }

  lemma {:induction false} NVCountUpToIsLength(h: Lattice, c: nat, n: nat, b: nat)
    requires c < |h| && n <= |h[c]|
    ensures |NVPathsUpTo(h, c, n, b)| == NVCountUpTo(h, c, n, b)
    decreases c, n
  {
    if n > 0 {
      NVCountUpToIsLength(h, c, n - 1, b);
      if !h[c][n - 1].isVirtual {
        NVCountIsLength(h, h[c][n - 1].cls, b);
      }
    }
  }

  /** Membership in `NVPaths`, said without recursion on the hierarchy. */
  lemma {:induction false} NVPathsMembers(h: Lattice, c: nat, b: nat, p: seq<nat>)
    requires c < |h|
    ensures p in NVPaths(h, c, b) <==>
            IsPath(h, c, p) && End(h, c, p) == b && Denote(h, c, p) == Subobject(MostDerived, p)
    decreases |p|
  {
    NVPathsUpToMembers(h, c, |h[c]|, b, p);
    if p != [] && p[0] < |h[c]| {
      NVPathsMembers(h, h[c][p[0]].cls, b, p[1..]);
      assert p == [p[0]] + p[1..];
    }
  }

  lemma {:induction false} NVPathsUpToMembers(h: Lattice, c: nat, n: nat, b: nat, p: seq<nat>)
    requires c < |h| && n <= |h[c]|
    ensures p in NVPathsUpTo(h, c, n, b) <==>
            p != [] && p[0] < n && !h[c][p[0]].isVirtual && p[1..] in NVPaths(h, h[c][p[0]].cls, b)
    decreases n
  {
    if n > 0 {
      NVPathsUpToMembers(h, c, n - 1, b, p);
      PrependAllMembers(n - 1, NVPaths(h, h[c][n - 1].cls, b), p);
    }
  }

  lemma PrependAllMembers(k: nat, ps: seq<seq<nat>>, p: seq<nat>)
    ensures p in PrependAll(k, ps) <==> p != [] && p[0] == k && p[1..] in ps
  {
    if p != [] && p[0] == k && p[1..] in ps {
      var j :| 0 <= j < |ps| && ps[j] == p[1..];
      assert PrependAll(k, ps)[j] == [k] + p[1..] == p;
    }
    forall j | 0 <= j < |ps|
      ensures ([k] + ps[j])[1..] == ps[j]
    {
    }
  }

  lemma {:induction false} NVPathsDistinct(h: Lattice, c: nat, b: nat)
    requires c < |h|
    ensures NoRepeats(NVPaths(h, c, b))
    decreases c, |h[c]| + 1
  {
    NVPathsUpToDistinct(h, c, |h[c]|, b);
    NVPathsUpToMembers(h, c, |h[c]|, b, []);
  }

  lemma {:induction false} NVPathsUpToDistinct(h: Lattice, c: nat, n: nat, b: nat)
    requires c < |h| && n <= |h[c]|
    ensures NoRepeats(NVPathsUpTo(h, c, n, b))
    decreases c, n
  {
    if n > 0 {
      NVPathsUpToDistinct(h, c, n - 1, b);
      if !h[c][n - 1].isVirtual {
        var before, added := NVPathsUpTo(h, c, n - 1, b), NVPaths(h, h[c][n - 1].cls, b);
        NVPathsDistinct(h, h[c][n - 1].cls, b);
        var after := PrependAll(n - 1, added);
        forall i, j | 0 <= i < |before| && 0 <= j < |after|
          ensures before[i] != after[j]
        {
          NVPathsUpToMembers(h, c, n - 1, b, before[i]);
        }
        forall i, j | 0 <= i < j < |added|
          ensures [n - 1] + added[i] != [n - 1] + added[j]
        {
          assert ([n - 1] + added[i])[1..] == added[i] && ([n - 1] + added[j])[1..] == added[j];
        }
      }
    }
  }

  // ---------- All subobjects of one class ----------

  /** Every non-virtual path of `ps`, named as a subobject below `start`. */
  function Below(start: Start, ps: seq<seq<nat>>): (r: seq<Subobject>)
    ensures |r| == |ps| && forall j :: 0 <= j < |ps| ==> r[j] == Subobject(start, ps[j])
  {
    seq(|ps|, j requires 0 <= j < |ps| => Subobject(start, ps[j]))
  }

  /** The subobjects of class `b` that lie in the virtual bases `vs` numbered below `n`. */
  function BelowVirtual(h: Lattice, vs: set<nat>, n: nat, b: nat): seq<Subobject>
    requires n <= |h|
  {
    if n == 0 then []
    else if n - 1 !in vs then BelowVirtual(h, vs, n - 1, b)
    else BelowVirtual(h, vs, n - 1, b) + Below(VirtualBase(n - 1), NVPaths(h, n - 1, b))
  }

  /** The subobjects of class `b` in an object of class `c`, each once. */
  function SubobjectList(h: Lattice, c: nat, b: nat): seq<Subobject>
    requires c < |h|
  {
    Below(MostDerived, NVPaths(h, c, b)) + BelowVirtual(h, VBases(h, c), |h|, b)
  }

  function Subobjects(h: Lattice, c: nat, b: nat): set<Subobject>
    requires c < |h|
  {
    set s | s in SubobjectList(h, c, b)
  }

  lemma {:induction false} BelowVirtualMembers(h: Lattice, vs: set<nat>, n: nat, b: nat, s: Subobject)
    requires n <= |h|
    ensures s in BelowVirtual(h, vs, n, b) <==>
            s.start.VirtualBase? && s.start.cls in vs && s.start.cls < n && s.steps in NVPaths(h, s.start.cls, b)
    decreases n
  {
    if n > 0 {
      BelowVirtualMembers(h, vs, n - 1, b, s);
      BelowMembers(VirtualBase(n - 1), NVPaths(h, n - 1, b), s);
    }
  }

  lemma BelowMembers(start: Start, ps: seq<seq<nat>>, s: Subobject)
    ensures s in Below(start, ps) <==> s.start == start && s.steps in ps
  {
    if s.start == start && s.steps in ps {
      var j :| 0 <= j < |ps| && ps[j] == s.steps;
      assert Below(start, ps)[j] == s;
    }
  }

  lemma {:induction false} BelowVirtualDistinct(h: Lattice, vs: set<nat>, n: nat, b: nat)
    requires n <= |h|
    ensures NoRepeats(BelowVirtual(h, vs, n, b))
    decreases n
  {
    if n > 0 {
      BelowVirtualDistinct(h, vs, n - 1, b);
      NVPathsDistinct(h, n - 1, b);
      var before := BelowVirtual(h, vs, n - 1, b);
      forall i | 0 <= i < |before|
        ensures before[i].start != VirtualBase(n - 1)
      {
        BelowVirtualMembers(h, vs, n - 1, b, before[i]);
      }
    }
  }

  /** What a path denotes: its last virtual base, if any, and the non-virtual rest. */
  lemma {:induction false} DenoteShape(h: Lattice, c: nat, p: seq<nat>)
    requires c < |h| && IsPath(h, c, p)
    ensures var d := Denote(h, c, p);
      match d.start
      case MostDerived => d.steps == p
      case VirtualBase(v) => v < c && IsVBase(h, c, v) && d.steps in NVPaths(h, v, End(h, c, p))
    decreases |p|
  {
    if p != [] {
      var e := h[c][p[0]];
      DenoteShape(h, e.cls, p[1..]);
      if Denote(h, e.cls, p[1..]).start.MostDerived? {
        NVPathsMembers(h, e.cls, End(h, e.cls, p[1..]), p[1..]);
      }
    }
  }

  /** Every virtual base is reached by a path whose last step is the virtual one. */
  lemma {:induction false} PathThroughVirtual(h: Lattice, c: nat, v: nat, q: seq<nat>) returns (p: seq<nat>)
    requires c < |h| && IsVBase(h, c, v) && v < c
    requires IsPath(h, v, q) && Denote(h, v, q).start.MostDerived?
    ensures IsPath(h, c, p) && End(h, c, p) == End(h, v, q)
    ensures Denote(h, c, p) == Subobject(VirtualBase(v), q)
    decreases c
  {
    DenoteShape(h, v, q);
    var i :| 0 <= i < |h[c]| && ((h[c][i].isVirtual && h[c][i].cls == v) || IsVBase(h, h[c][i].cls, v));
    var rest := q;
    if !(h[c][i].isVirtual && h[c][i].cls == v) {
      VBaseBelow(h, h[c][i].cls, v);
      rest := PathThroughVirtual(h, h[c][i].cls, v, q);
    }
    p := [i] + rest;
    assert p[1..] == rest;
  }

  /** The list holds exactly the subobjects denoted by the inheritance paths from `c` to `b`. */
  lemma {:induction false} SubobjectListMembers(h: Lattice, c: nat, b: nat, s: Subobject)
    requires c < |h|
    ensures s in SubobjectList(h, c, b) <==> IsSubobject(h, c, b, s)
  {
    BelowMembers(MostDerived, NVPaths(h, c, b), s);
    BelowVirtualMembers(h, VBases(h, c), |h|, b, s);
    if IsSubobject(h, c, b, s) {
      var p :| IsPath(h, c, p) && End(h, c, p) == b && Denote(h, c, p) == s;
      DenoteShape(h, c, p);
      NVPathsMembers(h, c, b, p);
    } else if s in Below(MostDerived, NVPaths(h, c, b)) {
      NVPathsMembers(h, c, b, s.steps);
    } else if s in BelowVirtual(h, VBases(h, c), |h|, b) {
      NVPathsMembers(h, s.start.cls, b, s.steps);
      var p := PathThroughVirtual(h, c, s.start.cls, s.steps);
      assert IsSubobject(h, c, b, s);
    }
  }

  lemma {:induction false} SubobjectListDistinct(h: Lattice, c: nat, b: nat)
    requires c < |h|
    ensures NoRepeats(SubobjectList(h, c, b))
    ensures |Subobjects(h, c, b)| == |SubobjectList(h, c, b)|
  {
    NVPathsDistinct(h, c, b);
    BelowVirtualDistinct(h, VBases(h, c), |h|, b);
    var rest := BelowVirtual(h, VBases(h, c), |h|, b);
    forall j | 0 <= j < |rest|
      ensures rest[j].start != MostDerived
    {
      BelowVirtualMembers(h, VBases(h, c), |h|, b, rest[j]);
    }
    DistinctSize(SubobjectList(h, c, b));
  }

  /** The number of non-virtual paths of at least one step from the bases `vs` numbered below `n`. */
  function SumBelow(h: Lattice, vs: set<nat>, n: nat, b: nat): nat
    requires n <= |h|
  {
    if n == 0 then 0
    else SumBelow(h, vs, n - 1, b) + if n - 1 in vs then NVCount(h, n - 1, b) else 0
  }

  lemma {:induction false} BelowVirtualLength(h: Lattice, vs: set<nat>, n: nat, b: nat)
    requires n <= |h|
    ensures |BelowVirtual(h, vs, n, b)| == SumBelow(h, vs, n, b) + if b in vs && b < n then 1 else 0
    decreases n
  {
    if n > 0 {
      BelowVirtualLength(h, vs, n - 1, b);
      NVCountIsLength(h, n - 1, b);
    }
  }

  lemma {:induction false} SumBelowDisjoint(h: Lattice, us: set<nat>, vs: set<nat>, n: nat, b: nat)
    requires n <= |h| && us !! vs
    ensures SumBelow(h, us + vs, n, b) == SumBelow(h, us, n, b) + SumBelow(h, vs, n, b)
    decreases n
  {
    if n > 0 {
      SumBelowDisjoint(h, us, vs, n - 1, b);
    }
  }

  lemma {:induction false} SumBelowOne(h: Lattice, v: nat, n: nat, b: nat)
    requires n <= |h|
    ensures SumBelow(h, {v}, n, b) == if v < n then NVCount(h, v, b) else 0
    decreases n
  {
    if n > 0 {
      SumBelowOne(h, v, n - 1, b);
    }
  }
}
