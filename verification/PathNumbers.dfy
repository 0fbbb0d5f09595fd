/// The subobject numbers on recorded paths: they tell the subobjects of the class searched for apart.

module PathNumbers {
  import opened Prelude
  import opened Hierarchy
  import opened BasePathSearch
  import opened SubobjectCounting
  import opened RecordedPaths
  import opened Containment

  /** The last step of a recorded path is a virtual one. */
  predicate EndsVirtually(h: Lattice, p: BasePath) {
    p.elements != [] &&
    var x := p.elements[|p.elements| - 1];
    x.record < |h| && x.base < |h[x.record]| && h[x.record][x.base].isVirtual
  }

  /** The subobject number at the end of a path. */
  function LastNumber(p: BasePath): nat {
    if p.elements == [] then 0 else p.elements[|p.elements| - 1].number
  }

  function Flags(h: Lattice, paths: seq<BasePath>): (r: seq<bool>)
    ensures |r| == |paths|
  {
    seq(|paths|, j requires 0 <= j < |paths| => EndsVirtually(h, paths[j]))
  }

  function Numbers(paths: seq<BasePath>): (r: seq<nat>)
    ensures |r| == |paths|
  {
    seq(|paths|, j requires 0 <= j < |paths| => LastNumber(paths[j]))
  }

  /** How many of the first `n` are ordinary, that is, not flagged as virtual. */
  function Ordinary(flags: seq<bool>, n: nat): nat
    requires n <= |flags|
  {
    if n == 0 then 0
    else Ordinary(flags, n - 1) + if flags[n - 1] then 0 else 1
  }

  /** A number as the 31-bit counter holds it. */
  function Wrapped(n: nat): (r: nat)
    ensures n < COUNT_LIMIT ==> r == n
  {
    n % COUNT_LIMIT
  }

  /** Number `j` is 0 after a virtual step, otherwise its place among the ordinary ones. */
  predicate NumberedAt(flags: seq<bool>, numbers: seq<nat>, j: nat)
    requires j < |flags| == |numbers|
  {
    numbers[j] == if flags[j] then 0 else Wrapped(Ordinary(flags, j + 1))
  }

  ghost predicate Numbered(flags: seq<bool>, numbers: seq<nat>) {
    |flags| == |numbers| &&
    forall j: nat {:trigger NumberedAt(flags, numbers, j)} :: j < |flags| ==> NumberedAt(flags, numbers, j)
  }

  /** All paths recorded so far carry their numbers, and the counter of `b` has kept pace. */
  ghost predicate InStep(h: Lattice, b: nat, st: State) {
    && CountOf(st.counts, b).num == Wrapped(Ordinary(Flags(h, st.paths), |st.paths|))
    && Numbered(Flags(h, st.paths), Numbers(st.paths))
  }

  lemma {:induction false} OrdinaryOfPrefix(flags: seq<bool>, more: seq<bool>, n: nat)
    requires flags <= more && n <= |flags|
    ensures Ordinary(more, n) == Ordinary(flags, n)
  {
    if n > 0 {
      OrdinaryOfPrefix(flags, more, n - 1);
    }
  }

  /** One more path with the next number keeps the numbering. */
  lemma {:induction false} NumberedFurther(flags: seq<bool>, numbers: seq<nat>, flag: bool, number: nat)
    requires Numbered(flags, numbers) && number == if flag then 0 else Wrapped(Ordinary(flags, |flags|) + 1)
    ensures Numbered(flags + [flag], numbers + [number])
    ensures Ordinary(flags + [flag], |flags| + 1) == Ordinary(flags, |flags|) + if flag then 0 else 1
  {
    OrdinaryOfPrefix(flags, flags + [flag], |flags|);
    forall j: nat | j < |flags| + 1
      ensures NumberedAt(flags + [flag], numbers + [number], j)
    {
      if j < |flags| {
        assert NumberedAt(flags, numbers, j);
        OrdinaryOfPrefix(flags, flags + [flag], j + 1);
      }
    }
  }

  lemma WrapNext(n: nat)
    ensures (Wrapped(n) + 1) % COUNT_LIMIT == Wrapped(n + 1)
  {
  }

  lemma KeepInStep(h: Lattice, b: nat, st: State, c: nat, i: nat, access: Access, first: bool)
    requires c < |h| && i < |h[c]| && h[c][i].cls == b && InStep(h, b, st)
    ensures InStep(h, b, Keep(Enter(h, RECORDING, st, c, i, access, first)))
  {
    var entered := Enter(h, RECORDING, st, c, i, access, first);
    var p := BasePath(entered.scratch, entered.access);
    assert p.elements[|p.elements| - 1] == entered.scratch[|st.scratch|];
    assert EndsVirtually(h, p) == h[c][i].isVirtual;
    WrapNext(Ordinary(Flags(h, st.paths), |st.paths|));
    NumberedFurther(Flags(h, st.paths), Numbers(st.paths), EndsVirtually(h, p), LastNumber(p));
    assert Flags(h, st.paths + [p]) == Flags(h, st.paths) + [EndsVirtually(h, p)];
    assert Numbers(st.paths + [p]) == Numbers(st.paths) + [LastNumber(p)];
  }

  lemma {:induction false} VisitInStep(h: Lattice, b: nat, st: State, c: nat, i: nat, access: Access, first: bool,
                                       v: Visited)
    requires c < |h| && i < |h[c]| && v == Visit(h, ToClass(b), RECORDING, st, c, i, access, first) && InStep(h, b, st)
    ensures InStep(h, b, v.st)
    decreases c, 0
  {
    var e := h[c][i];
    var entered := Enter(h, RECORDING, st, c, i, access, first);
    if e.cls == b {
      KeepInStep(h, b, st, c, i, access, first);
    } else {
      assert InStep(h, b, entered);
      if !e.isVirtual || !CountOf(st.counts, e.cls).isVirt {
        SearchInStep(h, b, entered, e.cls);
      }
    }
  }

  lemma {:induction false} WalkInStep(h: Lattice, b: nat, st: State, c: nat, i: nat, found: bool,
                                      access: Access, first: bool, r: (State, bool))
    requires c < |h| && i <= |h[c]| && r == Walk(h, ToClass(b), RECORDING, st, c, i, found, access, first) &&
             InStep(h, b, st)
    ensures InStep(h, b, r.0)
    decreases c, |h[c]| - i + 1
  {
    if i < |h[c]| {
      var v := Visit(h, ToClass(b), RECORDING, st, c, i, access, first);
      VisitInStep(h, b, st, c, i, access, first, v);
      WalkInStep(h, b, v.st, c, i + 1, found || v.hit, access, first, r);
    }
  }

  /** Every path recorded by a search for `b` carries the right number. */
  lemma {:induction false} SearchInStep(h: Lattice, b: nat, st: State, c: nat)
    requires c < |h| && InStep(h, b, st)
    ensures InStep(h, b, Search(h, ToClass(b), RECORDING, st, c).0)
    decreases c, |h[c]| + 2
  {
    WalkInStep(h, b, st, c, 0, false, st.access, st.scratch == [], Search(h, ToClass(b), RECORDING, st, c));
  }

  lemma {:induction false} OrdinaryGrows(flags: seq<bool>, i: nat, j: nat)
    requires i <= j <= |flags|
    ensures Ordinary(flags, i) <= Ordinary(flags, j)
    decreases j
  {
    if i < j {
      OrdinaryGrows(flags, i, j - 1);
    }
  }

  // ---------- Ordinary paths denote different subobjects ----------

  /** A subobject that starts at a base from `lo` up to but not including `hi`, or at a virtual base in `vs`
      but not in `us`. */
  predicate Placed(lo: nat, hi: nat, us: set<nat>, vs: set<nat>, s: Subobject) {
    match s.start
    case MostDerived => s.steps != [] && lo <= s.steps[0] < hi
    case VirtualBase(v) => v in vs && v !in us
  }

  /** Path `j` is an ordinary one that extends `scratch` from `c` to the subobject `s`. */
  ghost predicate Leads(h: Lattice, b: nat, c: nat, scratch: seq<PathElement>, paths: seq<BasePath>, j: nat,
                        s: Subobject)
    requires c < |h|
  {
    j < |paths| && !EndsVirtually(h, paths[j]) && Extends(h, ToClass(b), c, scratch, paths[j], s)
  }

  /** The ordinary paths recorded between two states denote different subobjects, each in its place. */
  ghost predicate Apart(h: Lattice, b: nat, c: nat, lo: nat, hi: nat, scratch: seq<PathElement>, st: State, st': State)
    requires c < |h|
  {
    && VirtSet(st) <= VirtSet(st')
    && (forall j: nat, s :: |st.paths| <= j && Leads(h, b, c, scratch, st'.paths, j, s) ==>
                              Placed(lo, hi, VirtSet(st), VirtSet(st'), s))
    && (forall j: nat, k: nat, s, t ::
          (|st.paths| <= j < k &&
           Leads(h, b, c, scratch, st'.paths, j, s) && Leads(h, b, c, scratch, st'.paths, k, t)) ==>
          s != t)
  }

  lemma ApartTwice(h: Lattice, b: nat, c: nat, i: nat, hi: nat, scratch: seq<PathElement>, st: State, mid: State,
                   st': State)
    requires c < |h| && i < hi && Apart(h, b, c, i, i + 1, scratch, st, mid) &&
             Apart(h, b, c, i + 1, hi, scratch, mid, st')
    requires st.paths <= mid.paths <= st'.paths
    ensures Apart(h, b, c, i, hi, scratch, st, st')
  {
    assert forall j: nat, s :: j < |mid.paths| && Leads(h, b, c, scratch, st'.paths, j, s) ==>
           Leads(h, b, c, scratch, mid.paths, j, s);
    forall j: nat, s | |st.paths| <= j && Leads(h, b, c, scratch, st'.paths, j, s)
      ensures Placed(i, hi, VirtSet(st), VirtSet(st'), s)
    {
      if j < |mid.paths| {
        assert Placed(i, i + 1, VirtSet(st), VirtSet(mid), s);
      } else {
        assert Placed(i + 1, hi, VirtSet(mid), VirtSet(st'), s);
      }
    }
    forall j: nat, k: nat, s, t | |st.paths| <= j < k && Leads(h, b, c, scratch, st'.paths, j, s) &&
      Leads(h, b, c, scratch, st'.paths, k, t)
      ensures s != t
    {
      if j < |mid.paths| <= k {
        assert Placed(i, i + 1, VirtSet(st), VirtSet(mid), s) && Placed(i + 1, hi, VirtSet(mid), VirtSet(st'), t);
      }
    }
  }

  /** What an inner path denotes determines what it denotes from further up, and the other way round. */
  lemma LiftApart(h: Lattice, c: nat, i: nat, us: set<nat>, vs: set<nat>, n: nat, s: Subobject, t: Subobject)
    requires c < |h| && i < |h[c]| && Placed(0, n, us, vs, s) && Placed(0, n, us, vs, t) && s != t
    requires h[c][i].isVirtual ==> h[c][i].cls in us
    ensures Lift(h, c, i, s) != Lift(h, c, i, t)
  {
    if !h[c][i].isVirtual && s.start.MostDerived? && t.start.MostDerived? {
      assert ([i] + s.steps)[1..] == s.steps && ([i] + t.steps)[1..] == t.steps;
    }
  }

  /** Seen from one step further up, the paths recorded below base `i` are still apart. */
  lemma ApartFurtherUp(h: Lattice, b: nat, c: nat, i: nat, access: Access, first: bool, st: State, entered: State,
                       below: State)
    requires c < |h| && i < |h[c]| && entered == Enter(h, RECORDING, st, c, i, access, first)
    requires AllExtend(h, ToClass(b), h[c][i].cls, entered.scratch, below.paths, |entered.paths|)
    requires Apart(h, b, h[c][i].cls, 0, |h[h[c][i].cls]|, entered.scratch, entered, below)
    requires h[c][i].isVirtual ==> !CountOf(st.counts, h[c][i].cls).isVirt
    ensures Apart(h, b, c, i, i + 1, st.scratch, st, below)
  {
    var x := entered.scratch[|st.scratch|];
    EnterSees(h, RECORDING, st, c, i, access, first);
    forall j: nat, s | |st.paths| <= j && Leads(h, b, c, st.scratch, below.paths, j, s)
      ensures Placed(i, i + 1, VirtSet(st), VirtSet(below), s)
    {
      SeenFromBelow(h, b, c, i, st, entered, x, below, j, s);
      LiftPlaced(h, c, i, VirtSet(st), VirtSet(entered), VirtSet(below),
                 Inner(h, h[c][i].cls, entered.scratch, below.paths[j]));
    }
    forall j: nat, k: nat, s, t | |st.paths| <= j < k && Leads(h, b, c, st.scratch, below.paths, j, s) &&
                                  Leads(h, b, c, st.scratch, below.paths, k, t)
      ensures s != t
    {
      SeenFromBelow(h, b, c, i, st, entered, x, below, j, s);
      SeenFromBelow(h, b, c, i, st, entered, x, below, k, t);
      SeenApart(h, b, c, i, entered, below, j, k, s, t);
    }
  }

  /** What is in its place below base `i` is in its place seen from `c`. */
  lemma LiftPlaced(h: Lattice, c: nat, i: nat, us: set<nat>, vs: set<nat>, ws: set<nat>, s: Subobject)
    requires c < |h| && i < |h[c]| && Placed(0, |h[h[c][i].cls]|, vs, ws, s) && vs <= ws
    requires vs == us + (if h[c][i].isVirtual then {h[c][i].cls} else {}) && (h[c][i].isVirtual ==> h[c][i].cls !in us)
    ensures Placed(i, i + 1, us, ws, Lift(h, c, i, s))
  {
  }

  lemma SeenApart(h: Lattice, b: nat, c: nat, i: nat, entered: State, below: State, j: nat, k: nat, s: Subobject,
                  t: Subobject)
    requires c < |h| && i < |h[c]| && |entered.paths| <= j < k
    requires h[c][i].isVirtual ==> h[c][i].cls in VirtSet(entered)
    requires Apart(h, b, h[c][i].cls, 0, |h[h[c][i].cls]|, entered.scratch, entered, below)
    requires Seen(h, b, c, i, entered, below, j, s) && Seen(h, b, c, i, entered, below, k, t)
    ensures s != t
  {
    LiftApart(h, c, i, VirtSet(entered), VirtSet(below), |h[h[c][i].cls]|,
      Inner(h, h[c][i].cls, entered.scratch, below.paths[j]), Inner(h, h[c][i].cls, entered.scratch, below.paths[k]));
  }

  /** Seen from base `i` of `c`, path `j` leads to a subobject that is `s` seen from `c`. */
  ghost predicate Seen(h: Lattice, b: nat, c: nat, i: nat, entered: State, below: State, j: nat, s: Subobject)
    requires c < |h| && i < |h[c]|
  {
    j < |below.paths| &&
    var d, inner := h[c][i].cls, Inner(h, h[c][i].cls, entered.scratch, below.paths[j]);
    && Leads(h, b, d, entered.scratch, below.paths, j, inner) && s == Lift(h, c, i, inner)
    && Placed(0, |h[d]|, VirtSet(entered), VirtSet(below), inner)
  }

  lemma SeenFromBelow(h: Lattice, b: nat, c: nat, i: nat, st: State, entered: State, x: PathElement, below: State,
                      j: nat, s: Subobject)
    requires c < |h| && i < |h[c]| && entered.scratch == st.scratch + [x] && x.record == c && x.base == i
    requires Apart(h, b, h[c][i].cls, 0, |h[h[c][i].cls]|, entered.scratch, entered, below)
    requires |entered.paths| <= j && Leads(h, b, c, st.scratch, below.paths, j, s)
    requires AllExtend(h, ToClass(b), h[c][i].cls, entered.scratch, below.paths, |entered.paths|)
    ensures Seen(h, b, c, i, entered, below, j, s)
  {
    var inner := Inner(h, h[c][i].cls, entered.scratch, below.paths[j]);
    assert ExtendsToMatch(h, ToClass(b), h[c][i].cls, entered.scratch, below.paths[j]);
    ExtendsFurther(h, ToClass(b), c, i, st.scratch, x, below.paths[j], inner);
    assert Leads(h, b, h[c][i].cls, entered.scratch, below.paths, j, inner);
  }

  /** What a path denotes as seen from `c`. */
  function Inner(h: Lattice, c: nat, scratch: seq<PathElement>, p: BasePath): Subobject
    requires c < |h|
  {
    if |scratch| <= |p.elements| &&
      IsPath(h, c, Steps(p.elements[|scratch|..])) then Denote(h, c, Steps(p.elements[|scratch|..]))
    else Subobject(MostDerived, [])
  }

  lemma {:induction false} VisitApart(h: Lattice, b: nat, st: State, c: nat, i: nat, access: Access, first: bool,
                                      v: Visited)
    requires c < |h| && i < |h[c]| && v == Visit(h, ToClass(b), RECORDING, st, c, i, access, first)
    ensures Apart(h, b, c, i, i + 1, st.scratch, st, v.st)
    decreases c, 0
  {
    var e := h[c][i];
    var entered := Enter(h, RECORDING, st, c, i, access, first);
    EnterSees(h, RECORDING, st, c, i, access, first);
    if e.cls == b {
      KeptApart(h, b, st, c, i, access, first, v.st);
    } else if !e.isVirtual || !CountOf(st.counts, e.cls).isVirt {
      var below := Search(h, ToClass(b), RECORDING, entered, e.cls).0;
      SearchApart(h, b, entered, e.cls);
      SearchRecordsMatches(h, ToClass(b), entered, e.cls);
      ApartFurtherUp(h, b, c, i, access, first, st, entered, below);
      assert v.st.paths == below.paths && VirtSet(v.st) == VirtSet(below);
    } else {
      assert v.st.paths == st.paths && VirtSet(v.st) == VirtSet(entered);
    }
  }

  lemma KeptApart(h: Lattice, b: nat, st: State, c: nat, i: nat, access: Access, first: bool, st': State)
    requires c < |h| && i < |h[c]| && h[c][i].cls == b
    requires st' == Leave(RECORDING, Keep(Enter(h, RECORDING, st, c, i, access, first)))
    ensures Apart(h, b, c, i, i + 1, st.scratch, st, st')
  {
    var entered := Enter(h, RECORDING, st, c, i, access, first);
    var x := entered.scratch[|st.scratch|];
    var n := |st.paths|;
    EnterSees(h, RECORDING, st, c, i, access, first);
    assert VirtSet(st') == VirtSet(entered);
    KeptExtends(h, ToClass(b), c, i, st.scratch, x, entered.access);
    assert st'.paths[n] == BasePath(st.scratch + [x], entered.access);
    assert EndsVirtually(h, st'.paths[n]) == h[c][i].isVirtual;
    assert [i] + [] == [i];
  }

  lemma {:induction false} WalkApart(h: Lattice, b: nat, st: State, c: nat, i: nat, found: bool,
                                     access: Access, first: bool, r: (State, bool))
    requires c < |h| && i <= |h[c]| && r == Walk(h, ToClass(b), RECORDING, st, c, i, found, access, first)
    ensures Apart(h, b, c, i, |h[c]|, st.scratch, st, r.0)
    decreases c, |h[c]| - i + 1
  {
    if i < |h[c]| {
      var v := Visit(h, ToClass(b), RECORDING, st, c, i, access, first);
      VisitRestores(h, ToClass(b), RECORDING, st, c, i, access, first, v);
      VisitApart(h, b, st, c, i, access, first, v);
      WalkApart(h, b, v.st, c, i + 1, found || v.hit, access, first, r);
      WalkRestores(h, ToClass(b), RECORDING, v.st, c, i + 1, found || v.hit, access, first, r);
      ApartTwice(h, b, c, i, |h[c]|, st.scratch, st, v.st, r.0);
    } else {
      assert r.0.paths == st.paths && VirtSet(r.0) == VirtSet(st);
    }
  }

  lemma {:induction false} SearchApart(h: Lattice, b: nat, st: State, c: nat)
    requires c < |h|
    ensures Apart(h, b, c, 0, |h[c]|, st.scratch, st, Search(h, ToClass(b), RECORDING, st, c).0)
    decreases c, |h[c]| + 2
  {
    WalkApart(h, b, st, c, 0, false, st.access, st.scratch == [], Search(h, ToClass(b), RECORDING, st, c));
  }

  // ---------- The numbers identify the subobjects ----------

  lemma {:induction false} LastEdgeFollows(h: Lattice, c: nat, es: seq<PathElement>)
    requires c < |h| && Follows(h, c, es) && es != []
    ensures IsPath(h, c, Steps(es))
    ensures LastEdge(h, c, Steps(es)).isVirtual == EndsVirtually(h, BasePath(es, Public))
    decreases |es|
  {
    FollowsIsPath(h, c, es);
    if |es| > 1 {
      LastEdgeFollows(h, h[c][es[0].base].cls, es[1..]);
      assert Steps(es)[1..] == Steps(es[1..]);
    }
  }

  lemma EndsAtSubobject(h: Lattice, b: nat, c: nat, p: BasePath, s: Subobject)
    requires c < |h| && Extends(h, ToClass(b), c, [], p, s)
    ensures if EndsVirtually(h, p) then s == Subobject(VirtualBase(b), []) else s.steps != []
  {
    var es := p.elements[0..];
    assert es == p.elements;
    LastEdgeFollows(h, c, es);
    VirtualEnd(h, c, Steps(es));
  }

  /** The subobject a recorded path denotes. */
  function Denoted(h: Lattice, c: nat, p: BasePath): Subobject
    requires c < |h|
  {
    Inner(h, c, [], p)
  }

  function AllDenoted(h: Lattice, c: nat, paths: seq<BasePath>): (r: seq<Subobject>)
    requires c < |h|
    ensures |r| == |paths|
  {
    seq(|paths|, j requires 0 <= j < |paths| => Denoted(h, c, paths[j]))
  }

  /** Those flagged denote the virtual base, the others different subobjects. */
  ghost predicate Distinguished(flags: seq<bool>, denoted: seq<Subobject>, virt: Subobject) {
    && |flags| == |denoted|
    && (forall j :: 0 <= j < |flags| ==> (flags[j] <==> denoted[j] == virt))
    && (forall j, k :: 0 <= j < k < |flags| && !flags[j] && !flags[k] ==> denoted[j] != denoted[k])
  }

  lemma RecordedAreDistinguished(h: Lattice, c: nat, b: nat, st: State)
    requires c < |h| && b < |h| && b != c && st == Search(h, ToClass(b), RECORDING, EMPTY, c).0
    ensures Distinguished(Flags(h, st.paths), AllDenoted(h, c, st.paths), Subobject(VirtualBase(b), []))
  {
    SearchApart(h, b, EMPTY, c);
    SearchRecordsMatches(h, ToClass(b), EMPTY, c);
    forall j: nat | j < |st.paths|
      ensures EndsVirtually(h, st.paths[j]) <==> Denoted(h, c, st.paths[j]) == Subobject(VirtualBase(b), [])
      ensures !EndsVirtually(h, st.paths[j]) ==> Leads(h, b, c, [], st.paths, j, Denoted(h, c, st.paths[j]))
    {
      assert ExtendsToMatch(h, ToClass(b), c, [], st.paths[j]);
      EndsAtSubobject(h, b, c, st.paths[j], Denoted(h, c, st.paths[j]));
    }
  }

  // ---------- How many ordinary paths there are ----------

  /** What the ordinary ones among the first `n` denote. */
  function OrdinaryOnes(flags: seq<bool>, denoted: seq<Subobject>, n: nat): (r: seq<Subobject>)
    requires n <= |flags| == |denoted|
    ensures |r| == Ordinary(flags, n)
  {
    if n == 0 then []
    else OrdinaryOnes(flags, denoted, n - 1) + if flags[n - 1] then [] else [denoted[n - 1]]
  }

  lemma {:induction false} OrdinaryMembers(flags: seq<bool>, denoted: seq<Subobject>, n: nat, s: Subobject)
    requires n <= |flags| == |denoted|
    ensures s in OrdinaryOnes(flags, denoted, n) <==> exists j :: 0 <= j < n && !flags[j] && denoted[j] == s
  {
    if n > 0 {
      OrdinaryMembers(flags, denoted, n - 1, s);
    }
  }

  lemma {:induction false} OrdinaryDistinct(flags: seq<bool>, denoted: seq<Subobject>, virt: Subobject, n: nat)
    requires n <= |flags| && Distinguished(flags, denoted, virt)
    ensures NoRepeats(OrdinaryOnes(flags, denoted, n))
  {
    if n > 0 {
      OrdinaryDistinct(flags, denoted, virt, n - 1);
      OrdinaryMembers(flags, denoted, n - 1, denoted[n - 1]);
    }
  }

  /** What the recorded paths denote, said with the sequence of what they denote. */
  lemma DenotedAreSubobjects(h: Lattice, c: nat, b: nat, paths: seq<BasePath>, s: Subobject)
    requires c < |h| && b < |h| && b != c && paths == Search(h, ToClass(b), RECORDING, EMPTY, c).0.paths
    ensures s in AllDenoted(h, c, paths) <==> IsSubobject(h, c, b, s)
  {
    RecordedPathsDenoteSubobjects(h, c, b, s);
    SearchRecordsMatches(h, ToClass(b), EMPTY, c);
    forall j | 0 <= j < |paths|
      ensures Denoted(h, c, paths[j]) == s <==> Extends(h, ToClass(b), c, [], paths[j], s)
    {
      assert ExtendsToMatch(h, ToClass(b), c, [], paths[j]);
    }
    if IsSubobject(h, c, b, s) {
      var j :| 0 <= j < |paths| && Extends(h, ToClass(b), c, [], paths[j], s);
      assert AllDenoted(h, c, paths)[j] == s;
    }
  }

  /** There are as many ordinary paths as subobjects besides the virtual base. */
  lemma OrdinaryIsExact(h: Lattice, c: nat, b: nat, flags: seq<bool>, denoted: seq<Subobject>, virt: Subobject)
    requires c < |h| && virt == Subobject(VirtualBase(b), []) && Distinguished(flags, denoted, virt)
    requires forall s :: s in denoted <==> IsSubobject(h, c, b, s)
    ensures Ordinary(flags, |flags|) == OrdinaryCount(h, c, b) && (virt in denoted <==> IsVBase(h, c, b))
  {
    var found := OrdinaryOnes(flags, denoted, |flags|);
    OrdinaryDistinct(flags, denoted, virt, |flags|);
    DistinctSize(found);
    forall s
      ensures s in found <==> s in Subobjects(h, c, b) && s != virt
      ensures s in Subobjects(h, c, b) <==> IsSubobject(h, c, b, s)
    {
      OrdinaryMembers(flags, denoted, |flags|, s);
      SubobjectListMembers(h, c, b, s);
      assert s in denoted <==> exists j :: 0 <= j < |denoted| && denoted[j] == s;
    }
    assert (set s | s in found) == Subobjects(h, c, b) - {virt};
    VirtualBaseIsSubobject(h, c, b);
  }

  // ---------- When the numbers tell subobjects apart ----------

  /** Two numbers are the same exactly when the subobjects are. */
  ghost predicate ToldApart(numbers: seq<nat>, denoted: seq<Subobject>) {
    |numbers| == |denoted| &&
    forall j, k :: 0 <= j < |denoted| && 0 <= k < |denoted| ==> (numbers[j] == numbers[k] <==> denoted[j] == denoted[k])
  }

  /** The numbers suffice for `n` subobjects besides the virtual base, if there is one. */
  predicate Suffices(n: int, virt: bool) {
    n < COUNT_LIMIT || (n == COUNT_LIMIT && !virt)
  }

  /** Two places among at most 2^31 have different numbers. */
  lemma DifferentPlaces(a: nat, b: nat)
    requires 0 < a < b <= COUNT_LIMIT
    ensures Wrapped(a) != Wrapped(b)
  {
  }

  lemma TwoToldApart(flags: seq<bool>, numbers: seq<nat>, j: nat, k: nat)
    requires Numbered(flags, numbers) && j < k < |flags|
    requires Suffices(Ordinary(flags, |flags|), flags[j] || flags[k])
    ensures numbers[j] == numbers[k] <==> flags[j] && flags[k]
  {
    assert NumberedAt(flags, numbers, j) && NumberedAt(flags, numbers, k);
    OrdinaryGrows(flags, j + 1, k);
    OrdinaryGrows(flags, k + 1, |flags|);
    if !flags[j] && !flags[k] {
      DifferentPlaces(Ordinary(flags, j + 1), Ordinary(flags, k + 1));
    }
  }

  /** The ordinary path in a given place. */
  lemma {:induction false} PathInPlace(flags: seq<bool>, n: nat, place: nat) returns (j: nat)
    requires n <= |flags| && 0 < place <= Ordinary(flags, n)
    ensures j < n && !flags[j] && Ordinary(flags, j + 1) == place
    decreases n
  {
    if place <= Ordinary(flags, n - 1) {
      j := PathInPlace(flags, n - 1, place);
    } else {
      j := n - 1;
    }
  }

  /** If the numbers do not suffice, two different subobjects have the same number. */
  lemma NumbersRepeat(flags: seq<bool>, numbers: seq<nat>, denoted: seq<Subobject>, virt: Subobject)
    requires Numbered(flags, numbers) && Distinguished(flags, denoted, virt)
    requires !Suffices(Ordinary(flags, |flags|), virt in denoted)
    ensures !ToldApart(numbers, denoted)
  {
    var j: nat;
    if Ordinary(flags, |flags|) > COUNT_LIMIT {
      j := PathInPlace(flags, |flags|, COUNT_LIMIT + 1);
      var i := PathInPlace(flags, |flags|, 1);
      assert NumberedAt(flags, numbers, i) && NumberedAt(flags, numbers, j);
    } else {
      j := PathInPlace(flags, |flags|, COUNT_LIMIT);
      var i :| 0 <= i < |denoted| && denoted[i] == virt;
      assert NumberedAt(flags, numbers, i) && NumberedAt(flags, numbers, j);
    }
  }

  lemma NumbersSuffice(flags: seq<bool>, numbers: seq<nat>, denoted: seq<Subobject>, virt: Subobject)
    requires Numbered(flags, numbers) && Distinguished(flags, denoted, virt)
    requires Suffices(Ordinary(flags, |flags|), virt in denoted)
    ensures ToldApart(numbers, denoted)
  {
    forall j: nat, k: nat | j < k < |denoted|
      ensures numbers[j] == numbers[k] <==> denoted[j] == denoted[k]
    {
      TwoToldApart(flags, numbers, j, k);
    }
  }

  /** The paths recorded by a search for `b` end with the same number exactly when they denote the same
      subobject, if and only if there are fewer than 2^31 subobjects besides the virtual base `b`, or
      just as many and no virtual base `b`. */
  lemma NumbersIdentifySubobjects(h: Lattice, c: nat, b: nat, st: State)
    requires c < |h| && b < |h| && b != c && st == Search(h, ToClass(b), RECORDING, EMPTY, c).0
    ensures ToldApart(Numbers(st.paths), AllDenoted(h, c, st.paths)) <==>
            Suffices(OrdinaryCount(h, c, b), IsVBase(h, c, b))
  {
    var flags, numbers, denoted := Flags(h, st.paths), Numbers(st.paths), AllDenoted(h, c, st.paths);
    var virt := Subobject(VirtualBase(b), []);
    SearchInStep(h, b, EMPTY, c);
    RecordedAreDistinguished(h, c, b, st);
    forall s
      ensures s in denoted <==> IsSubobject(h, c, b, s)
    {
      DenotedAreSubobjects(h, c, b, st.paths, s);
    }
    OrdinaryIsExact(h, c, b, flags, denoted, virt);
    if Suffices(OrdinaryCount(h, c, b), IsVBase(h, c, b)) {
      NumbersSuffice(flags, numbers, denoted, virt);
    } else {
      NumbersRepeat(flags, numbers, denoted, virt);
    }
  }

  /** In a ladder of 32 levels they do not: there are 2^32 subobjects of class 0. */
  lemma LadderNumbersRepeat(levels: nat, st: State)
    requires levels == 32 && st == Search(Ladder(levels), ToClass(0), RECORDING, EMPTY, 3 * levels).0
    ensures !ToldApart(Numbers(st.paths), AllDenoted(Ladder(levels), 3 * levels, st.paths))
  {
    LadderCount(levels);
    PowersNearUInt();
    NumbersIdentifySubobjects(Ladder(levels), 3 * levels, 0, st);
  }
}
