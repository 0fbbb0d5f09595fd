/// The depth-first search through base classes, and what its subobject counts mean.

module BasePathSearch {
  import opened Hierarchy

  /** The subobject counter of a class: a one-bit flag and a 31-bit number. */
  datatype Count = Count(isVirt: bool, num: Num31)

  const COUNT_LIMIT: nat := 0x8000_0000

  type Num31 = n: nat | n < COUNT_LIMIT

  /** One step of a recorded path: the derived class, the specifier taken, the subobject number. */
  datatype PathElement = PathElement(record: nat, base: nat, number: nat)

  datatype BasePath = BasePath(elements: seq<PathElement>, access: Access)

  datatype Mode = Mode(findAmbiguities: bool, recordPaths: bool)

  datatype State = State(counts: map<nat, Count>, scratch: seq<PathElement>, access: Access, paths: seq<BasePath>)

  const EMPTY: State := State(map[], [], Public, [])

  function CountOf(counts: map<nat, Count>, c: nat): Count {
    if c in counts then counts[c] else Count(false, 0)
  }

  function VirtSet(st: State): set<nat> {
    set v | v in st.counts && st.counts[v].isVirt
  }

  function Rank(a: Access): nat {
    match a
    case Public => 0
    case Protected => 1
    case Private => 2
    case NoAccess => 3
  }

  function MergeAccess(pathAccess: Access, declAccess: Access): Access
    requires declAccess != NoAccess
  {
    if declAccess == Private then NoAccess
    else if Rank(pathAccess) > Rank(declAccess) then pathAccess
    else declAccess
  }

  // ---------- The search as a function of its state ----------

  /** Steps onto base `i` of `c`: counts it and, when paths are recorded, extends the scratch path. */
  function Enter(h: Lattice, mode: Mode, st: State, c: nat, i: nat, access: Access, first: bool): State
    requires c < |h| && i < |h[c]|
  {
    var e := h[c][i];
    var was := CountOf(st.counts, e.cls);
    var now := if e.isVirtual then was.(isVirt := true) else was.(num := (was.num + 1) % COUNT_LIMIT);
    var counted := st.(counts := st.counts[e.cls := now]);
    if !mode.recordPaths then counted
    else
      counted.(scratch := st.scratch + [PathElement(c, i, if e.isVirtual then 0 else now.num)],
               access := if first then e.access else MergeAccess(access, e.access))
  }

  /** Steps back from a base. */
  function Leave(mode: Mode, st: State): State
    requires mode.recordPaths ==> st.scratch != []
  {
    if mode.recordPaths then st.(scratch := st.scratch[..|st.scratch| - 1]) else st
  }

  function Keep(st: State): State {
    st.(paths := st.paths + [BasePath(st.scratch, st.access)])
  }

  /** The state after one base, whether a match was found through it, and whether to stop there. */
  datatype Visited = Visited(st: State, hit: bool, stop: bool)

  /** What happens at base `i` of `c`. */
  function Visit(h: Lattice, m: Criterion, mode: Mode, st: State, c: nat, i: nat, access: Access,
                 first: bool): (r: Visited)
    requires c < |h| && i < |h[c]|
    ensures |r.st.scratch| >= |st.scratch|
    decreases c, 0
  {
    var e := h[c][i];
    var entered := Enter(h, mode, st, c, i, access, first);
    if Hits(m, e) then
      if mode.recordPaths then Visited(Leave(mode, Keep(entered)), true, false)
      else Visited(entered, true, !mode.findAmbiguities)
    else if !e.isVirtual || !CountOf(st.counts, e.cls).isVirt then
      var (below, hit) := Search(h, m, mode, entered, e.cls);
      if hit && !mode.findAmbiguities then Visited(below, true, true)
      else Visited(Leave(mode, below), hit, false)
    else
      Visited(Leave(mode, entered), false, false)
  }

  /** The search below `c` from base `i` on. `access` and `first` describe the path down to `c`. */
  function Walk(h: Lattice, m: Criterion, mode: Mode, st: State, c: nat, i: nat, found: bool,
                access: Access, first: bool): (r: (State, bool))
    requires c < |h| && i <= |h[c]|
    ensures |r.0.scratch| >= |st.scratch|
    decreases c, |h[c]| - i + 1
  {
    if i == |h[c]| then (st.(access := access), found)
    else
      var v := Visit(h, m, mode, st, c, i, access, first);
      if v.stop then (v.st, true)
      else Walk(h, m, mode, v.st, c, i + 1, found || v.hit, access, first)
  }

  function Search(h: Lattice, m: Criterion, mode: Mode, st: State, c: nat): (r: (State, bool))
    requires c < |h|
    ensures |r.0.scratch| >= |st.scratch|
    decreases c, |h[c]| + 2
  {
    Walk(h, m, mode, st, c, 0, false, st.access, st.scratch == [])
  }

  // ---------- The search as the program runs it ----------

  class BasePaths {
    const mode: Mode
    var counts: map<nat, Count>
    var scratch: seq<PathElement>
    var access: Access
    var paths: seq<BasePath>

    constructor (findAmbiguities: bool, recordPaths: bool)
      ensures mode == Mode(findAmbiguities, recordPaths)
      ensures Value() == EMPTY
    {
      mode := Mode(findAmbiguities, recordPaths);
      counts, scratch, access, paths := map[], [], Public, [];
    }

    function Value(): State
      reads this
    {
      State(counts, scratch, access, paths)
    }

    /** Counts base `i` of `c` and appends it to the scratch path; tells whether to descend into it. */
    method EnterBase(h: Lattice, c: nat, i: nat, accessToHere: Access, isFirstStep: bool) returns (visitBase: bool)
      requires c < |h| && i < |h[c]|
      modifies this
      ensures visitBase == (!h[c][i].isVirtual || !CountOf(old(counts), h[c][i].cls).isVirt)
      ensures Value() == Enter(h, mode, old(Value()), c, i, accessToHere, isFirstStep)
    {
      var e := h[c][i];
      var was := CountOf(counts, e.cls);
      visitBase := true;
      if e.isVirtual {
        visitBase := !was.isVirt;
        counts := counts[e.cls := was.(isVirt := true)];
      } else {
        counts := counts[e.cls := was.(num := (was.num + 1) % COUNT_LIMIT)];
      }
      if mode.recordPaths {
        scratch := scratch + [PathElement(c, i, if e.isVirtual then 0 else counts[e.cls].num)];
        access := if isFirstStep then e.access else MergeAccess(accessToHere, e.access);
      }
    }

    method LeaveBase()
      requires mode.recordPaths ==> scratch != []
      modifies this
      ensures Value() == Leave(mode, old(Value()))
    {
      if mode.recordPaths {
        scratch := scratch[..|scratch| - 1];
      }
    }

    /** The loop body of `LookupInBases`: what happens at base `i` of `c`. */
    method VisitBase(h: Lattice, m: Criterion, c: nat, i: nat, accessToHere: Access, isFirstStep: bool)
      returns (hit: bool, stop: bool)
      requires c < |h| && i < |h[c]|
      modifies this
      ensures Visited(Value(), hit, stop) == Visit(h, m, mode, old(Value()), c, i, accessToHere, isFirstStep)
      decreases c, 0
    {
      hit := false;
      var visitBase := EnterBase(h, c, i, accessToHere, isFirstStep);
      if Hits(m, h[c][i]) {
        hit := true;
        if mode.recordPaths {
          paths := paths + [BasePath(scratch, access)];
        } else if !mode.findAmbiguities {
          return true, true;
        }
      } else if visitBase {
        hit := LookupInBases(h, m, h[c][i].cls);
        if hit && !mode.findAmbiguities {
          return true, true;
        }
      }
      LeaveBase();
      stop := false;
    }

    method LookupInBases(h: Lattice, m: Criterion, c: nat) returns (found: bool)
      requires c < |h|
      modifies this
      ensures (Value(), found) == Search(h, m, mode, old(Value()), c)
      decreases c, 1
    {
      found := false;
      var accessToHere, isFirstStep := access, scratch == [];
      var i := 0;
      while i < |h[c]|
        invariant 0 <= i <= |h[c]|
        invariant Walk(h, m, mode, Value(), c, i, found, accessToHere, isFirstStep) ==
                  Search(h, m, mode, old(Value()), c)
      {
        var hit, stop := VisitBase(h, m, c, i, accessToHere, isFirstStep);
        if stop {
          return true;
        }
        found := found || hit;
        i := i + 1;
      }
      access := accessToHere;
    }

    method IsAmbiguous(b: nat) returns (r: bool)
      modifies this
      ensures Value() == old(Value()).(counts := counts) && CountOf(counts, b) == CountOf(old(counts), b)
      ensures forall d :: d != b ==> CountOf(counts, d) == CountOf(old(counts), d)
      ensures r == Ambiguous(old(Value()), b)
    {
      var subobjects := CountOf(counts, b);
      counts := counts[b := subobjects];
      r := subobjects.num + (if subobjects.isVirt then 1 else 0) > 1;
    }
  }

  predicate Ambiguous(st: State, b: nat) {
    CountOf(st.counts, b).num + (if CountOf(st.counts, b).isVirt then 1 else 0) > 1
  }
}
