/// Transactions of source edits: either every recorded action is carried out, or none.

module Transactions {
  import opened EditMerge
  import opened CapturedDiagnostics

  /** A source location as recorded; it may lie inside a macro expansion. */
  type Loc = int

  datatype SourceRange = SourceRange(begin: Loc, end: Loc)

  /** A statement or expression of the program being migrated. */
  datatype Stmt = Stmt(id: nat, isExpr: bool, range: SourceRange)

  /** What the source manager and the preprocessor answer: the file position of a location, the position
      just past the token there, whether text can be inserted before or after it, whether a text stands
      there, and an expression without its implicit wrappers. */
  datatype Source = Source(
    position: Loc -> int,
    endOfToken: Loc -> int,
    canInsert: Loc -> bool,
    canInsertAfterToken: Loc -> bool,
    hasText: (Loc, string) -> bool,
    ignoreImplicit: Stmt -> Stmt)

  datatype Action =
    | InsertText(loc: Loc, text: string)
    | InsertAfterToken(loc: Loc, text: string)
    | RemoveRange(range: SourceRange)
    | RemoveStmt(stmt: Stmt)
    | ReplaceRange(range: SourceRange, replacement: SourceRange)
    | ReplaceText(loc: Loc, text: string, replacementText: string)
    | IncreaseIndentation(range: SourceRange, parentIndent: Loc)
    | ClearDiagnostics(query: Query)

  const REMOVED_EXPR_MACRO: string := "__IMPL_ARCMT_REMOVED_EXPR__"

  // ---------- What one action does ----------

  function TokenRange(src: Source, r: SourceRange): CharRange {
    CharRange(src.position(r.begin), src.endOfToken(r.end))
  }

  predicate CanRemoveRange(src: Source, r: SourceRange) {
    src.canInsert(r.begin) && src.canInsertAfterToken(r.end)
  }

  predicate Possible(src: Source, a: Action) {
    match a
    case InsertText(loc, _) => src.canInsert(loc)
    case InsertAfterToken(loc, _) => src.canInsertAfterToken(loc)
    case RemoveRange(r) => CanRemoveRange(src, r)
    case RemoveStmt(s) => CanRemoveRange(src, s.range)
    case ReplaceRange(r, replacement) => CanRemoveRange(src, r) && CanRemoveRange(src, replacement)
    case ReplaceText(loc, text, _) => src.canInsert(loc) && src.hasText(loc, text)
    case IncreaseIndentation(_, _) => true
    case ClearDiagnostics(_) => true
  }

  ghost predicate AllPossible(src: Source, actions: seq<Action>) {
    forall i :: 0 <= i < |actions| ==> Possible(src, actions[i])
  }

  /** Ranges start before they end. */
  ghost predicate Ordered(src: Source, a: Action) {
    match a
    case RemoveRange(r) => TokenRange(src, r).begin <= TokenRange(src, r).end
    case RemoveStmt(s) => TokenRange(src, s.range).begin <= TokenRange(src, s.range).end
    case _ => true
  }

  ghost predicate AllOrdered(src: Source, actions: seq<Action>) {
    forall i :: 0 <= i < |actions| ==> Ordered(src, actions[i])
  }

  /** The removals and insertions an action asks for; statements in `gone` were removed before. */
  function OpsOf(src: Source, gone: set<Stmt>, a: Action): seq<Op> {
    match a
    case InsertText(loc, text) => [Insert(src.position(loc), text)]
    case InsertAfterToken(loc, text) => [Insert(src.endOfToken(loc), text)]
    case RemoveRange(r) => [Remove(TokenRange(src, r))]
    case RemoveStmt(s) =>
      if s in gone then []
      else if s.isExpr then [Remove(TokenRange(src, s.range)), Insert(src.position(s.range.begin), REMOVED_EXPR_MACRO)]
      else [Remove(TokenRange(src, s.range))]
    case ReplaceRange(r, replacement) =>
      if CompareWith(TokenRange(src, replacement), TokenRange(src, r)) != Contained then []
      else
        (if r.begin != replacement.begin
         then [Remove(CharRange(src.position(r.begin), src.position(replacement.begin)))] else []) +
        (if replacement.end != r.end
         then [Remove(CharRange(src.endOfToken(replacement.end), src.endOfToken(r.end)))] else [])
    case ReplaceText(loc, text, replacementText) =>
      [Remove(CharRange(src.position(loc), src.position(loc) + |text|)), Insert(src.position(loc), replacementText)]
    case IncreaseIndentation(_, _) => []
    case ClearDiagnostics(_) => []
  }

  /** Replacing a range by one of its parts asks for the removal of exactly the rest. */
  lemma ReplaceRemovesTheRest(src: Source, gone: set<Stmt>, r: SourceRange, replacement: SourceRange, x: int)
    requires CompareWith(TokenRange(src, replacement), TokenRange(src, r)) == Contained
    requires TokenRange(src, replacement).begin <= TokenRange(src, replacement).end
    ensures Removed(OpsOf(src, gone, ReplaceRange(r, replacement)), x) <==>
            Inside(TokenRange(src, r), x) && !Inside(TokenRange(src, replacement), x)
  {
    var ops := OpsOf(src, gone, ReplaceRange(r, replacement));
    if Inside(TokenRange(src, r), x) && x < src.position(replacement.begin) {
      assert ops[0].Remove? && Inside(ops[0].range, x);
    }
    if Inside(TokenRange(src, r), x) && x >= src.endOfToken(replacement.end) {
      assert ops[|ops| - 1].Remove? && Inside(ops[|ops| - 1].range, x);
    }
  }

  /** Everything that committed actions change. */
  datatype Ledger = Ledger(edits: Edits, gone: set<Stmt>, indents: seq<(CharRange, int)>, diags: seq<Diagnostic>)

  ghost function PerformFrom(st: Edits, ops: seq<Op>): Edits {
    if ops == [] then st else Perform(PerformFrom(st, ops[..|ops| - 1]), ops[|ops| - 1])
  }

  ghost function CommitOne(src: Source, st: Ledger, a: Action): Ledger {
    Ledger(
      PerformFrom(st.edits, OpsOf(src, st.gone, a)),
      if a.RemoveStmt? then st.gone + {a.stmt} else st.gone,
      if a.IncreaseIndentation?
      then st.indents + [(TokenRange(src, a.range), src.position(a.parentIndent))]
      else st.indents,
      if a.ClearDiagnostics? then Cleared(a.query, st.diags) else st.diags)
  }

  ghost function CommitAll(src: Source, st: Ledger, actions: seq<Action>): Ledger {
    if actions == [] then st
    else CommitOne(src, CommitAll(src, st, actions[..|actions| - 1]), actions[|actions| - 1])
  }

  lemma {:induction false} CommitAllTwice(src: Source, st: Ledger, first: seq<Action>, second: seq<Action>)
    ensures CommitAll(src, CommitAll(src, st, first), second) == CommitAll(src, st, first + second)
    decreases |second|
  {
    if second == [] {
      assert first + second == first;
    } else {
      var front, last := second[..|second| - 1], second[|second| - 1];
      CommitAllTwice(src, st, first, front);
      LastAction(first, second);
      CommitAlike(src, CommitAll(src, st, first), front, st, first + front, last);
    }
  }

  lemma LastAction(first: seq<Action>, second: seq<Action>)
    requires second != []
    ensures second == second[..|second| - 1] + [second[|second| - 1]]
    ensures first + second == first + second[..|second| - 1] + [second[|second| - 1]]
  {
  }

  lemma CommitAlike(src: Source, a: Ledger, first: seq<Action>, b: Ledger, second: seq<Action>, last: Action)
    requires CommitAll(src, a, first) == CommitAll(src, b, second)
    ensures CommitAll(src, a, first + [last]) == CommitAll(src, b, second + [last])
  {
    CommitOneMore(src, a, first, last);
    CommitOneMore(src, b, second, last);
  }

  lemma CommitOneMore(src: Source, st: Ledger, actions: seq<Action>, a: Action)
    ensures CommitAll(src, st, actions + [a]) == CommitOne(src, CommitAll(src, st, actions), a)
  {
    assert (actions + [a])[..|actions|] == actions;
  }

  // ---------- Runs ----------

  datatype Event = Start | Record(action: Action) | Clear(query: Query) | Commit | Abort

  datatype Session = Session(ledger: Ledger, inTransaction: bool, pending: seq<Action>)

  /** When an event may happen. Only the replacement of text does not insist on a transaction. */
  predicate Legal(s: Session, e: Event) {
    match e
    case Start => !s.inTransaction
    case Record(a) => s.inTransaction || a.ReplaceText?
    case Clear(_) => s.inTransaction
    case Commit => s.inTransaction
    case Abort => s.inTransaction
  }

  ghost function Next(src: Source, s: Session, e: Event): Session {
    match e
    case Start => s.(inTransaction := true)
    case Record(a) => s.(pending := s.pending + [a])
    case Clear(q) => if Has(q, s.ledger.diags) then s.(pending := s.pending + [ClearDiagnostics(q)]) else s
    case Commit =>
      Session(if AllPossible(src, s.pending) then CommitAll(src, s.ledger, s.pending) else s.ledger, false, [])
    case Abort => Session(s.ledger, false, [])
  }

  ghost function Run(src: Source, s: Session, events: seq<Event>): Session {
    if events == [] then s else Next(src, Run(src, s, events[..|events| - 1]), events[|events| - 1])
  }

  /** The actions recorded since the last transaction ended. */
  ghost function Recorded(src: Source, st: Ledger, events: seq<Event>): seq<Action>
    decreases |events|, 0
  {
    if events == [] then []
    else
      var front, e := events[..|events| - 1], events[|events| - 1];
      match e
      case Start => Recorded(src, st, front)
      case Record(a) => Recorded(src, st, front) + [a]
      case Clear(q) =>
        Recorded(src, st, front) +
        if Has(q, CommitAll(src, st, Committed(src, st, front)).diags) then [ClearDiagnostics(q)] else []
      case Commit => []
      case Abort => []
  }

  /** The actions of all transactions that committed with every action possible, in order. */
  ghost function Committed(src: Source, st: Ledger, events: seq<Event>): seq<Action>
    decreases |events|, 1
  {
    if events == [] then []
    else
      var front, e := events[..|events| - 1], events[|events| - 1];
      var recorded := Recorded(src, st, front);
      Committed(src, st, front) +
      if e == Commit && forall k :: 0 <= k < |recorded| ==> Possible(src, recorded[k]) then recorded else []
  }

  /** In every run what has been changed is the effect of exactly those transactions that committed with
      every action possible, one after the other. */
  lemma {:induction false} RunIsFoldOfCommitted(src: Source, st: Ledger, events: seq<Event>)
    ensures var s := Run(src, Session(st, false, []), events);
      && s.ledger == CommitAll(src, st, Committed(src, st, events))
      && s.pending == Recorded(src, st, events)
    decreases |events|
  {
    if events != [] {
      var front := events[..|events| - 1];
      RunIsFoldOfCommitted(src, st, front);
      EventKeepsFold(src, st, front, events[|events| - 1], events, Run(src, Session(st, false, []), front),
        Committed(src, st, front), Recorded(src, st, front));
    }
  }

  lemma EventKeepsFold(src: Source, st: Ledger, front: seq<Event>, e: Event, events: seq<Event>, s: Session,
                       done: seq<Action>, pending: seq<Action>)
    requires events != [] && front == events[..|events| - 1] && e == events[|events| - 1]
    requires done == Committed(src, st, front) && pending == Recorded(src, st, front)
    requires s == Run(src, Session(st, false, []), front)
    requires s.ledger == CommitAll(src, st, done) && s.pending == pending
    ensures var t := Run(src, Session(st, false, []), events);
      && t.ledger == CommitAll(src, st, Committed(src, st, events))
      && t.pending == Recorded(src, st, events)
  {
    if e == Commit && AllPossible(src, pending) {
      CommitAllTwice(src, st, done, pending);
    } else {
      assert done + [] == done;
    }
  }

  const NOTHING: Ledger := Ledger(NO_EDITS, {}, [], [])

  /** The removals and insertions that a list of actions asks for. */
  ghost function AllOps(src: Source, actions: seq<Action>): seq<Op> {
    if actions == [] then []
    else
      var front := actions[..|actions| - 1];
      AllOps(src, front) + OpsOf(src, CommitAll(src, NOTHING, front).gone, actions[|actions| - 1])
  }

  lemma {:induction false} PerformFromAll(before: seq<Op>, ops: seq<Op>)
    ensures PerformFrom(PerformAll(before), ops) == PerformAll(before + ops)
    decreases |ops|
  {
    if ops == [] {
      assert before + ops == before;
    } else {
      PerformFromAll(before, ops[..|ops| - 1]);
      assert (before + ops)[..|before + ops| - 1] == before + ops[..|ops| - 1];
    }
  }

  lemma {:induction false} GoneIgnoresDiags(src: Source, st: Ledger, actions: seq<Action>)
    requires st.edits == NO_EDITS && st.gone == {}
    ensures CommitAll(src, st, actions).gone == CommitAll(src, NOTHING, actions).gone
    ensures CommitAll(src, st, actions).edits == PerformAll(AllOps(src, actions))
    decreases |actions|
  {
    if actions != [] {
      var front := actions[..|actions| - 1];
      GoneIgnoresDiags(src, st, front);
      PerformFromAll(AllOps(src, front), OpsOf(src, CommitAll(src, NOTHING, front).gone, actions[|actions| - 1]));
    }
  }

  lemma {:induction false} OrderedOps(src: Source, actions: seq<Action>)
    requires AllOrdered(src, actions)
    ensures WellFormed(AllOps(src, actions))
    decreases |actions|
  {
    if actions != [] {
      var front, last := actions[..|actions| - 1], actions[|actions| - 1];
      OrderedOps(src, front);
      OrderedOne(src, CommitAll(src, NOTHING, front).gone, last);
      WellFormedTwice(AllOps(src, front), OpsOf(src, CommitAll(src, NOTHING, front).gone, last));
    }
  }

  lemma OrderedOne(src: Source, gone: set<Stmt>, a: Action)
    requires Ordered(src, a)
    ensures WellFormed(OpsOf(src, gone, a))
  {
  }

  lemma WellFormedTwice(before: seq<Op>, ops: seq<Op>)
    requires WellFormed(before) && WellFormed(ops)
    ensures WellFormed(before + ops)
  {
  }

  /** In every run that starts with no edits, the removals are in normal form and cover exactly what the
      committed transactions asked for, and the texts kept at a location are their surviving insertions. */
  lemma {:induction false} RunEdits(src: Source, diags: seq<Diagnostic>, events: seq<Event>, x: int)
    requires AllOrdered(src, Committed(src, NOTHING.(diags := diags), events))
    ensures var st := NOTHING.(diags := diags);
      var edits := Run(src, Session(st, false, []), events).ledger.edits;
      var ops := AllOps(src, Committed(src, st, events));
      && NormalForm(edits.removals)
      && (Covers(edits.removals, x) <==> Removed(ops, x))
      && TextsAt(edits.inserts, x) == Surviving(ops, |ops|, x)
  {
    var st := NOTHING.(diags := diags);
    var actions := Committed(src, st, events);
    RunIsFoldOfCommitted(src, st, events);
    GoneIgnoresDiags(src, st, actions);
    OrderedOps(src, actions);
    RemovalsAreTheUnion(AllOps(src, actions));
    InsertsAreTheSurvivors(AllOps(src, actions), x);
  }

  // ---------- The transactions as the program runs them ----------

  datatype Call =
    | InsertCall(loc: int, text: string)
    | IndentCall(range: CharRange, parent: int)
    | RemoveCall(range: CharRange)

  function InsertCallsAt(loc: int, texts: seq<string>): seq<Call> {
    seq(|texts|, i requires 0 <= i < |texts| => InsertCall(loc, texts[i]))
  }

  function IndentCalls(indents: seq<(CharRange, int)>): seq<Call> {
    seq(|indents|, i requires 0 <= i < |indents| => IndentCall(indents[i].0, indents[i].1))
  }

  function RemoveCalls(removals: seq<CharRange>): seq<Call> {
    seq(|removals|, i requires 0 <= i < |removals| => RemoveCall(removals[i]))
  }

  /** The insertions at the locations `locs`, in that order. */
  ghost function InsertCalls(ins: Inserts, locs: seq<int>): seq<Call> {
    if locs == [] then []
    else
      var loc := locs[|locs| - 1];
      InsertCalls(ins, locs[..|locs| - 1]) + InsertCallsAt(loc, TextsAt(ins, loc))
  }

  lemma OneMoreLocation(ins: Inserts, locs: seq<int>, loc: int)
    ensures InsertCalls(ins, locs + [loc]) == InsertCalls(ins, locs) + InsertCallsAt(loc, TextsAt(ins, loc))
  {
    assert (locs + [loc])[..|locs|] == locs;
  }

  predicate Ascending(locs: seq<int>) {
    forall i, j :: 0 <= i < j < |locs| ==> locs[i] < locs[j]
  }

  /** The texts that `calls` insert at `loc`, in the order of the calls. */
  ghost function CallTexts(calls: seq<Call>, loc: int): seq<string> {
    if calls == [] then []
    else
      var call := calls[|calls| - 1];
      CallTexts(calls[..|calls| - 1], loc) + if call.InsertCall? && call.loc == loc then [call.text] else []
  }

  /** The first `n` calls are insertions, by ascending location. */
  ghost predicate InsertsFirst(calls: seq<Call>, n: nat)
    requires n <= |calls|
  {
    && (forall i :: 0 <= i < n ==> calls[i].InsertCall?)
    && forall i, j :: 0 <= i < j < n ==> calls[i].loc <= calls[j].loc
  }

  ghost predicate InsertsTexts(calls: seq<Call>, ins: Inserts) {
    forall loc :: CallTexts(calls, loc) == TextsAt(ins, loc)
  }

  ghost predicate IndentsFrom(calls: seq<Call>, n: nat, indents: seq<(CharRange, int)>)
    requires n + |indents| <= |calls|
  {
    forall i :: 0 <= i < |indents| ==> calls[n + i] == IndentCall(indents[i].0, indents[i].1)
  }

  ghost predicate RemovesFrom(calls: seq<Call>, n: nat, removals: seq<CharRange>)
    requires n + |removals| <= |calls|
  {
    forall i :: 0 <= i < |removals| ==> calls[n + i] == RemoveCall(removals[i])
  }

  /** First come all insertions by ascending location, those of one location in the order of its texts; then the
      indentations in their order; and then the removals in theirs. */
  ghost predicate HandedOver(calls: seq<Call>, ins: Inserts, indents: seq<(CharRange, int)>, removals: seq<CharRange>) {
    && |indents| + |removals| <= |calls|
    && var n := |calls| - |indents| - |removals|;
    && InsertsFirst(calls, n)
    && InsertsTexts(calls[..n], ins)
    && IndentsFrom(calls, n, indents)
    && RemovesFrom(calls, n + |indents|, removals)
  }

  lemma {:induction false} TextsOfConcatenation(calls: seq<Call>, more: seq<Call>, loc: int)
    ensures CallTexts(calls + more, loc) == CallTexts(calls, loc) + CallTexts(more, loc)
    decreases |more|
  {
    if more == [] {
      assert calls + more == calls;
    } else {
      assert (calls + more)[..|calls + more| - 1] == calls + more[..|more| - 1];
      TextsOfConcatenation(calls, more[..|more| - 1], loc);
    }
  }

  lemma {:induction false} TextsOfLocation(at: int, texts: seq<string>, loc: int)
    ensures CallTexts(InsertCallsAt(at, texts), loc) == if loc == at then texts else []
    decreases |texts|
  {
    if texts != [] {
      var front := texts[..|texts| - 1];
      assert InsertCallsAt(at, texts)[..|texts| - 1] == InsertCallsAt(at, front);
      TextsOfLocation(at, front, loc);
      assert texts == front + [texts[|texts| - 1]];
    }
  }

  lemma {:induction false} TextsOfInsertCalls(ins: Inserts, locs: seq<int>, loc: int)
    requires Ascending(locs)
    ensures CallTexts(InsertCalls(ins, locs), loc) == if loc in locs then TextsAt(ins, loc) else []
    decreases |locs|
  {
    if locs != [] {
      var front, last := locs[..|locs| - 1], locs[|locs| - 1];
      assert locs == front + [last];
      TextsOfInsertCalls(ins, front, loc);
      TextsOfConcatenation(InsertCalls(ins, front), InsertCallsAt(last, TextsAt(ins, last)), loc);
      TextsOfLocation(last, TextsAt(ins, last), loc);
    }
  }

  lemma InsertsGoOn(calls: seq<Call>, loc: int, texts: seq<string>)
    requires InsertsFirst(calls, |calls|) && (calls != [] ==> calls[|calls| - 1].loc <= loc)
    ensures var longer := calls + InsertCallsAt(loc, texts);
      InsertsFirst(longer, |longer|) && (longer != [] ==> longer[|longer| - 1].loc <= loc)
  {
  }

  lemma {:induction false} InsertCallsAscend(ins: Inserts, locs: seq<int>)
    requires Ascending(locs)
    ensures var calls := InsertCalls(ins, locs);
      InsertsFirst(calls, |calls|) && (calls != [] ==> locs != [] && calls[|calls| - 1].loc <= locs[|locs| - 1])
    decreases |locs|
  {
    if locs != [] {
      var front, last := locs[..|locs| - 1], locs[|locs| - 1];
      InsertCallsAscend(ins, front);
      InsertsGoOn(InsertCalls(ins, front), last, TextsAt(ins, last));
    }
  }

  lemma CallsInParts(inserts: seq<Call>, indents: seq<(CharRange, int)>, removals: seq<CharRange>)
    requires InsertsFirst(inserts, |inserts|)
    ensures var calls := inserts + IndentCalls(indents) + RemoveCalls(removals);
      var n := |calls| - |indents| - |removals|;
      && n == |inserts| && calls[..n] == inserts && InsertsFirst(calls, n)
      && IndentsFrom(calls, n, indents) && RemovesFrom(calls, n + |indents|, removals)
  {
    var front, back := inserts + IndentCalls(indents), RemoveCalls(removals);
    forall i | 0 <= i < |indents|
      ensures (front + back)[|inserts| + i] == IndentCall(indents[i].0, indents[i].1)
    {
      assert front[|inserts| + i] == IndentCalls(indents)[i];
    }
  }

  lemma AllTextsInserted(ins: Inserts, locs: seq<int>, inserts: seq<Call>)
    requires Ascending(locs) && (forall loc :: loc in locs <==> loc in ins) && inserts == InsertCalls(ins, locs)
    ensures InsertsTexts(inserts, ins)
  {
    forall loc
      ensures CallTexts(inserts, loc) == TextsAt(ins, loc)
    {
      TextsOfInsertCalls(ins, locs, loc);
    }
  }

  lemma CallsHandedOver(ins: Inserts, inserts: seq<Call>, indents: seq<(CharRange, int)>, removals: seq<CharRange>)
    requires InsertsFirst(inserts, |inserts|) && InsertsTexts(inserts, ins)
    ensures HandedOver(inserts + IndentCalls(indents) + RemoveCalls(removals), ins, indents, removals)
  {
    CallsInParts(inserts, indents, removals);
  }

  /** The locations of `ins` that are not in `todo` are handled, and come before the others. */
  ghost predicate Handled(ins: Inserts, todo: set<int>, locs: seq<int>) {
    && todo <= ins.Keys && Ascending(locs)
    && (forall loc :: loc in locs <==> loc in ins && loc !in todo)
    && (forall i, loc :: 0 <= i < |locs| && loc in todo ==> locs[i] < loc)
  }

  lemma HandledNext(ins: Inserts, todo: set<int>, locs: seq<int>, loc: int)
    requires Handled(ins, todo, locs) && loc in todo && forall other :: other in todo ==> loc <= other
    ensures Handled(ins, todo - {loc}, locs + [loc])
  {
  }

  lemma Member(s: set<int>) returns (x: int)
    requires s != {}
    ensures x in s
  {
    assert (forall y :: y !in s) ==> s == {};
    x :| x in s;
  }

  lemma {:induction false} HasLeast(s: set<int>, x: int)
    requires x in s
    ensures exists least :: least in s && forall y :: y in s ==> least <= y
    decreases s
  {
    if y :| y in s && y < x {
      HasLeast(s - {x}, y);
      var least :| least in s - {x} && forall z :: z in s - {x} ==> least <= z;
      assert forall z :: z in s ==> z == x || z in s - {x};
      assert forall z :: z in s ==> least <= z;
    }
  }

  class TransformActions {
    const src: Source
    const capturedDiags: CapturedDiagList
    const edits: EditList
    var inTransaction: bool
    var cachedActions: seq<Action>
    var stmtRemovals: set<Stmt>
    var indentationRanges: seq<(CharRange, int)>

    constructor (src: Source, capturedDiags: CapturedDiagList)
      ensures this.src == src && this.capturedDiags == capturedDiags
      ensures Valid() && fresh(edits)
      ensures Value() == Session(NOTHING.(diags := capturedDiags.list), false, [])
    {
      this.src, this.capturedDiags := src, capturedDiags;
      edits := new EditList();
      inTransaction, cachedActions := false, [];
      stmtRemovals, indentationRanges := {}, [];
    }

    ghost predicate Valid()
      reads this, edits
    {
      edits.Valid()
    }

    ghost function Value(): Session
      reads this, edits, capturedDiags
    {
      Session(Ledger(edits.Value(), stmtRemovals, indentationRanges, capturedDiags.list), inTransaction, cachedActions)
    }

    method StartTransaction()
      requires Valid() && Legal(Value(), Start)
      modifies this`inTransaction
      ensures Valid() && Value() == Next(src, old(Value()), Start)
    {
      inTransaction := true;
    }

    method AbortTransaction()
      requires Valid() && Legal(Value(), Abort)
      modifies this`inTransaction, this`cachedActions
      ensures Valid() && Value() == Next(src, old(Value()), Abort)
    {
      cachedActions := [];
      inTransaction := false;
    }

    method AreAllPossible() returns (r: bool)
      ensures r <==> AllPossible(src, cachedActions)
    {
      r := true;
      var i := 0;
      while i < |cachedActions| && r
        invariant 0 <= i <= |cachedActions|
        invariant r ==> forall k :: 0 <= k < i ==> Possible(src, cachedActions[k])
        invariant !r ==> !AllPossible(src, cachedActions)
      {
        r := Possible(src, cachedActions[i]);
        i := i + 1;
      }
    }

    method CommitActions()
      requires Valid() && AllOrdered(src, cachedActions)
      modifies this`stmtRemovals, this`indentationRanges, edits, capturedDiags
      ensures Valid() && Value().ledger == CommitAll(src, old(Value()).ledger, cachedActions)
    {
      var i := 0;
      ghost var before := Value().ledger;
      while i < |cachedActions|
        invariant 0 <= i <= |cachedActions| && Valid()
        invariant Value().ledger == CommitAll(src, before, cachedActions[..i])
      {
        CommitAction(cachedActions[i]);
        assert cachedActions[..i + 1][..i] == cachedActions[..i];
        i := i + 1;
      }
      assert cachedActions[..i] == cachedActions;
    }

    /** Answers true if some action was impossible, and then changes nothing but the transaction itself. */
    method CommitTransaction() returns (failed: bool)
      requires Valid() && Legal(Value(), Commit) && AllOrdered(src, cachedActions)
      modifies this, edits, capturedDiags
      ensures Valid() && Value() == Next(src, old(Value()), Commit)
      ensures failed <==> exists k :: 0 <= k < |old(cachedActions)| && !Possible(src, old(cachedActions)[k])
      ensures failed ==> Value().ledger == old(Value()).ledger
    {
      if cachedActions == [] {
        inTransaction := false;
        return false;
      }
      var allActionsPossible := AreAllPossible();
      if !allActionsPossible {
        AbortTransaction();
        return true;
      }
      CommitActions();
      cachedActions := [];
      inTransaction := false;
      failed := false;
    }

    method CommitAction(a: Action)
      requires Valid() && Ordered(src, a)
      modifies this`stmtRemovals, this`indentationRanges, edits, capturedDiags
      ensures Valid() && Value().ledger == CommitOne(src, old(Value()).ledger, a)
    {
      ghost var ops := OpsOf(src, stmtRemovals, a);
      ghost var e := edits.Value();
      match a {
        case InsertText(loc, text) =>
          edits.AddInsertion(src.position(loc), text);
          OneOp(e, ops);
        case InsertAfterToken(loc, text) =>
          edits.AddInsertion(src.endOfToken(loc), text);
          OneOp(e, ops);
        case RemoveRange(r) =>
          edits.AddRemoval(TokenRange(src, r));
          OneOp(e, ops);
        case RemoveStmt(s) =>
          CommitRemoveStmt(s);
        case ReplaceRange(r, replacement) =>
          CommitReplace(r, replacement);
        case ReplaceText(loc, text, replacementText) =>
          CommitReplaceText(loc, text, replacementText);
        case IncreaseIndentation(r, parentIndent) =>
          indentationRanges := indentationRanges + [(TokenRange(src, r), src.position(parentIndent))];
        case ClearDiagnostics(q) =>
          var cleared := capturedDiags.ClearDiagnostic(q);
      }
    }

    method CommitRemoveStmt(s: Stmt)
      requires Valid() && Ordered(src, RemoveStmt(s))
      modifies this`stmtRemovals, edits
      ensures Valid() && stmtRemovals == old(stmtRemovals) + {s}
      ensures edits.Value() == PerformFrom(old(edits.Value()), OpsOf(src, old(stmtRemovals), RemoveStmt(s)))
    {
      ghost var ops := OpsOf(src, stmtRemovals, RemoveStmt(s));
      ghost var e := edits.Value();
      if s in stmtRemovals {
        assert stmtRemovals == stmtRemovals + {s};
        return;
      }
      edits.AddRemoval(TokenRange(src, s.range));
      if s.isExpr {
        edits.AddInsertion(src.position(s.range.begin), REMOVED_EXPR_MACRO);
        TwoOps(e, ops);
      } else {
        OneOp(e, ops);
      }
      stmtRemovals := stmtRemovals + {s};
    }

    method CommitReplaceText(loc: int, text: string, replacementText: string)
      requires Valid()
      modifies edits
      ensures Valid()
      ensures edits.Value() ==
              PerformFrom(old(edits.Value()), OpsOf(src, stmtRemovals, ReplaceText(loc, text, replacementText)))
    {
      ghost var e := edits.Value();
      edits.AddRemoval(CharRange(src.position(loc), src.position(loc) + |text|));
      edits.AddInsertion(src.position(loc), replacementText);
      TwoOps(e, OpsOf(src, stmtRemovals, ReplaceText(loc, text, replacementText)));
    }

    method CommitReplace(r: SourceRange, replacement: SourceRange)
      requires Valid()
      modifies edits
      ensures Valid()
      ensures edits.Value() == PerformFrom(old(edits.Value()), OpsOf(src, stmtRemovals, ReplaceRange(r, replacement)))
    {
      ghost var ops := OpsOf(src, stmtRemovals, ReplaceRange(r, replacement));
      ghost var e := edits.Value();
      if CompareWith(TokenRange(src, replacement), TokenRange(src, r)) != Contained {
        return;
      }
      if r.begin != replacement.begin {
        edits.AddRemoval(CharRange(src.position(r.begin), src.position(replacement.begin)));
      }
      if replacement.end != r.end {
        edits.AddRemoval(CharRange(src.endOfToken(replacement.end), src.endOfToken(r.end)));
      }
      if |ops| == 1 {
        OneOp(e, ops);
      } else if |ops| == 2 {
        TwoOps(e, ops);
      }
    }

    /** Hands the edits to the receiver: the insertions by ascending location, the texts at one location in
        the order in which they were requested; then the indentations; then the removals. */
    method ApplyRewrites() returns (calls: seq<Call>, locs: seq<int>)
      requires Valid()
      ensures HandedOver(calls, edits.inserts, indentationRanges, edits.removals)
      ensures Ascending(locs) && forall loc :: loc in locs <==> loc in edits.inserts
      ensures calls == InsertCalls(edits.inserts, locs) + IndentCalls(indentationRanges) + RemoveCalls(edits.removals)
    {
      calls, locs := [], [];
      var todo := edits.inserts.Keys;
      while todo != {}
        invariant Handled(edits.inserts, todo, locs)
        invariant calls == InsertCalls(edits.inserts, locs)
        decreases todo
      {
        ghost var some := Member(todo);
        HasLeast(todo, some);
        var loc :| loc in todo && forall other :: other in todo ==> loc <= other;
        calls := calls + InsertCallsAt(loc, edits.inserts[loc]);
        OneMoreLocation(edits.inserts, locs, loc);
        HandledNext(edits.inserts, todo, locs, loc);
        locs := locs + [loc];
        todo := todo - {loc};
      }
      InsertCallsAscend(edits.inserts, locs);
      AllTextsInserted(edits.inserts, locs, calls);
      CallsHandedOver(edits.inserts, calls, indentationRanges, edits.removals);
      calls := calls + IndentCalls(indentationRanges) + RemoveCalls(edits.removals);
    }

    // Recording

    method RecordAction(a: Action)
      requires Valid() && Legal(Value(), Record(a))
      modifies this`cachedActions
      ensures Valid() && Value() == Next(src, old(Value()), Record(a))
    {
      cachedActions := cachedActions + [a];
    }

    method RemoveStatement(s: Stmt)
      requires Valid() && inTransaction
      modifies this`cachedActions
      ensures Valid()
      ensures Value() == Next(src, old(Value()), Record(RemoveStmt(if s.isExpr then src.ignoreImplicit(s) else s)))
    {
      RecordAction(RemoveStmt(if s.isExpr then src.ignoreImplicit(s) else s));
    }

    method ReplaceByText(range: SourceRange, text: string)
      requires Valid() && inTransaction
      modifies this`cachedActions
      ensures Valid()
      ensures Value() == Next(src, Next(src, old(Value()), Record(RemoveRange(range))),
                              Record(InsertText(range.begin, text)))
    {
      RecordAction(RemoveRange(range));
      RecordAction(InsertText(range.begin, text));
    }

    method ReplaceStatement(s: Stmt, text: string)
      requires Valid() && inTransaction
      modifies this`cachedActions
      ensures Valid()
      ensures cachedActions == old(cachedActions) + [InsertText(s.range.begin, text)] +
                               [RemoveStmt(if s.isExpr then src.ignoreImplicit(s) else s)]
      ensures Value() == old(Value()).(pending := cachedActions)
    {
      RecordAction(InsertText(s.range.begin, text));
      RemoveStatement(s);
    }

    /** Records the clearing only if there is something to clear. */
    method ClearDiagnostic(q: Query) returns (found: bool)
      requires Valid() && Legal(Value(), Clear(q))
      modifies this`cachedActions
      ensures Valid() && Value() == Next(src, old(Value()), Clear(q))
      ensures found <==> Has(q, capturedDiags.list)
    {
      found := capturedDiags.HasDiagnostic(q);
      if found {
        cachedActions := cachedActions + [ClearDiagnostics(q)];
      }
    }
  }

  lemma OneOp(e: Edits, ops: seq<Op>)
    requires |ops| == 1
    ensures PerformFrom(e, ops) == Perform(e, ops[0])
  {
    assert ops[..0] == [];
  }

  lemma TwoOps(e: Edits, ops: seq<Op>)
    requires |ops| == 2
    ensures PerformFrom(e, ops) == Perform(Perform(e, ops[0]), ops[1])
  {
    OneOp(e, ops[..1]);
  }

  /** The scope object around a transaction: it commits when closed, unless it was aborted. */
  class Transaction {
    const ta: TransformActions
    var aborted: bool

    constructor (ta: TransformActions)
      requires ta.Valid() && !ta.inTransaction
      modifies ta`inTransaction
      ensures this.ta == ta && !aborted
      ensures ta.Valid() && ta.Value() == Next(ta.src, old(ta.Value()), Start)
    {
      this.ta := ta;
      aborted := false;
      new;
      ta.StartTransaction();
    }

    method Abort()
      requires ta.Valid() && ta.inTransaction
      modifies this, ta`inTransaction, ta`cachedActions
      ensures aborted && ta.Valid() && ta.Value() == Next(ta.src, old(ta.Value()), Event.Abort)
    {
      ta.AbortTransaction();
      aborted := true;
    }

    method Close()
      requires ta.Valid() && (!aborted ==> ta.inTransaction && AllOrdered(ta.src, ta.cachedActions))
      modifies ta, ta.edits, ta.capturedDiags
      ensures ta.Valid()
      ensures ta.Value() == if aborted then old(ta.Value()) else Next(ta.src, old(ta.Value()), Commit)
    {
      if !aborted {
        var failed := ta.CommitTransaction();
      }
    }
  }
}
