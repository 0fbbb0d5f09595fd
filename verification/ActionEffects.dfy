/// What each recorded action does to the edits, said with positions and texts.

module ActionEffects {
  import opened EditMerge
  import opened Transactions

  /** From `begin` up to `end` the text is removed, with everything inserted strictly between. */
  ghost predicate Removes(before: Edits, after: Edits, begin: int, end: int) {
    && NormalForm(after.removals)
    && (forall x :: Covers(after.removals, x) <==> Covers(before.removals, x) || begin <= x < end)
    && (forall p :: TextsAt(after.inserts, p) == if begin < p < end then [] else TextsAt(before.inserts, p))
  }

  /** What is around `at` has been removed, so that nothing can be inserted there. */
  ghost predicate Buried(st: Edits, at: int) {
    Covers(st.removals, at - 1) && Covers(st.removals, at)
  }

  /** At `at`, unless it is buried, `text` is added after what was inserted there before; nothing else changes. */
  ghost predicate Appends(before: Edits, after: Edits, at: int, text: string) {
    && after.removals == before.removals
    && forall p :: TextsAt(after.inserts, p) ==
         TextsAt(before.inserts, p) + if p == at && !Buried(before, at) then [text] else []
  }

  lemma PerformRemoves(st: Edits, r: CharRange)
    requires NormalForm(st.removals) && r.begin <= r.end
    ensures Removes(st, Perform(st, Remove(r)), r.begin, r.end)
  {
    if r.begin < r.end {
      AddBackKeeps(st.removals, r);
    }
  }

  lemma PerformAppends(st: Edits, at: int, text: string)
    requires NormalForm(st.removals)
    ensures Appends(st, Perform(st, Insert(at, text)), at, text)
  {
    StrictlyInsideIsBothSides(st.removals, at);
  }

  /** Everything but the edits is as it was. */
  ghost predicate EditsOnly(before: Ledger, after: Ledger) {
    after.gone == before.gone && after.indents == before.indents && after.diags == before.diags
  }

  // ---------- Each action ----------

  lemma OneOpDone(st: Edits, op: Op)
    ensures PerformFrom(st, [op]) == Perform(st, op)
  {
    assert PerformFrom(st, [op][..0]) == st;
  }

  lemma TwoOpsDone(st: Edits, first: Op, second: Op)
    ensures PerformFrom(st, [first, second]) == Perform(Perform(st, first), second)
  {
    OneOpDone(st, first);
    assert [first, second][..1] == [first];
  }

  lemma RemoveThenInsert(st: Edits, r: CharRange, at: int, text: string) returns (removed: Edits)
    requires NormalForm(st.removals) && r.begin <= r.end
    ensures Removes(st, removed, r.begin, r.end)
    ensures Appends(removed, PerformFrom(st, [Remove(r), Insert(at, text)]), at, text)
  {
    removed := Perform(st, Remove(r));
    TwoOpsDone(st, Remove(r), Insert(at, text));
    PerformRemoves(st, r);
    PerformAppends(removed, at, text);
  }

  /** The text goes where the token at `loc` begins. */
  lemma InsertTextAppends(src: Source, st: Ledger, loc: Loc, text: string)
    requires NormalForm(st.edits.removals)
    ensures var after := CommitOne(src, st, InsertText(loc, text));
      EditsOnly(st, after) && Appends(st.edits, after.edits, src.position(loc), text)
  {
    OneOpDone(st.edits, Insert(src.position(loc), text));
    PerformAppends(st.edits, src.position(loc), text);
  }

  /** The text goes where the token at `loc` ends. */
  lemma InsertAfterTokenAppends(src: Source, st: Ledger, loc: Loc, text: string)
    requires NormalForm(st.edits.removals)
    ensures var after := CommitOne(src, st, InsertAfterToken(loc, text));
      EditsOnly(st, after) && Appends(st.edits, after.edits, src.endOfToken(loc), text)
  {
    OneOpDone(st.edits, Insert(src.endOfToken(loc), text));
    PerformAppends(st.edits, src.endOfToken(loc), text);
  }

  /** A range is removed from the beginning of its first token to the end of its last. */
  lemma RemoveRangeRemoves(src: Source, st: Ledger, r: SourceRange)
    requires NormalForm(st.edits.removals) && src.position(r.begin) <= src.endOfToken(r.end)
    ensures var after := CommitOne(src, st, RemoveRange(r));
      EditsOnly(st, after) && Removes(st.edits, after.edits, src.position(r.begin), src.endOfToken(r.end))
  {
    OneOpDone(st.edits, Remove(TokenRange(src, r)));
    PerformRemoves(st.edits, TokenRange(src, r));
  }

  /** A statement is removed as its range is, but only once. */
  lemma RemoveStmtRemoves(src: Source, st: Ledger, s: Stmt)
    requires NormalForm(st.edits.removals) && !s.isExpr
    requires src.position(s.range.begin) <= src.endOfToken(s.range.end)
    ensures var after := CommitOne(src, st, RemoveStmt(s));
      && after.gone == st.gone + {s} && after.indents == st.indents && after.diags == st.diags
      && if s in st.gone then after.edits == st.edits
         else Removes(st.edits, after.edits, src.position(s.range.begin), src.endOfToken(s.range.end))
  {
    if s !in st.gone {
      OneOpDone(st.edits, Remove(TokenRange(src, s.range)));
      PerformRemoves(st.edits, TokenRange(src, s.range));
    }
  }

  /** An expression leaves a macro name at its beginning. */
  lemma RemoveExprLeavesMacro(src: Source, st: Ledger, s: Stmt) returns (removed: Edits)
    requires NormalForm(st.edits.removals) && s.isExpr
    requires src.position(s.range.begin) <= src.endOfToken(s.range.end)
    ensures var after := CommitOne(src, st, RemoveStmt(s));
      && after.gone == st.gone + {s} && after.indents == st.indents && after.diags == st.diags
      && if s in st.gone then after.edits == st.edits
         else
           && Removes(st.edits, removed, src.position(s.range.begin), src.endOfToken(s.range.end))
           && Appends(removed, after.edits, src.position(s.range.begin), "__IMPL_ARCMT_REMOVED_EXPR__")
  {
    removed := RemoveThenInsert(st.edits, TokenRange(src, s.range), src.position(s.range.begin), REMOVED_EXPR_MACRO);
  }

  /** As many characters as `text` has are removed at `loc`, and the replacement goes there. */
  lemma ReplaceTextReplaces(src: Source, st: Ledger, loc: Loc, text: string, replacement: string)
    returns (removed: Edits)
    requires NormalForm(st.edits.removals)
    ensures var after, at := CommitOne(src, st, ReplaceText(loc, text, replacement)), src.position(loc);
      && EditsOnly(st, after)
      && Removes(st.edits, removed, at, at + |text|)
      && Appends(removed, after.edits, at, replacement)
  {
    var at := src.position(loc);
    removed := RemoveThenInsert(st.edits, CharRange(at, at + |text|), at, replacement);
  }

  /** Of a range whose replacement lies in it, what comes before and after the replacement is removed; a range whose
      replacement does not lie in it is left alone. */
  lemma ReplaceRangeRemovesAround(src: Source, st: Ledger, r: SourceRange, replacement: SourceRange)
    requires NormalForm(st.edits.removals)
    requires src.position(replacement.begin) <= src.endOfToken(replacement.end)
    ensures var after := CommitOne(src, st, ReplaceRange(r, replacement)).edits;
      var begin, end := src.position(r.begin), src.endOfToken(r.end);
      var first, last := src.position(replacement.begin), src.endOfToken(replacement.end);
      if begin <= first && last <= end then
        && (forall x :: Covers(after.removals, x) <==>
              Covers(st.edits.removals, x) || begin <= x < first || last <= x < end)
        && (forall p :: TextsAt(after.inserts, p) ==
              if begin < p < first || last < p < end then [] else TextsAt(st.edits.inserts, p))
      else after == st.edits
  {
    var ops := OpsOf(src, st.gone, ReplaceRange(r, replacement));
    var front := CharRange(src.position(r.begin), src.position(replacement.begin));
    var back := CharRange(src.endOfToken(replacement.end), src.endOfToken(r.end));
    if |ops| == 2 {
      TwoOpsDone(st.edits, Remove(front), Remove(back));
      assert ops == [Remove(front), Remove(back)];
      PerformRemoves(st.edits, front);
      PerformRemoves(Perform(st.edits, Remove(front)), back);
    } else if |ops| == 1 {
      var op := if r.begin != replacement.begin then front else back;
      OneOpDone(st.edits, Remove(op));
      assert ops == [Remove(op)];
      PerformRemoves(st.edits, op);
    }
  }

  /** The other actions leave the edits alone. */
  lemma OtherActionsLeaveEdits(src: Source, st: Ledger, r: SourceRange, parent: Loc, q: CapturedDiagnostics.Query)
    ensures var after := CommitOne(src, st, IncreaseIndentation(r, parent));
      && after == st.(indents := after.indents)
      && after.indents == st.indents + [(CharRange(src.position(r.begin), src.endOfToken(r.end)), src.position(parent))]
    ensures var after := CommitOne(src, st, ClearDiagnostics(q));
      after == st.(diags := CapturedDiagnostics.Cleared(q, st.diags))
  {
  }

  // ---------- Actions together ----------

  /** What must hold of the source for an action fits together: a range can be removed exactly when text can be
      inserted at its two ends, and replaced exactly when both ranges can be removed. */
  lemma PossibleTogether(src: Source, r: SourceRange, replacement: SourceRange, loc: Loc,
                         text: string, a: string, b: string)
    ensures Possible(src, InsertText(loc, a)) <==> src.canInsert(loc)
    ensures Possible(src, InsertAfterToken(loc, a)) <==> src.canInsertAfterToken(loc)
    ensures Possible(src, RemoveRange(r)) <==>
            Possible(src, InsertText(r.begin, a)) && Possible(src, InsertAfterToken(r.end, b))
    ensures forall s: Stmt :: Possible(src, RemoveStmt(s)) <==> Possible(src, RemoveRange(s.range))
    ensures Possible(src, ReplaceRange(r, replacement)) <==>
            Possible(src, RemoveRange(r)) && Possible(src, RemoveRange(replacement))
    ensures Possible(src, ReplaceText(loc, text, b)) <==> Possible(src, InsertText(loc, a)) && src.hasText(loc, text)
  {
  }

  /** From `before` to `after` the texts `opened` were added at `begin` and `closed` at `end`, and the range between
      them was removed if `removed` holds. */
  ghost predicate Bracketed(before: Edits, after: Edits, begin: int, end: int,
                            opening: seq<string>, closing: seq<string>, removed: bool) {
    && NormalForm(after.removals)
    && (forall x :: Covers(after.removals, x) <==> Covers(before.removals, x) || (removed && begin <= x < end))
    && TextsAt(after.inserts, begin) == TextsAt(before.inserts, begin) + opening
    && TextsAt(after.inserts, end) == TextsAt(before.inserts, end) + closing
    && forall p :: begin < p < end ==>
         TextsAt(after.inserts, p) == if removed then [] else TextsAt(before.inserts, p)
  }

  function Opens(a: Action, open: string): seq<string> {
    if a.InsertText? then [open] else []
  }

  function Closes(a: Action, close: string): seq<string> {
    if a.InsertAfterToken? then [close] else []
  }

  /** What one of the three actions does at and between the two ends. */
  lemma BracketStep(src: Source, st: Ledger, r: SourceRange, open: string, close: string, a: Action)
    requires NormalForm(st.edits.removals) && src.position(r.begin) < src.endOfToken(r.end)
    requires !Covers(st.edits.removals, src.position(r.begin) - 1) && !Covers(st.edits.removals, src.endOfToken(r.end))
    requires a == InsertText(r.begin, open) || a == InsertAfterToken(r.end, close) || a == RemoveRange(r)
    ensures Bracketed(st.edits, CommitOne(src, st, a).edits, src.position(r.begin), src.endOfToken(r.end),
                      Opens(a, open), Closes(a, close), a.RemoveRange?)
  {
    InsertTextAppends(src, st, r.begin, open);
    InsertAfterTokenAppends(src, st, r.end, close);
    RemoveRangeRemoves(src, st, r);
  }

  lemma BracketedTwice(one: Edits, two: Edits, three: Edits, begin: int, end: int,
                       opening: seq<string>, closing: seq<string>, removed: bool,
                       opening': seq<string>, closing': seq<string>, removed': bool)
    requires begin < end
    requires Bracketed(one, two, begin, end, opening, closing, removed)
    requires Bracketed(two, three, begin, end, opening', closing', removed')
    ensures Bracketed(one, three, begin, end, opening + opening', closing + closing', removed || removed')
  {
  }

  lemma ThreeActions(src: Source, st: Ledger, a: Action, b: Action, c: Action)
    ensures CommitAll(src, st, [a, b, c]) == CommitOne(src, CommitOne(src, CommitOne(src, st, a), b), c)
  {
    CommitOneMore(src, st, [], a);
    CommitOneMore(src, st, [a], b);
    CommitOneMore(src, st, [a, b], c);
    assert [] + [a] == [a] && [a] + [b] == [a, b] && [a, b] + [c] == [a, b, c];
  }

  /** Three different actions that all occur among three are those, in some order. */
  lemma Occurring(a: Action, b: Action, c: Action, i: Action, j: Action, k: Action)
    requires i in [a, b, c] && j in [a, b, c] && k in [a, b, c] && i != j && j != k && i != k
    ensures (a == i && ((b == j && c == k) || (b == k && c == j)))
         || (a == j && ((b == i && c == k) || (b == k && c == i)))
         || (a == k && ((b == i && c == j) || (b == j && c == i)))
  {
  }

  /** Texts inserted before the first token of a range and after its last one survive the removal of the range,
      at its two ends and in whatever order the three actions are committed, if nothing around was removed. */
  lemma BracketsSurvive(src: Source, st: Ledger, r: SourceRange, open: string, close: string, actions: seq<Action>)
    requires NormalForm(st.edits.removals) && src.position(r.begin) < src.endOfToken(r.end)
    requires !Covers(st.edits.removals, src.position(r.begin) - 1) && !Covers(st.edits.removals, src.endOfToken(r.end))
    requires |actions| == 3 && InsertText(r.begin, open) in actions && InsertAfterToken(r.end, close) in actions
    requires RemoveRange(r) in actions
    ensures Bracketed(st.edits, CommitAll(src, st, actions).edits, src.position(r.begin), src.endOfToken(r.end),
                      [open], [close], true)
  {
    var a, b, c := actions[0], actions[1], actions[2];
    assert actions == [a, b, c];
    ThreeActions(src, st, a, b, c);
    Occurring(a, b, c, InsertText(r.begin, open), InsertAfterToken(r.end, close), RemoveRange(r));
    var one := CommitOne(src, st, a);
    var two := CommitOne(src, one, b);
    BracketStep(src, st, r, open, close, a);
    BracketStep(src, one, r, open, close, b);
    BracketStep(src, two, r, open, close, c);
    ThreeSteps(st.edits, one.edits, two.edits, CommitOne(src, two, c).edits, src.position(r.begin),
               src.endOfToken(r.end), open, close, a, b, c);
  }

  lemma ThreeSteps(st: Edits, one: Edits, two: Edits, three: Edits, begin: int, end: int, open: string, close: string,
                   a: Action, b: Action, c: Action)
    requires begin < end && (a.InsertText? || b.InsertText? || c.InsertText?)
    requires (a.InsertAfterToken? || b.InsertAfterToken? || c.InsertAfterToken?)
    requires (a.RemoveRange? || b.RemoveRange? || c.RemoveRange?)
    requires Bracketed(st, one, begin, end, Opens(a, open), Closes(a, close), a.RemoveRange?)
    requires Bracketed(one, two, begin, end, Opens(b, open), Closes(b, close), b.RemoveRange?)
    requires Bracketed(two, three, begin, end, Opens(c, open), Closes(c, close), c.RemoveRange?)
    ensures Bracketed(st, three, begin, end, [open], [close], true)
  {
    BracketedTwice(st, one, two, begin, end, Opens(a, open), Closes(a, close), a.RemoveRange?,
                   Opens(b, open), Closes(b, close), b.RemoveRange?);
    BracketedTwice(st, two, three, begin, end, Opens(a, open) + Opens(b, open), Closes(a, close) + Closes(b, close),
                   a.RemoveRange? || b.RemoveRange?, Opens(c, open), Closes(c, close), c.RemoveRange?);
    assert Opens(a, open) + Opens(b, open) + Opens(c, open) == [open];
    assert Closes(a, close) + Closes(b, close) + Closes(c, close) == [close];
  }
}
