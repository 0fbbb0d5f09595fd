/// The table of remapped files: two maps that must agree, and the file in which it is kept.

module FileRemapper {
  import opened Prelude
  import opened Decimals

  type File = nat

  /** A file is replaced by another file or by a buffer with new contents. */
  datatype Target = ToFile(file: File) | ToBuffer(contents: string)

  datatype Mappings = Mappings(fromTo: map<File, Target>, toFrom: map<File, File>)

  const NO_MAPPINGS: Mappings := Mappings(map[], map[])

  // ---------- One change ----------

  /** Forgets that the present target of `file` stands for it. */
  function ResetTarget(m: Mappings, file: File): Mappings {
    if file in m.fromTo && m.fromTo[file].ToFile? then m.(toFrom := m.toFrom - {m.fromTo[file].file}) else m
  }

  function RemapToFile(m: Mappings, file: File, newFile: File): Mappings {
    var r := ResetTarget(m, file);
    Mappings(r.fromTo[file := ToFile(newFile)], r.toFrom[newFile := file])
  }

  function RemapToBuffer(m: Mappings, file: File, contents: string): Mappings {
    var r := ResetTarget(m, file);
    r.(fromTo := r.fromTo[file := ToBuffer(contents)])
  }

  /** The file that `file` stands for: the original, if `file` replaces one. */
  function OriginalOf(m: Mappings, file: File): File {
    if file in m.toFrom then m.toFrom[file] else file
  }

  /** Whatever the second map says is also in the first. */
  ghost predicate Consistent(m: Mappings) {
    forall n :: n in m.toFrom ==> m.toFrom[n] in m.fromTo && m.fromTo[m.toFrom[n]] == ToFile(n)
  }

  /** The two maps are inverse to one another. */
  ghost predicate Inverse(m: Mappings) {
    && Consistent(m)
    && forall f :: f in m.fromTo && m.fromTo[f].ToFile? ==>
       m.fromTo[f].file in m.toFrom && m.toFrom[m.fromTo[f].file] == f
  }

  lemma RemapKeepsConsistent(m: Mappings, file: File, newFile: File, contents: string)
    requires Consistent(m)
    ensures Consistent(RemapToFile(m, file, newFile)) && Consistent(RemapToBuffer(m, file, contents))
  {
  }

  /** The maps stay inverse to one another exactly when no other file is already replaced by the new one. */
  lemma InverseKeptExactlyWhen(m: Mappings, file: File, newFile: File)
    requires Inverse(m)
    ensures Inverse(RemapToFile(m, file, newFile)) <==>
            !exists other :: other in m.fromTo && other != file && m.fromTo[other] == ToFile(newFile)
  {
    var r := RemapToFile(m, file, newFile);
    if other :| other in m.fromTo && other != file && m.fromTo[other] == ToFile(newFile) {
      assert r.fromTo[other] == ToFile(newFile) && r.toFrom[newFile] == file;
    } else {
      RemapKeepsConsistent(m, file, newFile, "");
      forall f | f in r.fromTo && r.fromTo[f].ToFile?
        ensures r.fromTo[f].file in r.toFrom && r.toFrom[r.fromTo[f].file] == f
      {
        if f != file {
          assert m.fromTo[f] == r.fromTo[f] && m.toFrom[m.fromTo[f].file] == f;
        }
      }
    }
  }

  lemma BufferKeepsInverse(m: Mappings, file: File, contents: string)
    requires Inverse(m)
    ensures Inverse(RemapToBuffer(m, file, contents))
  {
    var r := RemapToBuffer(m, file, contents);
    forall f | f in r.fromTo && r.fromTo[f].ToFile?
      ensures r.fromTo[f].file in r.toFrom && r.toFrom[r.fromTo[f].file] == f
    {
      assert f != file && m.fromTo[f] == r.fromTo[f] && m.toFrom[m.fromTo[f].file] == f;
    }
  }

  // ---------- Runs ----------

  datatype Change =
    | FileChange(file: File, newFile: File)
    | BufferChange(file: File, contents: string)
    | PathChange(found: File, contents: string)
    | Clear

  function Apply(m: Mappings, c: Change): Mappings {
    match c
    case FileChange(file, newFile) => RemapToFile(m, file, newFile)
    case BufferChange(file, contents) => RemapToBuffer(m, file, contents)
    case PathChange(found, contents) => RemapToBuffer(m, OriginalOf(m, found), contents)
    case Clear => NO_MAPPINGS
  }

  function Run(changes: seq<Change>): Mappings {
    if changes == [] then NO_MAPPINGS else Apply(Run(changes[..|changes| - 1]), changes[|changes| - 1])
  }

  /** `file` gets the target, every other file keeps its own; the target leads back to `file`, if it is a file,
      and the old target of `file` no longer does. */
  ghost predicate Retargets(before: Mappings, after: Mappings, file: File, target: Target) {
    && (forall f :: f in after.fromTo <==> f == file || f in before.fromTo)
    && (forall f :: f in after.fromTo ==> after.fromTo[f] == if f == file then target else before.fromTo[f])
    && (forall n :: n in after.toFrom <==>
          target == ToFile(n) || (n in before.toFrom && !(file in before.fromTo && before.fromTo[file] == ToFile(n))))
    && (forall n :: n in after.toFrom ==> after.toFrom[n] == if target == ToFile(n) then file else before.toFrom[n])
  }

  /** A change by path goes to the file that the one found replaces, if it replaces one. */
  lemma ChangeRetargets(m: Mappings, file: File, newFile: File, contents: string)
    ensures Retargets(m, Apply(m, FileChange(file, newFile)), file, ToFile(newFile))
    ensures Retargets(m, Apply(m, BufferChange(file, contents)), file, ToBuffer(contents))
    ensures file !in m.toFrom ==> Retargets(m, Apply(m, PathChange(file, contents)), file, ToBuffer(contents))
    ensures file in m.toFrom ==> Retargets(m, Apply(m, PathChange(file, contents)), m.toFrom[file], ToBuffer(contents))
  {
  }

  /** In every reachable state whatever the second map says is in the first; hence the original of a file is
      always itself remapped. */
  lemma {:induction false} AlwaysConsistent(changes: seq<Change>)
    ensures Consistent(Run(changes))
    ensures forall n :: n in Run(changes).toFrom ==> OriginalOf(Run(changes), n) in Run(changes).fromTo
    decreases |changes|
  {
    if changes != [] {
      AlwaysConsistent(changes[..|changes| - 1]);
      var m := Run(changes[..|changes| - 1]);
      match changes[|changes| - 1] {
        case FileChange(file, newFile) => RemapKeepsConsistent(m, file, newFile, "");
        case BufferChange(file, contents) => RemapKeepsConsistent(m, file, 0, contents);
        case PathChange(found, contents) => RemapKeepsConsistent(m, OriginalOf(m, found), 0, contents);
        case Clear =>
      }
    }
  }

  /** Two originals replaced by one file: the second map keeps only the later one, and forgets that too when
      the earlier one is replaced by something else. */
  lemma SharedTargetIsForgotten(a: File, b: File, n: File)
    requires a != b
    ensures var m := RemapToFile(RemapToFile(NO_MAPPINGS, a, n), b, n);
      && m.toFrom == map[n := b]
      && RemapToBuffer(m, a, "").toFrom == map[]
  {
    var m1 := RemapToFile(NO_MAPPINGS, a, n);
    assert m1.fromTo == map[a := ToFile(n)] && m1.toFrom == map[n := a];
    var m := RemapToFile(m1, b, n);
    assert m.fromTo == map[a := ToFile(n), b := ToFile(n)];
  }

  // ---------- The file format ----------

  const ULONG_LONG: nat := 0x1_0000_0000_0000_0000

  /** What the file system says: absolute names, modification times and the files of given names. */
  datatype Disk = Disk(name: File -> string, modified: File -> nat, find: string -> Option<File>)

  /** An entry: the original file and the file that replaces it. */
  datatype Entry = Entry(original: File, replacement: File)

  function Stamp(disk: Disk, f: File): nat {
    disk.modified(f) % ULONG_LONG
  }

  function Lines(disk: Disk, e: Entry): seq<string> {
    [disk.name(e.original), Digits(Stamp(disk, e.original)), disk.name(e.replacement)]
  }

  function WriteLines(lines: seq<string>): string {
    if lines == [] then "" else lines[0] + ("\n" + WriteLines(lines[1..]))
  }

  function WriteEntries(disk: Disk, entries: seq<Entry>): string {
    if entries == [] then "" else WriteLines(Lines(disk, entries[0])) + WriteEntries(disk, entries[1..])
  }

  function Split(s: string): (lines: seq<string>)
    ensures lines != []
  {
    if s == "" then [""]
    else
      var rest := Split(s[1..]);
      if s[0] == '\n' then [""] + rest else [[s[0]] + rest[0]] + rest[1..]
  }

  /** The text as an unsigned 64-bit number. */
  function ParseNumber(s: string): Option<nat> {
    if s != "" && AllDigits(s) && Value(s) < ULONG_LONG then Some(Value(s)) else None
  }

  datatype Failure = NotANumber(line: string) | NoSuchFile(name: string) | FileModified(name: string)

  /** What to do about the entry in the first three lines. */
  datatype Verdict = Take(entry: Entry) | Skip(why: Failure) | Fail(why: Failure)

  function ReadEntry(disk: Disk, lines: seq<string>): Verdict
    requires |lines| >= 3
  {
    var time := ParseNumber(lines[1]);
    if time.None? then Fail(NotANumber(lines[1]))
    else
      var original := disk.find(lines[0]);
      if original.None? then Skip(NoSuchFile(lines[0]))
      else
        var replacement := disk.find(lines[2]);
        if replacement.None? then Skip(NoSuchFile(lines[2]))
        else if Stamp(disk, original.value) != time.value then Skip(FileModified(lines[0]))
        else Take(Entry(original.value, replacement.value))
  }

  datatype Reading = Entries(entries: seq<Entry>) | Failed(why: Failure)

  function ReadEntries(disk: Disk, lines: seq<string>, ignoreIfFilesChanged: bool): Reading {
    if |lines| < 3 then Entries([])
    else
      var v := ReadEntry(disk, lines);
      if v.Fail? || (v.Skip? && !ignoreIfFilesChanged) then Failed(v.why)
      else
        var rest := ReadEntries(disk, lines[3..], ignoreIfFilesChanged);
        if rest.Failed? || v.Skip? then rest else Entries([v.entry] + rest.entries)
  }

  /** Names without newlines. */
  ghost predicate Writable(disk: Disk, e: Entry) {
    '\n' !in disk.name(e.original) && '\n' !in disk.name(e.replacement)
  }

  /** When the entries are read back, a name finds its file or none. */
  ghost predicate Findable(before: Disk, after: Disk, e: Entry) {
    && (after.find(before.name(e.original)) == Some(e.original) || after.find(before.name(e.original)) == None)
    && (after.find(before.name(e.replacement)) == Some(e.replacement) || after.find(before.name(e.replacement)) == None)
  }

  /** Both files are still there and the original was not modified. */
  ghost predicate Unchanged(before: Disk, after: Disk, e: Entry) {
    && after.find(before.name(e.original)) == Some(e.original)
    && after.find(before.name(e.replacement)) == Some(e.replacement)
    && Stamp(after, e.original) == Stamp(before, e.original)
  }

  ghost function UnchangedOnly(before: Disk, after: Disk, entries: seq<Entry>): seq<Entry> {
    if entries == [] then []
    else
      (if Unchanged(before, after, entries[0]) then [entries[0]] else []) +
      UnchangedOnly(before, after, entries[1..])
  }

  lemma {:induction false} SplitLine(line: string, rest: string)
    requires '\n' !in line
    ensures Split(line + ("\n" + rest)) == [line] + Split(rest)
    decreases |line|
  {
    var s := line + ("\n" + rest);
    if line == "" {
      assert s == "\n" + rest && s[1..] == rest;
    } else {
      assert s[1..] == line[1..] + ("\n" + rest);
      SplitLine(line[1..], rest);
      assert [line[0]] + line[1..] == line;
    }
  }

  lemma WriteThree(a: string, b: string, c: string, rest: string)
    ensures WriteLines([a, b, c]) + rest == a + ("\n" + (b + ("\n" + (c + ("\n" + rest)))))
  {
    WriteOne(a, [b, c], rest);
    WriteOne(b, [c], rest);
    WriteOne(c, [], rest);
    assert [a] + [b, c] == [a, b, c] && [b] + [c] == [b, c] && [c] + [] == [c];
    assert WriteLines([]) + rest == rest;
  }

  lemma WriteOne(line: string, lines: seq<string>, rest: string)
    ensures WriteLines([line] + lines) + rest == line + ("\n" + (WriteLines(lines) + rest))
  {
    assert ([line] + lines)[1..] == lines;
  }

  lemma SplitEntry(disk: Disk, e: Entry, rest: string)
    requires Writable(disk, e)
    ensures Split(WriteLines(Lines(disk, e)) + rest) == Lines(disk, e) + Split(rest)
  {
    var a, b, c := disk.name(e.original), Digits(Stamp(disk, e.original)), disk.name(e.replacement);
    WriteThree(a, b, c, rest);
    SplitLine(a, b + ("\n" + (c + ("\n" + rest))));
    SplitLine(b, c + ("\n" + rest));
    SplitLine(c, rest);
  }

  ghost predicate AllUnchanged(before: Disk, after: Disk, entries: seq<Entry>) {
    forall i :: 0 <= i < |entries| ==> Unchanged(before, after, entries[i])
  }

  /** Reading back what was written gives exactly the entries whose files are still there and not modified;
      unless changed files are to be ignored, it fails if there are any others. */
  lemma {:induction false} ReadsWhatWasWritten(before: Disk, after: Disk, entries: seq<Entry>,
                                               ignoreIfFilesChanged: bool)
    requires forall i :: 0 <= i < |entries| ==> Writable(before, entries[i]) && Findable(before, after, entries[i])
    ensures var r := ReadEntries(after, Split(WriteEntries(before, entries)), ignoreIfFilesChanged);
      if ignoreIfFilesChanged || AllUnchanged(before, after, entries)
      then r == Entries(UnchangedOnly(before, after, entries))
      else r.Failed?
    decreases |entries|
  {
    if entries != [] {
      var e, rest := entries[0], entries[1..];
      var text := WriteEntries(before, rest);
      var lines := Lines(before, e) + Split(text);
      ReadsWhatWasWritten(before, after, rest, ignoreIfFilesChanged);
      SplitEntry(before, e, text);
      assert lines[3..] == Split(text) && lines[0] == Lines(before, e)[0] && lines[1] == Lines(before, e)[1];
      assert AllUnchanged(before, after, entries) <==>
             Unchanged(before, after, e) && AllUnchanged(before, after, rest) by {
        assert forall i :: 0 <= i < |rest| ==> rest[i] == entries[i + 1];
      }
      VerdictOnWritten(before, after, e, lines);
    }
  }

  lemma VerdictOnWritten(before: Disk, after: Disk, e: Entry, lines: seq<string>)
    requires Findable(before, after, e) && |lines| >= 3
    requires lines[0] == before.name(e.original) && lines[2] == before.name(e.replacement)
    requires lines[1] == Digits(Stamp(before, e.original))
    ensures if Unchanged(before, after, e) then ReadEntry(after, lines) == Take(e) else ReadEntry(after, lines).Skip?
  {
  }

  // ---------- Remapping what was read ----------

  function RemapAll(m: Mappings, entries: seq<Entry>): Mappings {
    if entries == [] then m
    else
      var last := entries[|entries| - 1];
      RemapToFile(RemapAll(m, entries[..|entries| - 1]), last.original, last.replacement)
  }

  /** The entries are those of `fromTo`, each once. */
  ghost predicate Lists(entries: seq<Entry>, fromTo: map<File, Target>) {
    && (forall i :: 0 <= i < |entries| ==>
        entries[i].original in fromTo && fromTo[entries[i].original] == ToFile(entries[i].replacement))
    && (forall i, j :: 0 <= i < j < |entries| ==> entries[i].original != entries[j].original)
    && (forall f :: f in fromTo ==> exists i :: 0 <= i < |entries| && entries[i].original == f)
  }

  lemma ListsFront(entries: seq<Entry>, fromTo: map<File, Target>)
    requires Lists(entries, fromTo) && entries != []
    ensures Lists(entries[..|entries| - 1], fromTo - {entries[|entries| - 1].original})
  {
    var front, last := entries[..|entries| - 1], entries[|entries| - 1];
    forall f | f in fromTo - {last.original}
      ensures exists i :: 0 <= i < |front| && front[i].original == f
    {
      var i :| 0 <= i < |entries| && entries[i].original == f;
      assert front[i] == entries[i];
    }
  }

  lemma {:induction false} RemapAllRestores(entries: seq<Entry>, fromTo: map<File, Target>)
    requires Lists(entries, fromTo)
    ensures RemapAll(NO_MAPPINGS, entries).fromTo == fromTo
    decreases |entries|
  {
    if entries == [] {
      assert fromTo.Keys == {};
    } else {
      var last := entries[|entries| - 1];
      ListsFront(entries, fromTo);
      RemapAllRestores(entries[..|entries| - 1], fromTo - {last.original});
      assert (fromTo - {last.original})[last.original := ToFile(last.replacement)] == fromTo;
    }
  }

  /** If the maps were inverse to one another, both are restored. */
  lemma {:induction false} RemapAllRestoresBoth(entries: seq<Entry>, m: Mappings)
    requires Lists(entries, m.fromTo) && Inverse(m)
    ensures RemapAll(NO_MAPPINGS, entries) == m
  {
    RemapAllRestores(entries, m.fromTo);
    AllInverse(entries, m);
    var r := RemapAll(NO_MAPPINGS, entries);
    forall n
      ensures n in r.toFrom <==> n in m.toFrom
      ensures n in r.toFrom ==> r.toFrom[n] == m.toFrom[n]
    {
      if n in r.toFrom {
        assert m.fromTo[r.toFrom[n]] == ToFile(n);
      }
      if n in m.toFrom {
        assert r.fromTo[m.toFrom[n]] == ToFile(n);
      }
    }
  }

  lemma {:induction false} AllInverse(entries: seq<Entry>, m: Mappings)
    requires Lists(entries, m.fromTo) && Inverse(m)
    ensures Inverse(RemapAll(NO_MAPPINGS, entries))
    decreases |entries|
  {
    if entries != [] {
      var front, last := entries[..|entries| - 1], entries[|entries| - 1];
      var without := Mappings(m.fromTo - {last.original}, m.toFrom - {last.replacement});
      ListsFront(entries, m.fromTo);
      assert m.toFrom[last.replacement] == last.original;
      assert Inverse(without);
      AllInverse(front, without);
      RemapAllRestores(front, without.fromTo);
      InverseKeptExactlyWhen(RemapAll(NO_MAPPINGS, front), last.original, last.replacement);
    }
  }

  /** `toFrom` leads every replacement back to the last of its originals. */
  ghost predicate LeadsToLast(toFrom: map<File, File>, entries: seq<Entry>) {
    && (forall n: nat :: n in toFrom ==> exists i :: 0 <= i < |entries| && entries[i].replacement == n)
    && (forall i: nat :: i < |entries| && LastFor(entries, i) ==>
          entries[i].replacement in toFrom && toFrom[entries[i].replacement] == entries[i].original)
  }

  ghost predicate LastFor(entries: seq<Entry>, i: nat)
    requires i < |entries|
  {
    forall j :: i < j < |entries| ==> entries[j].replacement != entries[i].replacement
  }

  ghost predicate DistinctOriginals(entries: seq<Entry>) {
    forall i, j :: 0 <= i < j < |entries| ==> entries[i].original != entries[j].original
  }

  lemma {:induction false} RemapAllOriginals(entries: seq<Entry>, f: File)
    ensures f in RemapAll(NO_MAPPINGS, entries).fromTo <==> exists i :: 0 <= i < |entries| && entries[i].original == f
    decreases |entries|
  {
    if entries != [] {
      var front := entries[..|entries| - 1];
      RemapAllOriginals(front, f);
      if i :| 0 <= i < |front| && front[i].original == f {
        assert entries[i].original == f;
      }
      if i :| 0 <= i < |entries| && entries[i].original == f {
        assert i < |front| ==> front[i].original == f;
      }
    }
  }

  /** Remapping entries with different originals leads every replacement back to its last original. */
  lemma {:induction false} RemapAllLeadsToLast(entries: seq<Entry>)
    requires DistinctOriginals(entries)
    ensures LeadsToLast(RemapAll(NO_MAPPINGS, entries).toFrom, entries)
    decreases |entries|
  {
    if entries != [] {
      var front, last := entries[..|entries| - 1], entries[|entries| - 1];
      RemapAllLeadsToLast(front);
      RemapAllOriginals(front, last.original);
      var before := RemapAll(NO_MAPPINGS, front);
      LeadsFurther(before.toFrom, front, last, entries, before.toFrom[last.replacement := last.original]);
    }
  }

  lemma LeadsFurther(toFrom: map<File, File>, front: seq<Entry>, last: Entry, entries: seq<Entry>,
                     longer: map<File, File>)
    requires entries == front + [last] && LeadsToLast(toFrom, front) &&
             longer == toFrom[last.replacement := last.original]
    ensures LeadsToLast(longer, entries)
  {
    forall n: nat | n in longer
      ensures exists i :: 0 <= i < |entries| && entries[i].replacement == n
    {
      if n == last.replacement {
        assert entries[|front|].replacement == n;
      } else {
        var i :| 0 <= i < |front| && front[i].replacement == n;
        assert entries[i].replacement == n;
      }
    }
    forall i: nat | i < |entries| && LastFor(entries, i)
      ensures entries[i].replacement in longer && longer[entries[i].replacement] == entries[i].original
    {
      if i < |front| {
        LastForFront(front, last, entries, i);
      }
    }
  }

  lemma LastForFront(front: seq<Entry>, last: Entry, entries: seq<Entry>, i: nat)
    requires entries == front + [last] && i < |front| && LastFor(entries, i)
    ensures LastFor(front, i) && front[i].replacement != last.replacement
  {
    assert entries[|front|].replacement != entries[i].replacement;
    forall j | i < j < |front|
      ensures front[j].replacement != front[i].replacement
    {
      assert entries[j] == front[j];
    }
  }

  lemma {:induction false} SomeLastFor(entries: seq<Entry>, i: nat) returns (k: nat)
    requires i < |entries|
    ensures k < |entries| && LastFor(entries, k) && entries[k].replacement == entries[i].replacement
    decreases |entries| - i
  {
    if j: nat :| i < j < |entries| && entries[j].replacement == entries[i].replacement {
      k := SomeLastFor(entries, j);
    } else {
      k := i;
    }
  }

  /** There is only one such map. */
  lemma {:induction false} LeadsToLastIsUnique(a: map<File, File>, b: map<File, File>, entries: seq<Entry>)
    requires LeadsToLast(a, entries) && LeadsToLast(b, entries)
    ensures a == b
  {
    forall n | n in a || n in b
      ensures n in a && n in b && a[n] == b[n]
    {
      var i :| 0 <= i < |entries| && entries[i].replacement == n;
      var k := SomeLastFor(entries, i);
    }
  }

  // ---------- Writing the table ----------

  /** What comes of a temporary file for a buffer: it may not be created or, once created, not be opened. */
  datatype Temporary = NotCreated | NotOpened | Created(file: File)

  /** The lines written for one file; a temporary file that cannot be opened leaves out the third. */
  function LinesFor(disk: Disk, f: File, target: Target, temps: File -> Temporary): seq<string> {
    [disk.name(f), Digits(Stamp(disk, f))] +
    match target
    case ToFile(n) => [disk.name(n)]
    case ToBuffer(_) => if temps(f).Created? then [disk.name(temps(f).file)] else []
  }

  function WriteTable(disk: Disk, fromTo: map<File, Target>, order: seq<File>, temps: File -> Temporary): string
    requires forall i :: 0 <= i < |order| ==> order[i] in fromTo
  {
    if order == [] then ""
    else
      var f := order[|order| - 1];
      WriteTable(disk, fromTo, order[..|order| - 1], temps) + WriteLines(LinesFor(disk, f, fromTo[f], temps))
  }

  /** The table after its buffers were moved to temporary files. */
  function MoveBuffers(m: Mappings, order: seq<File>, temps: File -> Temporary): Mappings {
    if order == [] then m
    else
      var f, before := order[|order| - 1], MoveBuffers(m, order[..|order| - 1], temps);
      if f in m.fromTo && m.fromTo[f].ToBuffer? && temps(f).Created? then RemapToFile(before, f, temps(f).file)
      else before
  }

  lemma {:induction false} OthersNotMoved(m: Mappings, order: seq<File>, temps: File -> Temporary, f: File)
    requires f !in order && f in m.fromTo
    ensures f in MoveBuffers(m, order, temps).fromTo && MoveBuffers(m, order, temps).fromTo[f] == m.fromTo[f]
    decreases |order|
  {
    if order != [] {
      OthersNotMoved(m, order[..|order| - 1], temps, f);
    }
  }

  lemma {:induction false} MovedConsistent(m: Mappings, order: seq<File>, temps: File -> Temporary)
    requires Consistent(m)
    ensures Consistent(MoveBuffers(m, order, temps))
    decreases |order|
  {
    if order != [] {
      MovedConsistent(m, order[..|order| - 1], temps);
      var f := order[|order| - 1];
      if temps(f).Created? {
        RemapKeepsConsistent(MoveBuffers(m, order[..|order| - 1], temps), f, temps(f).file, "");
      }
    }
  }

  /** The file that stands for `f` after writing. */
  function FinalTarget(m: Mappings, temps: File -> Temporary, f: File): File
    requires f in m.fromTo && (m.fromTo[f].ToBuffer? ==> temps(f).Created?)
  {
    if m.fromTo[f].ToFile? then m.fromTo[f].file else temps(f).file
  }

  ghost predicate AllCreated(m: Mappings, order: seq<File>, temps: File -> Temporary) {
    forall i :: 0 <= i < |order| ==> order[i] in m.fromTo && (m.fromTo[order[i]].ToBuffer? ==> temps(order[i]).Created?)
  }

  /** The entries that writing the table puts down. */
  function TableEntries(m: Mappings, order: seq<File>, temps: File -> Temporary): seq<Entry>
    requires AllCreated(m, order, temps)
  {
    seq(|order|, i requires 0 <= i < |order| => Entry(order[i], FinalTarget(m, temps, order[i])))
  }

  lemma {:induction false} WritesEntries(disk: Disk, m: Mappings, order: seq<File>, temps: File -> Temporary)
    requires AllCreated(m, order, temps)
    ensures WriteTable(disk, m.fromTo, order, temps) == WriteEntries(disk, TableEntries(m, order, temps))
    decreases |order|
  {
    if order != [] {
      var front, f := order[..|order| - 1], order[|order| - 1];
      WritesEntries(disk, m, front, temps);
      var e := Entry(f, FinalTarget(m, temps, f));
      assert TableEntries(m, order, temps) == TableEntries(m, front, temps) + [e];
      assert LinesFor(disk, f, m.fromTo[f], temps) == Lines(disk, e);
      WriteOneMore(disk, TableEntries(m, front, temps), e);
    }
  }

  lemma {:induction false} WriteOneMore(disk: Disk, entries: seq<Entry>, e: Entry)
    ensures WriteEntries(disk, entries + [e]) == WriteEntries(disk, entries) + WriteLines(Lines(disk, e))
    decreases |entries|
  {
    if entries != [] {
      assert (entries + [e])[1..] == entries[1..] + [e];
      WriteOneMore(disk, entries[1..], e);
    } else {
      assert [] + [e] == [e];
    }
  }

  lemma {:induction false} MovedTargets(m: Mappings, order: seq<File>, temps: File -> Temporary)
    requires AllCreated(m, order, temps) && NoRepeats(order)
    ensures var r := MoveBuffers(m, order, temps);
      && r.fromTo.Keys == m.fromTo.Keys
      && forall i :: 0 <= i < |order| ==> r.fromTo[order[i]] == ToFile(FinalTarget(m, temps, order[i]))
    decreases |order|
  {
    if order != [] {
      var front, f := order[..|order| - 1], order[|order| - 1];
      MovedTargets(m, front, temps);
      OthersNotMoved(m, front, temps, f);
      var r := MoveBuffers(m, order, temps);
      forall i | 0 <= i < |order|
        ensures order[i] in r.fromTo && r.fromTo[order[i]] == ToFile(FinalTarget(m, temps, order[i]))
      {
        if i < |front| {
          assert front[i] == order[i];
        }
      }
    }
  }

  /** Writing the table, in whatever order, and reading it back into an empty one restores the first map, and
      with it the second one if the two were inverse to one another. */
  lemma {:induction false} WriteThenRead(before: Disk, after: Disk, m: Mappings, order: seq<File>,
                                         temps: File -> Temporary, ignore: bool)
    requires AllCreated(m, order, temps) && NoRepeats(order) && forall f :: f in m.fromTo ==> f in order
    requires forall e :: e in TableEntries(m, order, temps) ==> Writable(before, e) && Unchanged(before, after, e)
    ensures var moved := MoveBuffers(m, order, temps);
      var r := ReadEntries(after, Split(WriteTable(before, m.fromTo, order, temps)), ignore);
      && r.Entries?
      && RemapAll(NO_MAPPINGS, r.entries).fromTo == moved.fromTo
      && (Inverse(moved) ==> RemapAll(NO_MAPPINGS, r.entries) == moved)
  {
    var moved, entries := MoveBuffers(m, order, temps), TableEntries(m, order, temps);
    WritesEntries(before, m, order, temps);
    ReadsUnchanged(before, after, entries, ignore);
    TableIsListed(m, order, temps);
    RemapAllRestores(entries, moved.fromTo);
    if Inverse(moved) {
      RemapAllRestoresBoth(entries, moved);
    }
  }

  /** Reading remaps files to files only. */
  lemma {:induction false} RemapAllToFiles(entries: seq<Entry>, f: File)
    requires f in RemapAll(NO_MAPPINGS, entries).fromTo
    ensures RemapAll(NO_MAPPINGS, entries).fromTo[f].ToFile?
    decreases |entries|
  {
    var front, last := entries[..|entries| - 1], entries[|entries| - 1];
    if f != last.original {
      RemapAllToFiles(front, f);
    }
  }

  /** A buffer that found no temporary file stays a buffer. */
  lemma {:induction false} UncreatedStays(m: Mappings, order: seq<File>, temps: File -> Temporary, f: File)
    requires f in m.fromTo && m.fromTo[f].ToBuffer? && !temps(f).Created?
    ensures f in MoveBuffers(m, order, temps).fromTo && MoveBuffers(m, order, temps).fromTo[f] == m.fromTo[f]
    decreases |order|
  {
    if order != [] {
      UncreatedStays(m, order[..|order| - 1], temps, f);
    }
  }

  /** The entry written for `f` can be read back, if a whole entry is written for it at all. */
  ghost predicate Preserved(before: Disk, after: Disk, m: Mappings, temps: File -> Temporary, f: File)
    requires f in m.fromTo
  {
    m.fromTo[f].ToFile? || temps(f).Created? ==>
      var e := Entry(f, FinalTarget(m, temps, f)); Writable(before, e) && Unchanged(before, after, e)
  }

  /** Writing the table and reading it back restores the first map exactly when every buffer was given a
      temporary file that could be opened. */
  lemma {:induction false} RestoresExactlyWhen(before: Disk, after: Disk, m: Mappings, order: seq<File>,
                                               temps: File -> Temporary, ignore: bool)
    requires NoRepeats(order) && (forall i :: 0 <= i < |order| ==> order[i] in m.fromTo) &&
             forall f :: f in m.fromTo ==> f in order
    requires forall f :: f in m.fromTo ==> Preserved(before, after, m, temps, f)
    ensures var moved := MoveBuffers(m, order, temps);
      var r := ReadEntries(after, Split(WriteTable(before, m.fromTo, order, temps)), ignore);
      (r.Entries? && RemapAll(NO_MAPPINGS, r.entries).fromTo == moved.fromTo) <==> AllCreated(m, order, temps)
  {
    var moved := MoveBuffers(m, order, temps);
    var r := ReadEntries(after, Split(WriteTable(before, m.fromTo, order, temps)), ignore);
    if AllCreated(m, order, temps) {
      forall e | e in TableEntries(m, order, temps)
        ensures Writable(before, e) && Unchanged(before, after, e)
      {
        assert Preserved(before, after, m, temps, e.original);
      }
      WriteThenRead(before, after, m, order, temps, ignore);
    } else if r.Entries? {
      var i :| 0 <= i < |order| && m.fromTo[order[i]].ToBuffer? && !temps(order[i]).Created?;
      UncreatedStays(m, order, temps, order[i]);
      if order[i] in RemapAll(NO_MAPPINGS, r.entries).fromTo {
        RemapAllToFiles(r.entries, order[i]);
      }
    }
  }

  /** Both maps are restored exactly when in addition the second one led every replacement back to the last of its
      originals in the order of writing. */
  lemma {:induction false} RestoresBothExactlyWhen(before: Disk, after: Disk, m: Mappings, order: seq<File>,
                                                   temps: File -> Temporary, ignore: bool)
    requires NoRepeats(order) && (forall i :: 0 <= i < |order| ==> order[i] in m.fromTo) &&
             forall f :: f in m.fromTo ==> f in order
    requires forall f :: f in m.fromTo ==> Preserved(before, after, m, temps, f)
    ensures var moved := MoveBuffers(m, order, temps);
      var r := ReadEntries(after, Split(WriteTable(before, m.fromTo, order, temps)), ignore);
      (r.Entries? && RemapAll(NO_MAPPINGS, r.entries) == moved) <==>
      AllCreated(m, order, temps) && LeadsToLast(moved.toFrom, TableEntries(m, order, temps))
  {
    RestoresExactlyWhen(before, after, m, order, temps, ignore);
    if AllCreated(m, order, temps) {
      var entries := TableEntries(m, order, temps);
      ReadsTable(before, after, m, order, temps, ignore);
      RemapAllLeadsToLast(entries);
      if LeadsToLast(MoveBuffers(m, order, temps).toFrom, entries) {
        LeadsToLastIsUnique(RemapAll(NO_MAPPINGS, entries).toFrom, MoveBuffers(m, order, temps).toFrom, entries);
      }
    }
  }

  lemma ReadsTable(before: Disk, after: Disk, m: Mappings, order: seq<File>, temps: File -> Temporary, ignore: bool)
    requires AllCreated(m, order, temps) && forall f :: f in m.fromTo ==> Preserved(before, after, m, temps, f)
    ensures ReadEntries(after, Split(WriteTable(before, m.fromTo, order, temps)), ignore) ==
            Entries(TableEntries(m, order, temps))
  {
    forall e | e in TableEntries(m, order, temps)
      ensures Writable(before, e) && Unchanged(before, after, e)
    {
      assert Preserved(before, after, m, temps, e.original);
    }
    WritesEntries(before, m, order, temps);
    ReadsUnchanged(before, after, TableEntries(m, order, temps), ignore);
  }

  lemma ReadsUnchanged(before: Disk, after: Disk, entries: seq<Entry>, ignore: bool)
    requires forall e :: e in entries ==> Writable(before, e) && Unchanged(before, after, e)
    ensures ReadEntries(after, Split(WriteEntries(before, entries)), ignore) == Entries(entries)
  {
    assert forall i :: 0 <= i < |entries| ==> entries[i] in entries;
    ReadsWhatWasWritten(before, after, entries, ignore);
    AllAreUnchanged(before, after, entries);
  }

  lemma TableIsListed(m: Mappings, order: seq<File>, temps: File -> Temporary)
    requires AllCreated(m, order, temps) && NoRepeats(order) && forall f :: f in m.fromTo ==> f in order
    ensures Lists(TableEntries(m, order, temps), MoveBuffers(m, order, temps).fromTo)
  {
    var moved, entries := MoveBuffers(m, order, temps), TableEntries(m, order, temps);
    MovedTargets(m, order, temps);
    forall f | f in moved.fromTo
      ensures exists i :: 0 <= i < |entries| && entries[i].original == f
    {
      var i :| 0 <= i < |order| && order[i] == f;
      assert entries[i].original == f;
    }
  }

  lemma {:induction false} AllAreUnchanged(before: Disk, after: Disk, entries: seq<Entry>)
    requires AllUnchanged(before, after, entries)
    ensures UnchangedOnly(before, after, entries) == entries
    decreases |entries|
  {
    if entries != [] {
      assert entries == [entries[0]] + entries[1..];
      AllAreUnchanged(before, after, entries[1..]);
    }
  }

  /** Without the third line, which is left out when a temporary file cannot be opened, reading pairs a file
      with one that never replaced it. */
  lemma LostLineMispairs(disk: Disk, a: File, b: File, n: File, temps: File -> Temporary)
    requires a != b && temps(a).NotOpened? && '\n' !in disk.name(a) && '\n' !in disk.name(b)
    requires disk.find(disk.name(a)) == Some(a) && disk.find(disk.name(b)) == Some(b)
    ensures var text := WriteTable(disk, map[a := ToBuffer(""), b := ToFile(n)], [a] + [b], temps);
      |Split(text)| >= 3 && ReadEntry(disk, Split(text)) == Take(Entry(a, b))
  {
    var fromTo := map[a := ToBuffer(""), b := ToFile(n)];
    assert ([a] + [b])[..1] == [a] && [a][..0] == [];
    var x, y, z := disk.name(a), Digits(Stamp(disk, a)), disk.name(b);
    var u, v := Digits(Stamp(disk, b)), disk.name(n);
    assert LinesFor(disk, a, fromTo[a], temps) == [x, y];
    assert LinesFor(disk, b, fromTo[b], temps) == [z, u, v];
    var text := WriteTable(disk, fromTo, [a] + [b], temps);
    assert text == WriteLines([x, y]) + WriteLines([z, u, v]) by {
      assert WriteTable(disk, fromTo, [a], temps) == WriteLines([x, y]);
    }
    FirstThreeLines(x, y, z, u, v);
    VerdictOnWritten(disk, disk, Entry(a, b), Split(text));
  }

  /** The first three of five lines. */
  lemma FirstThreeLines(x: string, y: string, z: string, u: string, v: string)
    requires '\n' !in x && '\n' !in y && '\n' !in z
    ensures var lines := Split(WriteLines([x, y]) + WriteLines([z, u, v]));
      |lines| >= 3 && lines[0] == x && lines[1] == y && lines[2] == z
  {
    var rest := WriteLines([u, v]);
    assert [x, y][1..] == [y] && [y][1..] == [] && [z, u, v][1..] == [u, v];
    assert WriteLines([y]) == y + "\n";
    assert WriteLines([x, y]) + WriteLines([z, u, v]) == x + ("\n" + (y + ("\n" + (z + ("\n" + rest)))));
    SplitLine(x, y + ("\n" + (z + ("\n" + rest))));
    SplitLine(y, z + ("\n" + rest));
    SplitLine(z, rest);
  }

  /** How many files writing reaches, from the `i`-th on: it stops after the first buffer for which no temporary
      file can be created. */
  function Reached(fromTo: map<File, Target>, order: seq<File>, temps: File -> Temporary, i: nat): (n: nat)
    requires i <= |order| && forall k :: 0 <= k < |order| ==> order[k] in fromTo
    ensures i <= n <= |order|
    decreases |order| - i
  {
    if i == |order| then i
    else if fromTo[order[i]].ToBuffer? && temps(order[i]).NotCreated? then i + 1
    else Reached(fromTo, order, temps, i + 1)
  }

  predicate FailsFrom(fromTo: map<File, Target>, order: seq<File>, temps: File -> Temporary, i: nat)
    requires i <= |order| && forall k :: 0 <= k < |order| ==> order[k] in fromTo
    decreases |order| - i
  {
    i < |order| &&
    ((fromTo[order[i]].ToBuffer? && temps(order[i]).NotCreated?) || FailsFrom(fromTo, order, temps, i + 1))
  }

  /** Writing stops early only if some temporary file cannot be created. */
  lemma {:induction false} ReachedWhen(fromTo: map<File, Target>, order: seq<File>, temps: File -> Temporary, i: nat)
    requires i <= |order| && forall k :: 0 <= k < |order| ==> order[k] in fromTo
    ensures FailsFrom(fromTo, order, temps, i) <==>
            exists k :: i <= k < |order| && fromTo[order[k]].ToBuffer? && temps(order[k]).NotCreated?
    ensures !FailsFrom(fromTo, order, temps, i) ==> Reached(fromTo, order, temps, i) == |order|
    decreases |order| - i
  {
    if i < |order| {
      ReachedWhen(fromTo, order, temps, i + 1);
    }
  }

  /** The first `i` entries of the table `m` have been written; `now` is the table meanwhile. */
  ghost predicate Written(disk: Disk, m: Mappings, order: seq<File>, i: nat, temps: File -> Temporary, now: Mappings,
                          text: string)
    requires i <= |order| && forall k :: 0 <= k < |order| ==> order[k] in m.fromTo
  {
    now == MoveBuffers(m, order[..i], temps) && text == WriteTable(disk, m.fromTo, order[..i], temps)
  }

  lemma WrittenNext(disk: Disk, m: Mappings, order: seq<File>, i: nat, temps: File -> Temporary, now: Mappings,
                    text: string)
    requires i < |order| && NoRepeats(order) && forall k :: 0 <= k < |order| ==> order[k] in m.fromTo
    requires Written(disk, m, order, i, temps, now, text)
    ensures var f := order[i];
      && f in now.fromTo && now.fromTo[f] == m.fromTo[f]
      && Written(disk, m, order, i + 1, temps,
                 if m.fromTo[f].ToBuffer? && temps(f).Created? then RemapToFile(now, f, temps(f).file) else now,
                 text + WriteLines(LinesFor(disk, f, m.fromTo[f], temps)))
  {
    assert order[..i + 1][..i] == order[..i] && order[..i + 1][i] == order[i];
    OthersNotMoved(m, order[..i], temps, order[i]);
  }

  // ---------- The table as the program keeps it ----------

  class FileRemapper {
    var fromToMappings: map<File, Target>
    var toFromMappings: map<File, File>

    constructor ()
      ensures Value() == NO_MAPPINGS && Valid()
    {
      fromToMappings, toFromMappings := map[], map[];
    }

    function Value(): Mappings
      reads this
    {
      Mappings(fromToMappings, toFromMappings)
    }

    ghost predicate Valid()
      reads this
    {
      Consistent(Value())
    }

    method ResetTarget(target: Target)
      modifies this`toFromMappings
      ensures toFromMappings == if target.ToFile? then old(toFromMappings) - {target.file} else old(toFromMappings)
    {
      if target.ToFile? {
        toFromMappings := toFromMappings - {target.file};
      }
    }

    method RemapToFile(file: File, newFile: File)
      requires Valid()
      modifies this
      ensures Valid() && Value() == Apply(old(Value()), FileChange(file, newFile))
      ensures Retargets(old(Value()), Value(), file, ToFile(newFile))
    {
      ChangeRetargets(Value(), file, newFile, "");
      RemapKeepsConsistent(Value(), file, newFile, "");
      if file in fromToMappings {
        ResetTarget(fromToMappings[file]);
      }
      fromToMappings := fromToMappings[file := ToFile(newFile)];
      toFromMappings := toFromMappings[newFile := file];
    }

    method RemapToBuffer(file: File, contents: string)
      requires Valid()
      modifies this
      ensures Valid() && Value() == Apply(old(Value()), BufferChange(file, contents))
      ensures Retargets(old(Value()), Value(), file, ToBuffer(contents))
    {
      ChangeRetargets(Value(), file, 0, contents);
      RemapKeepsConsistent(Value(), file, 0, contents);
      if file in fromToMappings {
        ResetTarget(fromToMappings[file]);
      }
      fromToMappings := fromToMappings[file := ToBuffer(contents)];
    }

    method GetOriginalFile(disk: Disk, path: string) returns (file: Option<File>)
      requires Valid()
      ensures match disk.find(path)
        case None => file == None
        case Some(found) =>
          && file == Some(if found in toFromMappings then toFromMappings[found] else found)
          && (found in toFromMappings ==> file.value in fromToMappings)
    {
      file := disk.find(path);
      if file.Some? && file.value in toFromMappings {
        file := Some(toFromMappings[file.value]);
        assert file.value in fromToMappings;
      }
    }

    method RemapPath(disk: Disk, path: string, contents: string)
      requires Valid() && disk.find(path).Some?
      modifies this
      ensures Valid() && Value() == Apply(old(Value()), PathChange(disk.find(path).value, contents))
      ensures var found := disk.find(path).value;
        Retargets(old(Value()), Value(),
                  if found in old(toFromMappings) then old(toFromMappings)[found] else found, ToBuffer(contents))
    {
      var file := GetOriginalFile(disk, path);
      RemapToBuffer(file.value, contents);
    }

    /** Resets every target in turn; the second map is then empty without being cleared. */
    method Clear(order: seq<File>)
      requires Valid() && forall f :: f in order <==> f in fromToMappings
      modifies this
      ensures Valid() && Value() == Apply(old(Value()), Change.Clear)
    {
      var i := 0;
      while i < |order|
        invariant 0 <= i <= |order| && fromToMappings == old(fromToMappings)
        invariant Consistent(Value())
        invariant forall n :: n in toFromMappings ==> toFromMappings[n] !in order[..i]
      {
        ResetTarget(fromToMappings[order[i]]);
        i := i + 1;
      }
      fromToMappings := map[];
      assert order[..i] == order;
      assert toFromMappings == map[];
    }

    /** Reads the entries, and remaps only if none of them fails. */
    method InitFromText(disk: Disk, text: string, ignoreIfFilesChanged: bool) returns (failed: bool)
      requires Valid() && fromToMappings == map[] && toFromMappings == map[]
      modifies this
      ensures var r := ReadEntries(disk, Split(text), ignoreIfFilesChanged);
        && (failed <==> r.Failed?)
        && Value() == if failed then NO_MAPPINGS else RemapAll(NO_MAPPINGS, r.entries)
      ensures Valid()
    {
      var pairs;
      failed, pairs := ReadPairs(disk, Split(text), ignoreIfFilesChanged);
      if !failed {
        RemapPairs(pairs);
      }
    }

    method RemapPairs(pairs: seq<Entry>)
      requires Valid()
      modifies this
      ensures Valid() && Value() == RemapAll(old(Value()), pairs)
    {
      ghost var m := Value();
      var i := 0;
      while i < |pairs|
        invariant 0 <= i <= |pairs| && Valid() && Value() == RemapAll(m, pairs[..i])
      {
        assert pairs[..i + 1][..i] == pairs[..i];
        RemapToFile(pairs[i].original, pairs[i].replacement);
        i := i + 1;
      }
      assert pairs[..i] == pairs;
    }

    /** Writes the table, moving buffers to temporary files. It does nothing when the file to write cannot be
        opened, and stops in the middle of an entry when a temporary file cannot be created. */
    method FlushToText(disk: Disk, order: seq<File>, temps: File -> Temporary, canOpen: bool)
      returns (failed: bool, text: string)
      requires Valid() && NoRepeats(order) && forall f :: f in order <==> f in fromToMappings
      modifies this
      ensures failed <==> !canOpen || exists f :: f in order && old(fromToMappings)[f].ToBuffer? && temps(f).NotCreated?
      ensures var done := if canOpen then order[..Reached(old(fromToMappings), order, temps, 0)] else [];
        && Value() == MoveBuffers(old(Value()), done, temps)
        && text == WriteTable(disk, old(fromToMappings), done, temps)
      ensures !failed ==> Reached(old(fromToMappings), order, temps, 0) == |order|
      ensures Valid()
    {
      if !canOpen {
        return true, "";
      }
      ReachedWhen(fromToMappings, order, temps, 0);
      failed, text := FlushEntries(disk, order, temps);
    }

    /** Writes the entries up to the first that fails. */
    method FlushEntries(disk: Disk, order: seq<File>, temps: File -> Temporary) returns (failed: bool, text: string)
      requires Valid() && NoRepeats(order) && forall k :: 0 <= k < |order| ==> order[k] in fromToMappings
      modifies this
      ensures failed <==> FailsFrom(old(fromToMappings), order, temps, 0)
      ensures Written(disk, old(Value()), order, Reached(old(fromToMappings), order, temps, 0), temps, Value(), text)
      ensures Valid()
    {
      ghost var m := Value();
      text := "";
      var i := 0;
      while i < |order|
        invariant 0 <= i <= |order| && Valid() && Written(disk, m, order, i, temps, Value(), text)
        invariant Reached(m.fromTo, order, temps, i) == Reached(m.fromTo, order, temps, 0)
        invariant FailsFrom(m.fromTo, order, temps, i) == FailsFrom(m.fromTo, order, temps, 0)
      {
        WrittenNext(disk, m, order, i, temps, Value(), text);
        var entry;
        failed, entry := FlushFile(disk, order[i], temps);
        text := text + entry;
        i := i + 1;
        if failed {
          return;
        }
      }
      failed := false;
    }

    method FlushFile(disk: Disk, f: File, temps: File -> Temporary) returns (failed: bool, entry: string)
      requires Valid() && f in fromToMappings
      modifies this
      ensures Valid() && (failed <==> old(fromToMappings)[f].ToBuffer? && temps(f).NotCreated?)
      ensures entry == WriteLines(LinesFor(disk, f, old(fromToMappings)[f], temps))
      ensures Value() ==
              if old(fromToMappings)[f].ToBuffer? && temps(f).Created?
              then Apply(old(Value()), FileChange(f, temps(f).file)) else old(Value())
    {
      var target := fromToMappings[f];
      failed := target.ToBuffer? && temps(f).NotCreated?;
      if !failed && target.ToBuffer? && temps(f).Created? {
        RemapToFile(f, temps(f).file);
      }
      entry := WriteLines(LinesFor(disk, f, target, temps));
    }
  }

  /** From line `idx` on, reading goes on from the entries `pairs`. */
  ghost predicate ReadSoFar(disk: Disk, lines: seq<string>, ignoreIfFilesChanged: bool, rest: seq<string>,
                            pairs: seq<Entry>) {
    var whole, remaining := ReadEntries(disk, lines, ignoreIfFilesChanged),
      ReadEntries(disk, rest, ignoreIfFilesChanged);
    if remaining.Failed? then whole.Failed? else whole == Entries(pairs + remaining.entries)
  }

  lemma ReadNext(disk: Disk, lines: seq<string>, ignoreIfFilesChanged: bool, rest: seq<string>, pairs: seq<Entry>)
    requires |rest| >= 3 && ReadSoFar(disk, lines, ignoreIfFilesChanged, rest, pairs)
    ensures var v := ReadEntry(disk, rest);
      if v.Fail? || (v.Skip? && !ignoreIfFilesChanged) then ReadEntries(disk, lines, ignoreIfFilesChanged).Failed?
      else ReadSoFar(disk, lines, ignoreIfFilesChanged, rest[3..], if v.Take? then pairs + [v.entry] else pairs)
  {
    var after := ReadEntries(disk, rest[3..], ignoreIfFilesChanged);
    if ReadEntry(disk, rest).Take? && after.Entries? {
      var entry := ReadEntry(disk, rest).entry;
      assert pairs + ([entry] + after.entries) == pairs + [entry] + after.entries;
    }
  }

  method ReadPairs(disk: Disk, lines: seq<string>, ignoreIfFilesChanged: bool) returns (failed: bool, pairs: seq<Entry>)
    ensures var r := ReadEntries(disk, lines, ignoreIfFilesChanged);
      (failed <==> r.Failed?) && (!failed ==> pairs == r.entries)
  {
    pairs := [];
    var idx := 0;
    assert lines[0..] == lines;
    while idx + 3 <= |lines|
      invariant 0 <= idx <= |lines|
      invariant ReadSoFar(disk, lines, ignoreIfFilesChanged, lines[idx..], pairs)
    {
      ReadNext(disk, lines, ignoreIfFilesChanged, lines[idx..], pairs);
      assert lines[idx..][3..] == lines[idx + 3..];
      var v := ReadEntry(disk, lines[idx..]);
      if v.Fail? || (v.Skip? && !ignoreIfFilesChanged) {
        return true, pairs;
      }
      if v.Take? {
        pairs := pairs + [v.entry];
      }
      idx := idx + 3;
    }
    assert pairs + [] == pairs;
    failed := false;
  }
}
