/**
 The compare-and-update step of `update_files` in `scripts/split_and_update.py`,
 with the file system as a map from path to content. For every block the
 splitter produced, in the order the blocks were stored: a code the catalogue
 does not know is skipped; otherwise the block, joined and sanitized, is compared
 with the file's current text after stripping both, and the file is backed up
 and rewritten only when they differ.
 */
module Update {
  import opened Wrappers
  import opened Text
  import Dict
  import Catalog
  import Sanitize
  import Splitter
  import Backups

  type Entry = Catalog.Entry

  // ---------------------------------------------------------------------------
  // The catalogue by code

  /** `reg_map`, built entry by entry; a later entry overwrites an earlier one
      with the same code. */
  function CodeMap(regs: seq<Entry>): Dict.Dict<string, Entry> {
    if |regs| == 0 then []
    else Dict.Put(CodeMap(regs[..|regs| - 1]), regs[|regs| - 1].code, regs[|regs| - 1])
  }

  /** The last entry of `regs` with code `c`. */
  function LastWithCode(regs: seq<Entry>, c: string): (r: Option<Entry>)
    ensures r.Some? ==> r.value in regs && r.value.code == c
    ensures r.None? <==> forall i | 0 <= i < |regs| :: regs[i].code != c
  {
    if |regs| == 0 then None
    else if regs[|regs| - 1].code == c then Some(regs[|regs| - 1])
    else
      var r := LastWithCode(regs[..|regs| - 1], c);
      assert forall i | 0 <= i < |regs| - 1 :: regs[..|regs| - 1][i] == regs[i];
      r
  }

  /** Looking a code up in `reg_map` finds the last catalogue entry with that code. */
  lemma {:induction false} CodeMapGet(regs: seq<Entry>, c: string)
    ensures Dict.Get(CodeMap(regs), c) == LastWithCode(regs, c)
  {
    if |regs| > 0 {
      var p := regs[..|regs| - 1];
      CodeMapGet(p, c);
      Dict.PutGet(CodeMap(p), regs[|regs| - 1].code, regs[|regs| - 1], c);
    }
  }

  // ---------------------------------------------------------------------------
  // One file

  /** The text the block would be written as: its lines joined with `\n`, then
      sanitized. */
  function NewText(newLines: seq<string>): string {
    Sanitize.SanitizeForMdx(Join("\n", newLines))
  }

  /** The file's current lines joined with `\n`; a missing file reads as no lines. */
  function OldText(current: Option<string>): string {
    if current.Some? then Join("\n", SplitLines(current.value)) else ""
  }

  datatype Decision = Unchanged | Rewrite(content: string)

  /** `n` with a newline added unless it already ends with one. */
  function Terminated(n: string): (r: string)
    ensures EndsWith(r, "\n")
    ensures EndsWith(n, "\n") ==> r == n
    ensures !EndsWith(n, "\n") ==> r == n + "\n"
  {
    EndsWithNewline(n);
    EndsWithNewline(n + "\n");
    if |n| > 0 && n[|n| - 1] == '\n' then n else n + "\n"
  }

  /** Whether and with what a file is rewritten, given the text `n` the block
      would be written as and the file's current text `o`: only when the two
      differ after stripping, and always with a trailing newline. */
  function Decide(n: string, o: string): (d: Decision)
    ensures d.Rewrite? <==> Strip(n) != Strip(o)
    ensures d.Rewrite? ==> EndsWith(d.content, "\n")
    ensures d.Rewrite? && EndsWith(n, "\n") ==> d.content == n
    ensures d.Rewrite? && !EndsWith(n, "\n") ==> d.content == n + "\n"
  {
    if Strip(n) != Strip(o) then Rewrite(Terminated(n)) else Unchanged
  }

  /** Reading a written text back line by line and joining the lines gives the
      same text up to surrounding whitespace, as long as `\n` is its only kind
      of line boundary. */
  lemma {:induction false} TerminatedReadsBack(n: string)
    requires OnlyNewlineBreaks(n)
    ensures Strip(OldText(Some(Terminated(n)))) == Strip(n)
  {
    var c := Terminated(n);
    assert OnlyNewlineBreaks(c) by {
      forall i | 0 <= i < |c| ensures IsLineBreak(c[i]) ==> c[i] == '\n' {
        if i < |n| {
          assert c[i] == n[i];
        }
      }
    }
    assert OldText(Some(c)) == ChompNewline(c) by {
      JoinSplitLines(c);
    }
    if !EndsWith(n, "\n") {
      assert ChompNewline(c) == n;
    } else {
      var m := ChompNewline(c);
      assert c == m + "\n";
      StripTrailingNewline(m);
    }
  }

  /** Once a block has been written, comparing it with the file again finds
      nothing to do, as long as `\n` is its only kind of line boundary. */
  lemma {:induction false} DecideSettles(n: string, o: string)
    requires Decide(n, o).Rewrite?
    requires OnlyNewlineBreaks(n)
    ensures Decide(n, OldText(Some(Decide(n, o).content))) == Unchanged
  {
    TerminatedReadsBack(n);
  }

  // ---------------------------------------------------------------------------
  // All blocks

  /** A file on disk: its content and its age in seconds, the time since it was
      last modified. */
  datatype Stored = Stored(content: string, age: int)

  type Disk = map<string, Stored>

  /** The `days` that `update_files` passes to `cleanup_old_backups`. */
  const RetentionDays: int := 7

  /** `cleanup_old_backups(target, days=7)` on the disk: every backup of `target`
      older than the retention period whose deletion does not fail is gone. */
  function Sweep(target: string, disk: Disk, failing: set<string>): Disk {
    map p | p in disk && !Backups.Swept(target, RetentionDays, p, disk[p].age, failing) :: disk[p]
  }

  /** What the pass has done so far: the counters, the labels of the diffs, the
      files, the backups made and the files written. */
  datatype Report = Report(
    updatedCount: nat,
    unchangedCount: nat,
    diffs: seq<string>,
    disk: Disk,
    backups: seq<string>,
    writes: seq<(string, string)>)

  /** The name a file's backup gets. */
  function BackupName(path: string, stamp: string): string {
    path + ".backup." + stamp
  }

  /** Records decision `d` about the file at `path`. A rewrite of an existing file
      first renames it to its backup name, which keeps its age, then sweeps the
      file's old backups (the deletions in `failing` fail), and in any case
      writes the new content as a file of age 0. */
  function Record(rep: Report, path: string, entryName: string, d: Decision, stamp: string, failing: set<string>): (r: Report)
    ensures r.updatedCount + r.unchangedCount == rep.updatedCount + rep.unchangedCount + 1
    ensures d.Rewrite? <==> r.updatedCount == rep.updatedCount + 1
    ensures d.Rewrite? ==> path in r.disk && r.disk[path] == Stored(d.content, 0)
    ensures d.Unchanged? ==> r.disk == rep.disk
  {
    match d
    case Unchanged => rep.(unchangedCount := rep.unchangedCount + 1)
    case Rewrite(content) =>
      var backup := BackupName(path, stamp);
      var moved := if path in rep.disk then Sweep(path, rep.disk[backup := rep.disk[path]] - {path}, failing) else rep.disk;
      Report(
        rep.updatedCount + 1,
        rep.unchangedCount,
        rep.diffs + [entryName],
        moved[path := Stored(content, 0)],
        rep.backups + (if path in rep.disk then [backup] else []),
        rep.writes + [(path, content)])
  }

  /** The current text of the file at `path`, if there is one. */
  function Current(disk: Disk, path: string): Option<string> {
    if path in disk then Some(disk[path].content) else None
  }

  /** The pass over one block whose lines render as `text`. `stamp` stands for
      the timestamp in the backup's name. */
  function Visit(rep: Report, code: string, text: string, regMap: Dict.Dict<string, Entry>, stamp: string,
                 failing: set<string>): (r: Report)
    ensures r.updatedCount + r.unchangedCount
            == rep.updatedCount + rep.unchangedCount + (if Dict.Get(regMap, code).Some? then 1 else 0)
  {
    var reg := Dict.Get(regMap, code);
    if reg.None? then rep
    else
      var path := reg.value.path;
      Record(rep, path, reg.value.title + " (" + code + ")", Decide(text, OldText(Current(rep.disk, path))), stamp, failing)
  }

  /** The pass over the first `k` blocks of `split`, each rendered by `render`. */
  function Run(split: Splitter.Blocks, k: nat, regMap: Dict.Dict<string, Entry>, disk: Disk, stamp: string,
               failing: set<string>, render: seq<string> -> string): Report
    requires k <= |split|
  {
    if k == 0 then Report(0, 0, [], disk, [], [])
    else Visit(Run(split, k - 1, regMap, disk, stamp, failing, render), split[k - 1].0, render(split[k - 1].1), regMap,
               stamp, failing)
  }

  /** `update_files`: the counters, the diffs, and the files afterwards. Every
      block with a known code is counted once, as updated or as unchanged, with
      one diff and one write per update, and every text written ends with a
      newline. */
  function UpdateFiles(split: Splitter.Blocks, regs: seq<Entry>, disk: Disk, stamp: string, failing: set<string>): (r: Report)
    ensures Tallied(r, Known(split, |split|, regs))
  {
    RunCounts(split, |split|, regs, disk, stamp, failing, NewText);
    Run(split, |split|, CodeMap(regs), disk, stamp, failing, NewText)
  }

  /** How many of the first `k` blocks carry a code the catalogue knows. */
  function Known(split: Splitter.Blocks, k: nat, regs: seq<Entry>): nat
    requires k <= |split|
  {
    if k == 0 then 0
    else Known(split, k - 1, regs) + (if LastWithCode(regs, split[k - 1].0).Some? then 1 else 0)
  }

  /** Every text in `writes` ends with a newline. */
  predicate NewlineTerminated(writes: seq<(string, string)>) {
    forall i | 0 <= i < |writes| :: EndsWith(writes[i].1, "\n")
  }

  lemma {:induction false} NewlineTerminatedGrow(before: seq<(string, string)>, after: seq<(string, string)>)
    requires NewlineTerminated(before)
    requires |before| <= |after| <= |before| + 1
    requires after[..|before|] == before
    requires |after| > |before| ==> EndsWith(after[|before|].1, "\n")
    ensures NewlineTerminated(after)
  {
    forall i | 0 <= i < |after| ensures EndsWith(after[i].1, "\n") {
      if i < |before| {
        assert after[i] == after[..|before|][i];
      }
    }
  }

  /** From `rep` to `after`, `n` blocks were counted: each added one to exactly
      one counter, and a diff and a newline-terminated write went with every
      update. */
  predicate Stepped(rep: Report, after: Report, n: nat) {
    && after.updatedCount + after.unchangedCount == rep.updatedCount + rep.unchangedCount + n
    && rep.updatedCount <= after.updatedCount <= rep.updatedCount + n
    && |after.diffs| == |rep.diffs| + (after.updatedCount - rep.updatedCount)
    && |after.writes| == |rep.writes| + (after.updatedCount - rep.updatedCount)
    && |after.backups| - |rep.backups| <= after.updatedCount - rep.updatedCount
    && after.writes[..|rep.writes|] == rep.writes
    && (|after.writes| > |rep.writes| ==> EndsWith(after.writes[|rep.writes|].1, "\n"))
  }

  /** Recording a decision adds one to exactly one counter; a diff and a write
      go with every update. */
  lemma {:induction false} RecordCounts(rep: Report, path: string, entryName: string, d: Decision, stamp: string,
                                        failing: set<string>)
    requires d.Rewrite? ==> EndsWith(d.content, "\n")
    ensures Stepped(rep, Record(rep, path, entryName, d, stamp, failing), 1)
  {
  }

  /** One block adds one to exactly one counter when its code is known and
      nothing otherwise; a diff and a write go with every update. */
  lemma {:induction false} VisitCounts(rep: Report, code: string, text: string, regMap: Dict.Dict<string, Entry>,
                                       stamp: string, failing: set<string>)
    ensures Stepped(rep, Visit(rep, code, text, regMap, stamp, failing), if Dict.Get(regMap, code).Some? then 1 else 0)
  {
    var reg := Dict.Get(regMap, code);
    if reg.Some? {
      RecordCounts(rep, reg.value.path, reg.value.title + " (" + code + ")",
                   Decide(text, OldText(Current(rep.disk, reg.value.path))), stamp, failing);
    }
  }


  /** A report after `n` counted blocks: one diff and one write per update, at
      most one backup per update, and every text written ends with a newline. */
  predicate Tallied(rep: Report, n: nat) {
    && rep.updatedCount + rep.unchangedCount == n
    && |rep.diffs| == rep.updatedCount
    && |rep.writes| == rep.updatedCount
    && |rep.backups| <= rep.updatedCount
    && NewlineTerminated(rep.writes)
  }

  /** A step that counted `m` blocks keeps the tally. */
  lemma {:induction false} SteppedTallied(rep: Report, after: Report, n: nat, m: nat)
    requires m <= 1 && Tallied(rep, n) && Stepped(rep, after, m)
    ensures Tallied(after, n + m)
  {
    NewlineTerminatedGrow(rep.writes, after.writes);
  }

  /** Visiting one more block keeps the tally, counting the block when its code
      is known. */
  lemma {:induction false} VisitTallied(rep: Report, code: string, text: string, regMap: Dict.Dict<string, Entry>,
                                        stamp: string, failing: set<string>, n: nat)
    requires Tallied(rep, n)
    ensures Tallied(Visit(rep, code, text, regMap, stamp, failing), n + (if Dict.Get(regMap, code).Some? then 1 else 0))
  {
    VisitCounts(rep, code, text, regMap, stamp, failing);
    SteppedTallied(rep, Visit(rep, code, text, regMap, stamp, failing), n, if Dict.Get(regMap, code).Some? then 1 else 0);
  }

  /** Every block with a known code is counted once, as updated or as unchanged;
      there is one diff and one write per update, and every text written ends
      with a newline. */
  lemma {:induction false} RunCounts(split: Splitter.Blocks, k: nat, regs: seq<Entry>, disk: Disk, stamp: string,
                                     failing: set<string>, render: seq<string> -> string)
    requires k <= |split|
    ensures Tallied(Run(split, k, CodeMap(regs), disk, stamp, failing, render), Known(split, k, regs))
  {
    if k > 0 {
      var code := split[k - 1].0;
      RunCounts(split, k - 1, regs, disk, stamp, failing, render);
      CodeMapGet(regs, code);
      VisitTallied(Run(split, k - 1, CodeMap(regs), disk, stamp, failing, render), code, render(split[k - 1].1),
                   CodeMap(regs), stamp, failing, Known(split, k - 1, regs));
    }
  }

  /** A block whose code the catalogue does not know changes nothing. */
  lemma {:induction false} UnknownSkipped(rep: Report, code: string, text: string, regs: seq<Entry>, stamp: string,
                                          failing: set<string>)
    requires forall i | 0 <= i < |regs| :: regs[i].code != code
    ensures Visit(rep, code, text, CodeMap(regs), stamp, failing) == rep
  {
    CodeMapGet(regs, code);
  }

  /** A rewrite writes the new content to `path` as a fresh file. When a file
      existed there, its content and age move to the backup name, and then the
      sweep removes every backup of `path` (the new one included) that is older
      than the retention period and whose deletion does not fail; every other
      file stays as it was and no other file appears. Leaving a file unchanged
      touches nothing. */
  lemma {:induction false} RecordFiles(rep: Report, path: string, entryName: string, d: Decision, stamp: string,
                                       failing: set<string>)
    ensures var after := Record(rep, path, entryName, d, stamp, failing);
            var backup := BackupName(path, stamp);
            && (d.Unchanged? ==> after.disk == rep.disk)
            && (d.Rewrite? ==>
                  && path in after.disk && after.disk[path] == Stored(d.content, 0)
                  && after.disk.Keys <= rep.disk.Keys + {path, backup}
                  && (path !in rep.disk ==> forall p | p in rep.disk :: p in after.disk && after.disk[p] == rep.disk[p])
                  && (path in rep.disk ==>
                        && (backup in after.disk <==> !Backups.Swept(path, RetentionDays, backup, rep.disk[path].age, failing))
                        && (backup in after.disk ==> after.disk[backup] == rep.disk[path])
                        && (forall p | p in rep.disk && p != path && p != backup ::
                              && (p in after.disk <==> !Backups.Swept(path, RetentionDays, p, rep.disk[p].age, failing))
                              && (p in after.disk ==> after.disk[p] == rep.disk[p]))))
  {
    var backup := BackupName(path, stamp);
    assert backup != path by {
      assert |backup| > |path|;
    }
    Backups.TargetNotBackup(path);
  }

  /** With a timestamp free of path separators, the new backup survives the sweep
      exactly when the replaced file was modified within the retention period
      or its deletion fails. */
  lemma {:induction false} BackupSurvives(rep: Report, path: string, entryName: string, content: string, stamp: string,
                                          failing: set<string>)
    requires path in rep.disk
    requires '/' !in stamp
    ensures var after := Record(rep, path, entryName, Rewrite(content), stamp, failing);
            && (BackupName(path, stamp) in after.disk
                <==> !Backups.Expired(rep.disk[path].age, RetentionDays) || BackupName(path, stamp) in failing)
            && (BackupName(path, stamp) in after.disk ==> after.disk[BackupName(path, stamp)] == rep.disk[path])
  {
    RecordFiles(rep, path, entryName, Rewrite(content), stamp, failing);
    Backups.BackupNameMatches(path, stamp);
  }

  /** As written, a file last modified more than seven days before it is
      rewritten loses its previous content: the backup just made carries the
      file's old age and is swept at once. */
  lemma {:induction false} FreshBackupLost(rep: Report, path: string, entryName: string, content: string, stamp: string,
                                           failing: set<string>)
    requires path in rep.disk && Backups.Expired(rep.disk[path].age, RetentionDays)
    requires '/' !in stamp && BackupName(path, stamp) !in failing
    ensures var after := Record(rep, path, entryName, Rewrite(content), stamp, failing);
            && BackupName(path, stamp) !in after.disk
            && after.disk[path].content == content
  {
    BackupSurvives(rep, path, entryName, content, stamp, failing);
  }

  /** The evidently intended order: sweep the old backups first, then rename the
      file to its backup name and write the new content. */
  function RecordKeepingBackup(rep: Report, path: string, entryName: string, d: Decision, stamp: string,
                               failing: set<string>): (r: Report)
    ensures d.Rewrite? ==> path in r.disk && r.disk[path] == Stored(d.content, 0)
    ensures d.Unchanged? ==> r.disk == rep.disk
  {
    match d
    case Unchanged => rep.(unchangedCount := rep.unchangedCount + 1)
    case Rewrite(content) =>
      var backup := BackupName(path, stamp);
      var moved := if path in rep.disk then Sweep(path, rep.disk, failing)[backup := rep.disk[path]] - {path} else rep.disk;
      Report(
        rep.updatedCount + 1,
        rep.unchangedCount,
        rep.diffs + [entryName],
        moved[path := Stored(content, 0)],
        rep.backups + (if path in rep.disk then [backup] else []),
        rep.writes + [(path, content)])
  }

  /** With the sweep first, the backup just made always holds the replaced file,
      whatever its age; the older backups are swept as before, and the
      counters and writes are those of `Record`. */
  lemma {:induction false} FreshBackupKept(rep: Report, path: string, entryName: string, d: Decision, stamp: string,
                                           failing: set<string>)
    ensures var after := RecordKeepingBackup(rep, path, entryName, d, stamp, failing);
            var backup := BackupName(path, stamp);
            && (d.Rewrite? && path in rep.disk ==>
                  && backup in after.disk && after.disk[backup] == rep.disk[path]
                  && (forall p | p in rep.disk && p != path && p != backup ::
                        && (p in after.disk <==> !Backups.Swept(path, RetentionDays, p, rep.disk[p].age, failing))
                        && (p in after.disk ==> after.disk[p] == rep.disk[p])))
            && after.(disk := rep.disk) == Record(rep, path, entryName, d, stamp, failing).(disk := rep.disk)
  {
    var backup := BackupName(path, stamp);
    assert backup != path by {
      assert |backup| > |path|;
    }
  }

  /** From `rep` to `after`, a block whose text is `text` was settled against
      the file at `path`: the file is rewritten exactly when the stripped texts
      differ, and the replaced file, if any, survives under its backup name
      exactly when it was modified within the retention period or the backup's
      deletion fails; without a rewrite no file changes. */
  predicate Settled(rep: Report, after: Report, path: string, text: string, stamp: string, failing: set<string>) {
    var current := Current(rep.disk, path);
    var backup := BackupName(path, stamp);
    && (after.updatedCount == rep.updatedCount + 1 <==> Strip(text) != Strip(OldText(current)))
    && (after.updatedCount == rep.updatedCount + 1 ==>
          && path in after.disk
          && after.disk[path] == Stored(Decide(text, OldText(current)).content, 0)
          && (current.Some? ==>
                && (backup in after.disk <==> !Backups.Expired(rep.disk[path].age, RetentionDays) || backup in failing)
                && (backup in after.disk ==> after.disk[backup] == rep.disk[path])))
    && (after.updatedCount == rep.updatedCount ==> after.disk == rep.disk)
  }

  /** Deciding about the file at `path` and recording the decision settles the
      block. */
  lemma {:induction false} DecidedRecord(rep: Report, path: string, entryName: string, text: string, stamp: string,
                                         failing: set<string>)
    requires '/' !in stamp
    ensures Settled(rep, Record(rep, path, entryName, Decide(text, OldText(Current(rep.disk, path))), stamp, failing),
                    path, text, stamp, failing)
  {
    var d := Decide(text, OldText(Current(rep.disk, path)));
    if d.Rewrite? && path in rep.disk {
      BackupSurvives(rep, path, entryName, d.content, stamp, failing);
    }
  }

  /** A block whose code `reg_map` knows is written to its entry's path exactly
      when the stripped texts differ. The replaced file, if any, survives under
      its backup name exactly when it was modified within the retention period
      or the backup's deletion fails; without a rewrite no file changes. */
  lemma {:induction false} KnownVisited(rep: Report, code: string, text: string, regMap: Dict.Dict<string, Entry>,
                                        stamp: string, failing: set<string>)
    requires Dict.Get(regMap, code).Some?
    requires '/' !in stamp
    ensures Settled(rep, Visit(rep, code, text, regMap, stamp, failing), Dict.Get(regMap, code).value.path, text, stamp,
                    failing)
  {
    var reg := Dict.Get(regMap, code).value;
    DecidedRecord(rep, reg.path, reg.title + " (" + code + ")", text, stamp, failing);
  }
}
