/**
 * What install-environment.py promises about one entry and about whole
 * runs, proved of the model in module Linker.
 */
module LinkerFacts {
  import opened Wrappers
  import opened Paths
  import opened FileSystem
  import opened Linker

  // ---- one entry ----

  /** A missing source is an error and nothing is touched. */
  lemma MissingSourceIsError(fs: Fs, e: Entry, cfg: Config, f: EntryFaults)
    requires !Exists(fs, SourcePath(cfg, e))
    ensures Step(fs, e, cfg, f) == StepResult(SourceMissing, fs)
  {
  }

  /** A destination link that already resolves to the source is skipped and nothing is touched. */
  lemma CorrectLinkIsSkipped(fs: Fs, e: Entry, cfg: Config, f: EntryFaults)
    requires Exists(fs, SourcePath(cfg, e))
    requires IsSymlink(fs, DestPath(cfg, e)) && Resolve(fs, DestPath(cfg, e)) == SourcePath(cfg, e)
    ensures Step(fs, e, cfg, f) == StepResult(AlreadyLinked, fs)
  {
  }

  /**
   * Without --force, any existing destination (a file, a directory, or a
   * link, even a broken one) is left as it is, and the entry is skipped
   * (or an error, when the source is missing).
   */
  lemma NoForceKeepsDestination(fs: Fs, e: Entry, cfg: Config, f: EntryFaults)
    requires !cfg.force && DestPath(cfg, e) in fs
    ensures Step(fs, e, cfg, f).fs == fs
    ensures Step(fs, e, cfg, f).outcome.Counter() ==
      if Exists(fs, SourcePath(cfg, e)) then SkippedCount else ErrorCount
    ensures Exists(fs, SourcePath(cfg, e)) && !IsSymlink(fs, DestPath(cfg, e)) ==>
      Step(fs, e, cfg, f).outcome == NotALink
  {
    var dest := DestPath(cfg, e);
    if !fs[dest].Symlink? {
      PlainEntryExists(fs, dest);
    }
  }

  /**
   * With --force, an existing destination that is not already the right
   * link goes to the backup step; when computing the backup name or the
   * move raises, the entry is an error and nothing is touched.
   */
  lemma ForcedBackupFailure(fs: Fs, e: Entry, cfg: Config, f: EntryFaults)
    requires cfg.force && Exists(fs, SourcePath(cfg, e)) && DestPath(cfg, e) in fs
    requires !(IsSymlink(fs, DestPath(cfg, e)) && Resolve(fs, DestPath(cfg, e)) == SourcePath(cfg, e))
    requires Name(DestPath(cfg, e)) == "" || (!cfg.dryRun && f.move)
    ensures Step(fs, e, cfg, f) == StepResult(BackupFailed, fs)
  {
    var dest := DestPath(cfg, e);
    if !fs[dest].Symlink? {
      PlainEntryExists(fs, dest);
    }
  }

  lemma ForcedStep(fs: Fs, e: Entry, cfg: Config, f: EntryFaults)
    requires cfg.force && !cfg.dryRun && !f.move && Name(DestPath(cfg, e)) != ""
    requires Exists(fs, SourcePath(cfg, e)) && DestPath(cfg, e) in fs
    requires !(IsSymlink(fs, DestPath(cfg, e)) && Resolve(fs, DestPath(cfg, e)) == SourcePath(cfg, e))
    ensures var dest := DestPath(cfg, e);
      var moved := Moved(fs, dest, BackupPath(dest, cfg.stamp).value);
      Step(fs, e, cfg, f) == LinkStage(moved, SourcePath(cfg, e), dest, cfg, f)
  {
    var dest := DestPath(cfg, e);
    if !fs[dest].Symlink? {
      PlainEntryExists(fs, dest);
    }
  }

  /** After the move, the rest of the entry keeps the backup and what was below it. */
  lemma LinkStageKeepsBackup(fs: Fs, source: Path, dest: Path, cfg: Config, f: EntryFaults)
    requires Name(dest) != ""
    ensures var b := BackupPath(dest, cfg.stamp).value;
      var r := LinkStage(Moved(fs, dest, b), source, dest, cfg, f);
      forall p :: p in fs && Under(p, dest) ==> MovedName(p, dest, b) in r.fs && r.fs[MovedName(p, dest, b)] == fs[p]
  {
    var b := BackupPath(dest, cfg.stamp).value;
    var moved := Moved(fs, dest, b);
    assert |b| == |dest|;
    forall p | p in fs && Under(p, dest)
      ensures MovedName(p, dest, b) in LinkStage(moved, source, dest, cfg, f).fs
      ensures LinkStage(moved, source, dest, cfg, f).fs[MovedName(p, dest, b)] == fs[p]
    {
      var q := MovedName(p, dest, b);
      assert q in moved && moved[q] == fs[p];
      assert q != dest by { assert Under(q, b); }
      LinkStageKeeps(moved, source, dest, cfg, f, q);
    }
  }

  /** The parent has no entry, or it exists: `os.makedirs` is either not needed or finds the name free. */
  predicate ParentReady(fs: Fs, dest: Path)
  {
    Parent(dest) in fs ==> Exists(fs, Parent(dest))
  }

  /** The parent has no entry, or it is a file or directory rather than a link. */
  predicate PlainParent(fs: Fs, dest: Path)
  {
    Parent(dest) in fs ==> !fs[Parent(dest)].Symlink?
  }

  /** A real link stage whose calls succeed ends with the link in place. */
  lemma LinkStageLinks(fs: Fs, source: Path, dest: Path, cfg: Config, f: EntryFaults)
    requires !cfg.dryRun && !f.mkdir && !f.link && ParentReady(fs, dest)
    ensures var r := LinkStage(fs, source, dest, cfg, f);
      r.outcome == Linked && dest in r.fs && r.fs[dest] == Symlink(source)
  {
  }

  /**
   * With --force, in a real run, an existing destination that is not already
   * the right link is moved to "<name>.bak.<stamp>" beside it, together with
   * everything below it; when the later calls work, the destination becomes
   * the link to the source.
   */
  lemma ForceBacksUpThenLinks(fs: Fs, e: Entry, cfg: Config, f: EntryFaults)
    requires cfg.force && !cfg.dryRun && !f.move && Name(DestPath(cfg, e)) != ""
    requires Exists(fs, SourcePath(cfg, e)) && DestPath(cfg, e) in fs
    requires !(IsSymlink(fs, DestPath(cfg, e)) && Resolve(fs, DestPath(cfg, e)) == SourcePath(cfg, e))
    ensures var dest := DestPath(cfg, e);
      var r := Step(fs, e, cfg, f);
      var b := Parent(dest) + [Name(dest) + ".bak." + cfg.stamp];
      && b in r.fs && r.fs[b] == fs[dest]
      && (forall p :: p in fs && Under(p, dest) ==>
            MovedName(p, dest, b) in r.fs && r.fs[MovedName(p, dest, b)] == fs[p])
      && (!f.mkdir && !f.link && PlainParent(fs, dest) ==>
            r.outcome == Linked && r.fs[dest] == Symlink(SourcePath(cfg, e)))
  {
    var source, dest := SourcePath(cfg, e), DestPath(cfg, e);
    var b := BackupPath(dest, cfg.stamp).value;
    var moved := Moved(fs, dest, b);
    ForcedStep(fs, e, cfg, f);
    ForcedBackupHoldsOld(fs, source, dest, cfg, f);
    if !f.mkdir && !f.link && PlainParent(fs, dest) {
      BackupKeepsParent(fs, dest, cfg.stamp);
      LinkStageLinks(moved, source, dest, cfg, f);
    }
  }

  /** Moving the destination away leaves a plain parent as it was, so it still exists when it is there. */
  lemma BackupKeepsParent(fs: Fs, dest: Path, stamp: Stamp)
    requires Name(dest) != "" && PlainParent(fs, dest)
    ensures ParentReady(Moved(fs, dest, BackupPath(dest, stamp).value), dest)
  {
    var b := BackupPath(dest, stamp).value;
    var moved := Moved(fs, dest, b);
    var parent := Parent(dest);
    assert |b| == |dest| && |parent| < |dest|;
    assert !Under(parent, dest) && !Under(parent, b);
    if parent in moved {
      assert parent in fs && moved[parent] == fs[parent];
      PlainEntryExists(moved, parent);
    }
  }

  /** The link stage after the backup keeps the old destination, and what was below it, under the backup name. */
  lemma ForcedBackupHoldsOld(fs: Fs, source: Path, dest: Path, cfg: Config, f: EntryFaults)
    requires Name(dest) != "" && dest in fs
    ensures var b := Parent(dest) + [Name(dest) + ".bak." + cfg.stamp];
      var r := LinkStage(Moved(fs, dest, b), source, dest, cfg, f);
      && b in r.fs && r.fs[b] == fs[dest]
      && (forall p :: p in fs && Under(p, dest) ==>
            MovedName(p, dest, b) in r.fs && r.fs[MovedName(p, dest, b)] == fs[p])
  {
    var b := BackupPath(dest, cfg.stamp).value;
    LinkStageKeepsBackup(fs, source, dest, cfg, f);
    assert MovedName(dest, dest, b) == b;
  }

  /**
   * In a real run, a missing parent directory is created (with its missing
   * ancestors) before the link; when that fails (the call raises, or a
   * broken link holds the parent's name) the entry is an error and no link
   * is made.
   */
  lemma MissingParentIsCreated(fs: Fs, e: Entry, cfg: Config, f: EntryFaults)
    requires !cfg.dryRun && Exists(fs, SourcePath(cfg, e))
    requires DestPath(cfg, e) !in fs && !Exists(fs, Parent(DestPath(cfg, e)))
    ensures f.mkdir || Parent(DestPath(cfg, e)) in fs ==> Step(fs, e, cfg, f) == StepResult(MkdirFailed, fs)
    ensures var r := Step(fs, e, cfg, f);
      !f.mkdir && Parent(DestPath(cfg, e)) !in fs ==>
        && (forall q :: Under(Parent(DestPath(cfg, e)), q) && q != DestPath(cfg, e) && q !in fs ==>
              q in r.fs && r.fs[q] == Dir)
        && r.outcome == (if f.link then LinkFailed else Linked)
  {
    var dest := DestPath(cfg, e);
    if !f.mkdir && Parent(dest) !in fs {
      var made := WithDirs(fs, Parent(dest));
      forall q | Under(Parent(dest), q) && q != dest && q !in fs
        ensures q in Step(fs, e, cfg, f).fs && Step(fs, e, cfg, f).fs[q] == Dir
      {
        assert q in Ancestors(Parent(dest));
      }
    }
  }

  /** A destination that is not there goes straight to the link stage. */
  lemma FreshStep(fs: Fs, e: Entry, cfg: Config, f: EntryFaults)
    requires Exists(fs, SourcePath(cfg, e)) && DestPath(cfg, e) !in fs
    ensures Step(fs, e, cfg, f) == LinkStage(fs, SourcePath(cfg, e), DestPath(cfg, e), cfg, f)
  {
    if Exists(fs, DestPath(cfg, e)) { ExistsIsEntry(fs, DestPath(cfg, e)); }
  }

  /** A real run whose calls succeed links a source that exists to a destination that does not. */
  lemma FreshDestinationIsLinked(fs: Fs, e: Entry, cfg: Config, f: EntryFaults)
    requires !cfg.dryRun && !f.mkdir && !f.link && ParentReady(fs, DestPath(cfg, e))
    requires Exists(fs, SourcePath(cfg, e)) && DestPath(cfg, e) !in fs
    ensures Step(fs, e, cfg, f).outcome == Linked
    ensures Step(fs, e, cfg, f).fs[DestPath(cfg, e)] == Symlink(SourcePath(cfg, e))
  {
    FreshStep(fs, e, cfg, f);
    LinkStageLinks(fs, SourcePath(cfg, e), DestPath(cfg, e), cfg, f);
  }

  /** In a real run, "linked" means the destination is now a link to the source. */
  lemma LinkedMeansLink(fs: Fs, e: Entry, cfg: Config, f: EntryFaults)
    requires !cfg.dryRun && Step(fs, e, cfg, f).outcome == Linked
    ensures var r := Step(fs, e, cfg, f);
      DestPath(cfg, e) in r.fs && r.fs[DestPath(cfg, e)] == Symlink(SourcePath(cfg, e))
  {
  }

  /** A link stage that fails leaves no link at the destination that was not there before. */
  lemma LinkStageErrorKeepsLinks(fs: Fs, source: Path, dest: Path, cfg: Config, f: EntryFaults)
    requires LinkStage(fs, source, dest, cfg, f).outcome.Counter() == ErrorCount
    ensures var r := LinkStage(fs, source, dest, cfg, f);
      IsSymlink(r.fs, dest) ==> dest in fs && r.fs[dest] == fs[dest]
  {
  }

  /** Moving the destination to its backup path leaves nothing at the destination. */
  lemma BackupVacatesDestination(fs: Fs, dest: Path, stamp: Stamp)
    requires Name(dest) != ""
    ensures dest !in Moved(fs, dest, BackupPath(dest, stamp).value)
  {
    var b := BackupPath(dest, stamp).value;
    assert |b| == |dest| && b != dest;
    assert !Under(dest, b);
  }

  /** An entry that counts as an error never leaves a new link at its destination. */
  lemma ErrorMakesNoLink(fs: Fs, e: Entry, cfg: Config, f: EntryFaults)
    requires Step(fs, e, cfg, f).outcome.Counter() == ErrorCount
    ensures var r := Step(fs, e, cfg, f);
      IsSymlink(r.fs, DestPath(cfg, e)) ==> DestPath(cfg, e) in fs && r.fs[DestPath(cfg, e)] == fs[DestPath(cfg, e)]
  {
    var source, dest := SourcePath(cfg, e), DestPath(cfg, e);
    if !Exists(fs, source) {
      MissingSourceIsError(fs, e, cfg, f);
    } else if dest !in fs {
      if Exists(fs, dest) { ExistsIsEntry(fs, dest); }
      LinkStageErrorKeepsLinks(fs, source, dest, cfg, f);
    } else if !cfg.force {
      NoForceKeepsDestination(fs, e, cfg, f);
    } else if IsSymlink(fs, dest) && Resolve(fs, dest) == source {
      CorrectLinkIsSkipped(fs, e, cfg, f);
    } else if Name(dest) == "" || (!cfg.dryRun && f.move) {
      ForcedBackupFailure(fs, e, cfg, f);
    } else if !cfg.dryRun {
      ForcedStep(fs, e, cfg, f);
      var moved := Moved(fs, dest, BackupPath(dest, cfg.stamp).value);
      LinkStageErrorKeepsLinks(moved, source, dest, cfg, f);
      BackupVacatesDestination(fs, dest, cfg.stamp);
    } else {
      // A dry run never reports an error once the source exists.
      assert false;
    }
  }

  /**
   * What a dry run reports for an entry whose real outcome is `o`: a dry run
   * never calls `os.makedirs`, so a parent it could not create still shows
   * as linked.
   */
  function Previewed(o: Outcome): Outcome
  {
    if o == MkdirFailed then Linked else o
  }

  /**
   * A dry run changes nothing, and gives each entry the outcome a real run
   * whose calls all succeed would give it on the same filesystem, except
   * that a parent the real run fails to create is reported as linked.
   */
  lemma DryRunPreviewsEntry(fs: Fs, e: Entry, cfg: Config, f: EntryFaults)
    requires cfg.dryRun
    ensures Step(fs, e, cfg, f).fs == fs
    ensures Step(fs, e, cfg, f).outcome == Previewed(Step(fs, e, cfg.(dryRun := false), NoFaults).outcome)
  {
    var wet := cfg.(dryRun := false);
    var source, dest := SourcePath(cfg, e), DestPath(cfg, e);
    if !Exists(fs, source) {
      MissingSourceIsError(fs, e, cfg, f);
      MissingSourceIsError(fs, e, wet, NoFaults);
    } else if dest !in fs {
      FreshStep(fs, e, cfg, f);
      FreshStep(fs, e, wet, NoFaults);
      LinkStagePreview(fs, source, dest, wet);
    } else if cfg.force && !(IsSymlink(fs, dest) && Resolve(fs, dest) == source) && Name(dest) != "" {
      ForcedStep(fs, e, wet, NoFaults);
      LinkStagePreview(Moved(fs, dest, BackupPath(dest, cfg.stamp).value), source, dest, wet);
    }
  }

  /** A real link stage with no failing call either links or fails to create the parent. */
  lemma LinkStagePreview(fs: Fs, source: Path, dest: Path, cfg: Config)
    requires !cfg.dryRun
    ensures Previewed(LinkStage(fs, source, dest, cfg, NoFaults).outcome) == Linked
  {
  }

  /**
   * The preview can be wrong: where a broken link holds the parent's name, a
   * dry run reports the entry as linked, while the real run, even with every
   * call otherwise succeeding, counts an error because `os.makedirs` raises.
   */
  lemma DryRunMissesBrokenParent(fs: Fs, e: Entry, cfg: Config, f: EntryFaults)
    requires cfg.dryRun && Exists(fs, SourcePath(cfg, e)) && DestPath(cfg, e) !in fs
    requires Parent(DestPath(cfg, e)) in fs && !Exists(fs, Parent(DestPath(cfg, e)))
    ensures Step(fs, e, cfg, f).outcome == Linked
    ensures Step(fs, e, cfg.(dryRun := false), NoFaults) == StepResult(MkdirFailed, fs)
  {
    FreshStep(fs, e, cfg, f);
    FreshStep(fs, e, cfg.(dryRun := false), NoFaults);
  }

  /** Creating the parent and the link keeps every other existing entry. */
  lemma LinkStageKeeps(fs: Fs, source: Path, dest: Path, cfg: Config, f: EntryFaults, p: Path)
    requires p in fs && p != dest
    ensures p in LinkStage(fs, source, dest, cfg, f).fs && LinkStage(fs, source, dest, cfg, f).fs[p] == fs[p]
  {
  }

  /** Creating the parent and the link adds nothing but the link and directories on the way to it. */
  lemma LinkStageAdds(fs: Fs, source: Path, dest: Path, cfg: Config, f: EntryFaults, p: Path)
    requires p !in fs && p in LinkStage(fs, source, dest, cfg, f).fs && p != dest
    ensures LinkStage(fs, source, dest, cfg, f).fs[p] == Dir && Under(dest, p)
  {
    if dest != [] { ParentName(dest); }
  }

  /** `p` is neither below the destination of `e` nor below its backup path. */
  predicate Untouched(p: Path, cfg: Config, e: Entry)
  {
    var dest := DestPath(cfg, e);
    !Under(p, dest) && match BackupPath(dest, cfg.stamp)
      case None => true
      case Some(b) => !Under(p, b)
  }

  /**
   * One entry changes nothing outside its destination and its backup,
   * except that it may create directories on the way to its destination.
   */
  lemma StepFrame(fs: Fs, e: Entry, cfg: Config, f: EntryFaults, p: Path)
    requires Untouched(p, cfg, e)
    ensures var r := Step(fs, e, cfg, f);
      p in fs ==> p in r.fs && r.fs[p] == fs[p]
    ensures var r := Step(fs, e, cfg, f);
      p !in fs && p in r.fs ==> r.fs[p] == Dir && Under(DestPath(cfg, e), p)
  {
    var source, dest := SourcePath(cfg, e), DestPath(cfg, e);
    assert p != dest by { assert Under(dest, dest); }
    if Exists(fs, source) && (Exists(fs, dest) || IsSymlink(fs, dest))
      && !(IsSymlink(fs, dest) && Resolve(fs, dest) == source) && cfg.force
    {
      match BackUp(fs, dest, cfg, f)
      case None =>
      case Some(fs1) =>
        assert Step(fs, e, cfg, f) == LinkStage(fs1, source, dest, cfg, f);
        assert p in fs <==> p in fs1;
        assert p in fs ==> fs1[p] == fs[p];
        if p in fs1 {
          LinkStageKeeps(fs1, source, dest, cfg, f, p);
        } else if p in LinkStage(fs1, source, dest, cfg, f).fs {
          LinkStageAdds(fs1, source, dest, cfg, f, p);
        }
    } else if Exists(fs, source) && !(Exists(fs, dest) || IsSymlink(fs, dest)) {
      assert Step(fs, e, cfg, f) == LinkStage(fs, source, dest, cfg, f);
      if p in fs {
        LinkStageKeeps(fs, source, dest, cfg, f, p);
      } else if p in LinkStage(fs, source, dest, cfg, f).fs {
        LinkStageAdds(fs, source, dest, cfg, f, p);
      }
    }
  }

  // ---- whole runs ----

  /** Later steps do not change the outcome recorded at index `i`. */
  lemma {:induction false} FoldOutcome(fs0: Fs, table: seq<Entry>, step: (Fs, Entry, nat) -> StepResult, i: nat, m: nat)
    requires i < m <= |table|
    ensures Fold(fs0, table, step, m).outcomes[i] == step(Fold(fs0, table, step, i).fs, table[i], i).outcome
    decreases m
  {
    var prev := Fold(fs0, table, step, m - 1);
    var last := step(prev.fs, table[m - 1], m - 1);
    assert Fold(fs0, table, step, m).outcomes == prev.outcomes + [last.outcome];
    if i + 1 < m {
      FoldOutcome(fs0, table, step, i, m - 1);
    }
  }

  /** A filesystem that every step leaves alone stays as it is; each outcome is its step's on it. */
  lemma {:induction false} FoldFixed(fs0: Fs, table: seq<Entry>, step: (Fs, Entry, nat) -> StepResult, k: nat)
    requires k <= |table|
    requires forall j :: 0 <= j < k ==> step(fs0, table[j], j).fs == fs0
    ensures Fold(fs0, table, step, k).fs == fs0
    ensures forall i :: 0 <= i < k ==> Fold(fs0, table, step, k).outcomes[i] == step(fs0, table[i], i).outcome
    decreases k
  {
    if k > 0 {
      FoldFixed(fs0, table, step, k - 1);
      var prev := Fold(fs0, table, step, k - 1);
      var last := step(fs0, table[k - 1], k - 1);
      var outs := prev.outcomes + [last.outcome];
      assert Fold(fs0, table, step, k) == Report(fs0, outs);
      forall i | 0 <= i < k
        ensures outs[i] == step(fs0, table[i], i).outcome
      {
        if i < k - 1 {
          assert outs[i] == prev.outcomes[i];
        }
      }
    }
  }

  /** `after` keeps `before`'s entry at `p`, and can only add `p` as a directory on the way to `dest`. */
  predicate Keeps(before: Fs, after: Fs, p: Path, dest: Path)
  {
    && (p in before ==> p in after && after[p] == before[p])
    && (p !in before && p in after ==> after[p] == Dir && Under(dest, p))
  }

  /** Steps in [k, m) that each keep `p` keep it together. */
  lemma {:induction false} FoldFrame(fs0: Fs, table: seq<Entry>, step: (Fs, Entry, nat) -> StepResult, cfg: Config, p: Path, k: nat, m: nat)
    requires k <= m <= |table|
    requires forall fs: Fs, j :: k <= j < m ==> Keeps(fs, step(fs, table[j], j).fs, p, DestPath(cfg, table[j]))
    ensures var before := Fold(fs0, table, step, k).fs;
      var after := Fold(fs0, table, step, m).fs;
      p in before ==> p in after && after[p] == before[p]
    ensures var before := Fold(fs0, table, step, k).fs;
      var after := Fold(fs0, table, step, m).fs;
      p !in before && p in after ==> after[p] == Dir && exists j :: k <= j < m && Under(DestPath(cfg, table[j]), p)
    decreases m
  {
    if k < m {
      FoldFrame(fs0, table, step, cfg, p, k, m - 1);
      var before := Fold(fs0, table, step, k).fs;
      var mid := Fold(fs0, table, step, m - 1).fs;
      var after := step(mid, table[m - 1], m - 1).fs;
      assert Fold(fs0, table, step, m).fs == after;
      assert Keeps(mid, after, p, DestPath(cfg, table[m - 1]));
      if p !in before && p in after {
        if p in mid {
          var j :| k <= j < m - 1 && Under(DestPath(cfg, table[j]), p);
          assert k <= j < m;
        } else {
          assert Under(DestPath(cfg, table[m - 1]), p);
        }
      }
    }
  }

  /** The outcome of entry `i` is the outcome of its step on the filesystem the earlier entries left. */
  lemma OutcomeOfEntry(fs0: Fs, table: seq<Entry>, cfg: Config, faults: Faults, i: nat)
    requires i < |table|
    ensures Run(fs0, table, cfg, faults).outcomes[i] ==
      Step(RunUpTo(fs0, table, cfg, faults, i).fs, table[i], cfg, At(faults, i)).outcome
  {
    FoldOutcome(fs0, table, EntryStep(cfg, faults), i, |table|);
  }

  /** The three counters of a run add up to the number of entries. */
  lemma {:induction false} CountersAddUp(outcomes: seq<Outcome>)
    ensures Count(outcomes, LinkedCount) + Count(outcomes, SkippedCount) + Count(outcomes, ErrorCount) == |outcomes|
  {
    if outcomes != [] {
      CountersAddUp(outcomes[..|outcomes| - 1]);
    }
  }

  /**
   * Dry-run mode leaves the filesystem as it was, and each entry's outcome
   * is what a real run with no failing call would give it on that
   * filesystem, with a parent that cannot be created shown as linked.
   */
  lemma DryRunChangesNothing(fs0: Fs, table: seq<Entry>, cfg: Config, faults: Faults)
    requires cfg.dryRun
    ensures Run(fs0, table, cfg, faults).fs == fs0
    ensures forall i :: 0 <= i < |table| ==>
      Run(fs0, table, cfg, faults).outcomes[i] == Previewed(Step(fs0, table[i], cfg.(dryRun := false), NoFaults).outcome)
  {
    var step := EntryStep(cfg, faults);
    forall j | 0 <= j < |table|
      ensures step(fs0, table[j], j).fs == fs0
      ensures step(fs0, table[j], j).outcome == Previewed(Step(fs0, table[j], cfg.(dryRun := false), NoFaults).outcome)
    {
      DryRunPreviewsEntry(fs0, table[j], cfg, At(faults, j));
    }
    FoldFixed(fs0, table, step, |table|);
  }

  /**
   * A path that no entry in [k, m) moves, backs up or links keeps its entry,
   * and only a directory on the way to one of their destinations can appear.
   */
  lemma RunFrame(fs0: Fs, table: seq<Entry>, cfg: Config, faults: Faults, p: Path, k: nat, m: nat)
    requires k <= m <= |table|
    requires forall j :: k <= j < m ==> Untouched(p, cfg, table[j])
    ensures var before := RunUpTo(fs0, table, cfg, faults, k).fs;
      var after := RunUpTo(fs0, table, cfg, faults, m).fs;
      p in before ==> p in after && after[p] == before[p]
    ensures var before := RunUpTo(fs0, table, cfg, faults, k).fs;
      var after := RunUpTo(fs0, table, cfg, faults, m).fs;
      p !in before && p in after ==> after[p] == Dir && exists j :: k <= j < m && Under(DestPath(cfg, table[j]), p)
  {
    var step := EntryStep(cfg, faults);
    forall fs: Fs, j | k <= j < m
      ensures Keeps(fs, step(fs, table[j], j).fs, p, DestPath(cfg, table[j]))
    {
      StepFrame(fs, table[j], cfg, At(faults, j), p);
    }
    FoldFrame(fs0, table, step, cfg, p, k, m);
  }

  /**
   * No entry's destination or backup path lies at or above a source, or at
   * or above another entry's destination; so no move or link of one entry
   * replaces or carries away a source or what another entry made.
   */
  predicate Independent(table: seq<Entry>, cfg: Config)
  {
    forall i, j :: 0 <= i < |table| && 0 <= j < |table| ==>
      && Untouched(SourcePath(cfg, table[i]), cfg, table[j])
      && (i != j ==> Untouched(DestPath(cfg, table[i]), cfg, table[j]))
  }

  /** No other destination lies inside entry `i`'s, so no other makedirs creates it. */
  lemma DestinationsApart(table: seq<Entry>, cfg: Config, i: nat)
    requires Independent(table, cfg) && i < |table|
    ensures forall j :: 0 <= j < |table| && j != i ==> !Under(DestPath(cfg, table[j]), DestPath(cfg, table[i]))
  {
    forall j | 0 <= j < |table| && j != i
      ensures !Under(DestPath(cfg, table[j]), DestPath(cfg, table[i]))
    {
      assert Untouched(DestPath(cfg, table[j]), cfg, table[i]);
    }
  }

  /** The entries before `i` leave its plain source alone and do not create its destination. */
  lemma FreshBeforeEntry(fs0: Fs, table: seq<Entry>, cfg: Config, faults: Faults, i: nat)
    requires Independent(table, cfg) && i < |table|
    requires SourcePath(cfg, table[i]) in fs0 && !fs0[SourcePath(cfg, table[i])].Symlink?
    requires DestPath(cfg, table[i]) !in fs0 && PlainParent(fs0, DestPath(cfg, table[i]))
    ensures var fs := RunUpTo(fs0, table, cfg, faults, i).fs;
      SourcePath(cfg, table[i]) in fs && !fs[SourcePath(cfg, table[i])].Symlink? && DestPath(cfg, table[i]) !in fs
    ensures PlainParent(RunUpTo(fs0, table, cfg, faults, i).fs, DestPath(cfg, table[i]))
  {
    var dest := DestPath(cfg, table[i]);
    RunFrame(fs0, table, cfg, faults, SourcePath(cfg, table[i]), 0, i);
    RunFrame(fs0, table, cfg, faults, dest, 0, i);
    DestinationsApart(table, cfg, i);
    ParentApart(table, cfg, i);
    RunFrame(fs0, table, cfg, faults, Parent(dest), 0, i);
  }

  /** No other entry moves, backs up or links the parent of entry `i`'s destination. */
  lemma ParentApart(table: seq<Entry>, cfg: Config, i: nat)
    requires Independent(table, cfg) && i < |table|
    ensures forall j :: 0 <= j < |table| && j != i ==> Untouched(Parent(DestPath(cfg, table[i])), cfg, table[j])
  {
    var dest := DestPath(cfg, table[i]);
    forall j | 0 <= j < |table| && j != i
      ensures Untouched(Parent(dest), cfg, table[j])
    {
      assert Untouched(dest, cfg, table[j]);
      if dest != [] {
        UntouchedParent(dest, cfg, table[j]);
      }
    }
  }

  /** An entry that leaves a non-root path alone leaves its parent alone too. */
  lemma UntouchedParent(p: Path, cfg: Config, e: Entry)
    requires p != [] && Untouched(p, cfg, e)
    ensures Untouched(Parent(p), cfg, e)
  {
    ParentName(p);
    var dest := DestPath(cfg, e);
    if Under(Parent(p), dest) {
      UnderBelow(p, Parent(p), dest);
    }
    match BackupPath(dest, cfg.stamp)
    case None =>
    case Some(b) =>
      if Under(Parent(p), b) {
        UnderBelow(p, Parent(p), b);
      }
  }

  /**
   * In a real run where entry `i`'s calls succeed, an entry whose source is a
   * plain file or directory and whose destination is absent ends the run as
   * a link to its source.
   */
  lemma FreshEntryEndsLinked(fs0: Fs, table: seq<Entry>, cfg: Config, faults: Faults, i: nat)
    requires !cfg.dryRun && Independent(table, cfg) && i < |table|
    requires i !in faults.mkdir && i !in faults.link
    requires SourcePath(cfg, table[i]) in fs0 && !fs0[SourcePath(cfg, table[i])].Symlink?
    requires DestPath(cfg, table[i]) !in fs0 && PlainParent(fs0, DestPath(cfg, table[i]))
    ensures Run(fs0, table, cfg, faults).outcomes[i] == Linked
    ensures var fs := Run(fs0, table, cfg, faults).fs;
      DestPath(cfg, table[i]) in fs && fs[DestPath(cfg, table[i])] == Symlink(SourcePath(cfg, table[i]))
  {
    var source, dest := SourcePath(cfg, table[i]), DestPath(cfg, table[i]);
    var fsI := RunUpTo(fs0, table, cfg, faults, i).fs;
    FreshBeforeEntry(fs0, table, cfg, faults, i);
    PlainFreshIsLinked(fsI, table[i], cfg, At(faults, i));
    OutcomeOfEntry(fs0, table, cfg, faults, i);
    FsAfterEntry(fs0, table, cfg, faults, i);
    DestAfterEntry(fs0, table, cfg, faults, i);
  }

  /** What entry `i` leaves at its destination, the later entries leave alone. */
  lemma DestAfterEntry(fs0: Fs, table: seq<Entry>, cfg: Config, faults: Faults, i: nat)
    requires Independent(table, cfg) && i < |table|
    ensures var dest, mid := DestPath(cfg, table[i]), RunUpTo(fs0, table, cfg, faults, i + 1).fs;
      var fs := Run(fs0, table, cfg, faults).fs;
      dest in mid ==> dest in fs && fs[dest] == mid[dest]
  {
    RunFrame(fs0, table, cfg, faults, DestPath(cfg, table[i]), i + 1, |table|);
  }

  /** `FreshDestinationIsLinked` for a plain source under a parent that is no link. */
  lemma PlainFreshIsLinked(fs: Fs, e: Entry, cfg: Config, f: EntryFaults)
    requires !cfg.dryRun && !f.mkdir && !f.link
    requires SourcePath(cfg, e) in fs && !fs[SourcePath(cfg, e)].Symlink?
    requires DestPath(cfg, e) !in fs && PlainParent(fs, DestPath(cfg, e))
    ensures Step(fs, e, cfg, f).outcome == Linked
    ensures Step(fs, e, cfg, f).fs[DestPath(cfg, e)] == Symlink(SourcePath(cfg, e))
  {
    PlainEntryExists(fs, SourcePath(cfg, e));
    if Parent(DestPath(cfg, e)) in fs {
      PlainEntryExists(fs, Parent(DestPath(cfg, e)));
    }
    FreshDestinationIsLinked(fs, e, cfg, f);
  }

  /** No source is a symbolic link to begin with. */
  predicate PlainSources(fs: Fs, table: seq<Entry>, cfg: Config)
  {
    forall i :: 0 <= i < |table| && SourcePath(cfg, table[i]) in fs ==> !fs[SourcePath(cfg, table[i])].Symlink?
  }

  /** Every source is a plain entry and every destination is present. */
  predicate Settled(fs: Fs, table: seq<Entry>, cfg: Config)
  {
    forall i :: 0 <= i < |table| ==>
      && SourcePath(cfg, table[i]) in fs && !fs[SourcePath(cfg, table[i])].Symlink?
      && DestPath(cfg, table[i]) in fs
  }

  /** A real link stage that is not an error has made the link. */
  lemma LinkStageClean(fs: Fs, source: Path, dest: Path, cfg: Config, f: EntryFaults)
    requires !cfg.dryRun && LinkStage(fs, source, dest, cfg, f).outcome.Counter() != ErrorCount
    ensures var r := LinkStage(fs, source, dest, cfg, f);
      r.outcome == Linked && dest in r.fs && r.fs[dest] == Symlink(source)
  {
  }

  /** One step of a real run that does not end in an error, on its own source and destination. */
  lemma CleanStep(fs: Fs, e: Entry, cfg: Config, f: EntryFaults)
    requires !cfg.dryRun && Step(fs, e, cfg, f).outcome.Counter() != ErrorCount
    ensures SourcePath(cfg, e) in fs
    ensures var r := Step(fs, e, cfg, f);
      && DestPath(cfg, e) in r.fs
      && (r.outcome == Linked ==> r.fs[DestPath(cfg, e)] == Symlink(SourcePath(cfg, e)))
      && (r.outcome != Linked ==> r.fs == fs)
  {
    var source, dest := SourcePath(cfg, e), DestPath(cfg, e);
    if !Exists(fs, source) {
      MissingSourceIsError(fs, e, cfg, f);
    } else {
      ExistsIsEntry(fs, source);
      if dest !in fs {
        FreshStep(fs, e, cfg, f);
        LinkStageClean(fs, source, dest, cfg, f);
      } else if !cfg.force {
        NoForceKeepsDestination(fs, e, cfg, f);
      } else if IsSymlink(fs, dest) && Resolve(fs, dest) == source {
        CorrectLinkIsSkipped(fs, e, cfg, f);
      } else if Name(dest) == "" || f.move {
        ForcedBackupFailure(fs, e, cfg, f);
      } else {
        ForcedStep(fs, e, cfg, f);
        LinkStageClean(Moved(fs, dest, BackupPath(dest, cfg.stamp).value), source, dest, cfg, f);
      }
    }
  }

  /** The filesystem after entry `i` is what entry `i`'s step makes of the one before. */
  lemma FsAfterEntry(fs0: Fs, table: seq<Entry>, cfg: Config, faults: Faults, i: nat)
    requires i < |table|
    ensures RunUpTo(fs0, table, cfg, faults, i + 1).fs ==
      Step(RunUpTo(fs0, table, cfg, faults, i).fs, table[i], cfg, At(faults, i)).fs
  {
  }

  /** A source that exists when its entry is reached is, after a run, still there and still no link. */
  lemma SourceAfterRun(fs0: Fs, table: seq<Entry>, cfg: Config, faults: Faults, i: nat)
    requires Independent(table, cfg) && PlainSources(fs0, table, cfg) && i < |table|
    requires SourcePath(cfg, table[i]) in RunUpTo(fs0, table, cfg, faults, i).fs
    ensures var fs := Run(fs0, table, cfg, faults).fs;
      SourcePath(cfg, table[i]) in fs && !fs[SourcePath(cfg, table[i])].Symlink?
  {
    var source := SourcePath(cfg, table[i]);
    RunFrame(fs0, table, cfg, faults, source, 0, i);
    RunFrame(fs0, table, cfg, faults, source, i, |table|);
  }

  /** What a run without errors leaves behind for entry `i`. */
  lemma EntryAfterCleanRun(fs0: Fs, table: seq<Entry>, cfg: Config, faults: Faults, i: nat)
    requires !cfg.dryRun && Independent(table, cfg) && PlainSources(fs0, table, cfg) && i < |table|
    requires Run(fs0, table, cfg, faults).outcomes[i].Counter() != ErrorCount
    ensures var fs := Run(fs0, table, cfg, faults).fs;
      var source, dest := SourcePath(cfg, table[i]), DestPath(cfg, table[i]);
      && source in fs && !fs[source].Symlink?
      && dest in fs
      && (Run(fs0, table, cfg, faults).outcomes[i] == Linked ==> fs[dest] == Symlink(source))
  {
    var dest := DestPath(cfg, table[i]);
    var fsI := RunUpTo(fs0, table, cfg, faults, i).fs;
    OutcomeOfEntry(fs0, table, cfg, faults, i);
    CleanStep(fsI, table[i], cfg, At(faults, i));
    SourceAfterRun(fs0, table, cfg, faults, i);
    FsAfterEntry(fs0, table, cfg, faults, i);
    DestAfterEntry(fs0, table, cfg, faults, i);
  }

  /** Without --force, a settled filesystem makes every entry a skip that changes nothing. */
  lemma SettledStep(fs: Fs, e: Entry, cfg: Config, f: EntryFaults)
    requires !cfg.force
    requires SourcePath(cfg, e) in fs && !fs[SourcePath(cfg, e)].Symlink?
    requires DestPath(cfg, e) in fs
    ensures Step(fs, e, cfg, f).fs == fs
    ensures Step(fs, e, cfg, f).outcome.Counter() == SkippedCount
    ensures fs[DestPath(cfg, e)] == Symlink(SourcePath(cfg, e)) ==> Step(fs, e, cfg, f).outcome == AlreadyLinked
  {
    var source, dest := SourcePath(cfg, e), DestPath(cfg, e);
    PlainEntryExists(fs, source);
    NoForceKeepsDestination(fs, e, cfg, f);
    if fs[dest] == Symlink(source) {
      OneHop(fs, dest);
    }
  }

  /** Skipped entries that were already right links. */
  predicate SettledOutcome(fs: Fs, e: Entry, cfg: Config, o: Outcome)
  {
    && o.Counter() == SkippedCount
    && (DestPath(cfg, e) in fs && fs[DestPath(cfg, e)] == Symlink(SourcePath(cfg, e)) ==> o == AlreadyLinked)
  }

  /** Without --force, a run over a settled filesystem changes nothing and skips every entry. */
  lemma SettledRun(fs: Fs, table: seq<Entry>, cfg: Config, faults: Faults)
    requires !cfg.force && Settled(fs, table, cfg)
    ensures Run(fs, table, cfg, faults).fs == fs
    ensures forall i :: 0 <= i < |table| ==> SettledOutcome(fs, table[i], cfg, Run(fs, table, cfg, faults).outcomes[i])
  {
    var step := EntryStep(cfg, faults);
    forall j | 0 <= j < |table|
      ensures step(fs, table[j], j).fs == fs
      ensures SettledOutcome(fs, table[j], cfg, step(fs, table[j], j).outcome)
    {
      SettledStep(fs, table[j], cfg, At(faults, j));
    }
    FoldFixed(fs, table, step, |table|);
  }

  /**
   * Running again without --force after a real run that had no errors
   * changes nothing: every entry is skipped, and every entry the first run
   * linked is now "already linked correctly".
   */
  lemma SecondRunIsIdempotent(fs0: Fs, table: seq<Entry>, cfg: Config, faults: Faults, again: Config, faults2: Faults)
    requires !cfg.dryRun && Independent(table, cfg) && PlainSources(fs0, table, cfg)
    requires forall i :: 0 <= i < |table| ==> Run(fs0, table, cfg, faults).outcomes[i].Counter() != ErrorCount
    requires again.repo == cfg.repo && again.home == cfg.home && !again.force
    ensures var first := Run(fs0, table, cfg, faults);
      Run(first.fs, table, again, faults2).fs == first.fs
    ensures var first := Run(fs0, table, cfg, faults);
      forall i :: 0 <= i < |table| ==> Run(first.fs, table, again, faults2).outcomes[i].Counter() == SkippedCount
    ensures var first := Run(fs0, table, cfg, faults);
      forall i :: 0 <= i < |table| && first.outcomes[i] == Linked ==>
        Run(first.fs, table, again, faults2).outcomes[i] == AlreadyLinked
  {
    var first := Run(fs0, table, cfg, faults);
    forall i | 0 <= i < |table|
      ensures && SourcePath(again, table[i]) in first.fs && !first.fs[SourcePath(again, table[i])].Symlink?
              && DestPath(again, table[i]) in first.fs
              && (first.outcomes[i] == Linked ==> first.fs[DestPath(again, table[i])] == Symlink(SourcePath(again, table[i])))
    {
      EntryAfterCleanRun(fs0, table, cfg, faults, i);
    }
    assert Settled(first.fs, table, again);
    SettledRun(first.fs, table, again, faults2);
  }

  /** A link whose target is a link to a plain entry resolves to that entry. */
  lemma TwoHops(fs: Fs, p: Path, q: Path, t: Path)
    requires p in fs && fs[p] == Symlink(q) && q in fs && fs[q] == Symlink(t)
    requires t in fs && !fs[t].Symlink?
    ensures Resolve(fs, p) == t
  {
    assert |fs| >= 2 by {
      var rest := fs.Keys - {p};
      assert q in rest;
      assert |rest| == |fs.Keys| - 1;
    }
    assert Follow(fs, p, |fs|) == Follow(fs, q, |fs| - 1);
    assert Follow(fs, q, |fs| - 1) == Follow(fs, t, |fs| - 2);
  }

  /**
   * The check for a correct link compares the fully resolved destination
   * with the unresolved source. When the source in the repository is itself
   * a link, the link the first run made is never recognised: a later run
   * without --force reports it as pointing elsewhere, and one with --force
   * backs it up and links again, every time.
   */
  lemma LinkToLinkedSourceIsNotRecognised(fs: Fs, e: Entry, cfg: Config, f: EntryFaults, t: Path)
    requires SourcePath(cfg, e) in fs && fs[SourcePath(cfg, e)] == Symlink(t) && t in fs && !fs[t].Symlink?
    requires DestPath(cfg, e) in fs && fs[DestPath(cfg, e)] == Symlink(SourcePath(cfg, e))
    ensures !cfg.force ==> Step(fs, e, cfg, f) == StepResult(LinkedElsewhere, fs)
    ensures (cfg.force && !cfg.dryRun && !f.move && !f.mkdir && !f.link && Name(DestPath(cfg, e)) != "" &&
      PlainParent(fs, DestPath(cfg, e))) ==>
      var dest := DestPath(cfg, e);
      var r := Step(fs, e, cfg, f);
      var b := Parent(dest) + [Name(dest) + ".bak." + cfg.stamp];
      r.outcome == Linked && b in r.fs && r.fs[b] == Symlink(SourcePath(cfg, e))
  {
    var source, dest := SourcePath(cfg, e), DestPath(cfg, e);
    TwoHops(fs, dest, source, t);
    OneHop(fs, source);
    assert Exists(fs, source);
    if cfg.force && !cfg.dryRun && !f.move && !f.mkdir && !f.link && Name(dest) != "" && PlainParent(fs, dest) {
      ForceBacksUpThenLinks(fs, e, cfg, f);
    }
  }
}
