/**
 * The reconciliation loop of install-environment.py: for every entry of the
 * dotfile table, in table order, make the destination under the home
 * directory a symbolic link to the source in the repository, and count the
 * entry as linked, skipped or an error.
 *
 * The clock, and whether moving, creating directories or creating a link
 * fails, are inputs: the formatted time stamp is part of the configuration,
 * and `Faults` names the entries whose move, mkdir or symlink call raises.
 */
module Linker {
  import opened Wrappers
  import opened Paths
  import opened FileSystem

  /** One line of the table: a path relative to the repository and one relative to home. */
  datatype Entry = Entry(source: string, dest: string)

  /** The dotfile table, in its insertion order. */
  const DotfileMap: seq<Entry> := [
    Entry("bashrc", ".bashrc"),
    Entry("zshrc", ".zshrc"),
    Entry("oh-my-zsh", ".oh-my-zsh"),
    Entry("gitconfig", ".gitconfig"),
    Entry("irssi", ".irssi"),
    Entry("xmonad", ".xmonad"),
    Entry("nvim.vim", ".config/nvim/init.vim"),
    Entry("vimrc", ".vimrc"),
    Entry("vim", ".vim"),
    Entry("fonts.conf", ".fonts.conf"),
    Entry("inputrc", ".inputrc"),
    Entry("Xdefaults", ".Xdefaults"),
    Entry("xmodmap", ".xmodmap")
  ]

  /**
   * One invocation: the repository and home roots, the two command-line
   * switches, and the time stamp formatted as YYYYMMDD_HHMMSS.
   */
  datatype Config = Config(repo: Path, home: Path, dryRun: bool, force: bool, stamp: Stamp)

  /** What `strftime("%Y%m%d_%H%M%S")` yields is digits and '_'; in particular it never holds '/'. */
  type Stamp = s: string | '/' !in s

  /** The entries (by index in the table) whose move, mkdir or symlink call raises. */
  datatype Faults = Faults(move: set<nat>, mkdir: set<nat>, link: set<nat>)

  /** Which of the three calls raise while one entry is processed. */
  datatype EntryFaults = EntryFaults(move: bool, mkdir: bool, link: bool)

  const NoFaults := EntryFaults(false, false, false)

  function At(faults: Faults, i: nat): EntryFaults
  {
    EntryFaults(i in faults.move, i in faults.mkdir, i in faults.link)
  }

  /** The three counters of the run. */
  datatype Counter = LinkedCount | SkippedCount | ErrorCount

  /** How one entry ends; each outcome feeds exactly one counter. */
  datatype Outcome =
    | Linked           // the symlink was made (or, in a dry run, would be)
    | AlreadyLinked    // the destination already resolves to the source
    | LinkedElsewhere  // the destination is a link to something else, no --force
    | NotALink         // the destination is a file or directory, no --force
    | SourceMissing
    | BackupFailed
    | MkdirFailed
    | LinkFailed
  {
    function Counter(): Counter
    {
      match this
      case Linked => LinkedCount
      case AlreadyLinked | LinkedElsewhere | NotALink => SkippedCount
      case SourceMissing | BackupFailed | MkdirFailed | LinkFailed => ErrorCount
    }
  }

  function SourcePath(cfg: Config, e: Entry): Path
  {
    Join(cfg.repo, e.source)
  }

  function DestPath(cfg: Config, e: Entry): Path
  {
    Join(cfg.home, e.dest)
  }

  /**
   * Every line of the table names relative paths, so each source lies in
   * the repository and each destination in the home directory.
   */
  lemma DotfileMapStaysInside(cfg: Config)
    ensures |DotfileMap| == 13
    ensures forall e :: e in DotfileMap ==> Under(SourcePath(cfg, e), cfg.repo) && Under(DestPath(cfg, e), cfg.home)
  {
    forall e | e in DotfileMap
      ensures Under(SourcePath(cfg, e), cfg.repo) && Under(DestPath(cfg, e), cfg.home)
    {
      assert e.source != [] && e.source[0] != '/' && e.dest[0] == '.';
    }
  }

  /**
   * A line whose source is one clean name and whose destination is clean
   * names glued with '/' lies one component below the repository, and those
   * names below home; `"bashrc": ".bashrc"` is the case of one name.
   */
  lemma LineBelow(cfg: Config, e: Entry, names: seq<string>)
    requires Clean(e.source)
    requires |names| >= 1 && (forall k :: 0 <= k < |names| ==> Clean(names[k])) && e.dest == Text.Unfields(names)
    ensures SourcePath(cfg, e) == cfg.repo + [e.source] && DestPath(cfg, e) == cfg.home + names
  {
    JoinNames(cfg.repo, [e.source]);
    JoinNames(cfg.home, names);
  }

  /** The nested destination lands three components below home: `~/.config/nvim/init.vim`. */
  lemma NvimLine(cfg: Config)
    ensures DotfileMap[6].source == "nvim.vim"
    ensures SourcePath(cfg, DotfileMap[6]) == cfg.repo + ["nvim.vim"]
    ensures DestPath(cfg, DotfileMap[6]) == cfg.home + [".config", "nvim", "init.vim"]
  {
    LineBelow(cfg, DotfileMap[6], [".config", "nvim", "init.vim"]);
  }

  // ---- pathlib's suffix arithmetic, used for the backup name ----

  /** `str.rfind('.')`: the index of the last dot, or -1. */
  function LastDot(name: string): (i: int)
    ensures -1 <= i < |name|
    ensures i >= 0 ==> name[i] == '.'
    ensures forall k :: i < k < |name| ==> name[k] != '.'
  {
    if name == [] then -1
    else if name[|name| - 1] == '.' then |name| - 1
    else LastDot(name[..|name| - 1])
  }

  /** `PurePath.suffix`: from the last dot on, unless that dot leads or ends the name. */
  function Suffix(name: string): string
  {
    var i := LastDot(name);
    if 0 < i < |name| - 1 then name[i..] else ""
  }

  /** `PurePath.stem`: the name without its suffix. */
  function Stem(name: string): string
  {
    var i := LastDot(name);
    if 0 < i < |name| - 1 then name[..i] else name
  }

  /**
   * `dest.with_suffix(dest.suffix + ".bak." + stamp)`: `with_suffix` keeps
   * the stem and replaces the suffix by one that starts with the old suffix,
   * so the backup name is the whole destination name with ".bak.<stamp>"
   * appended, in the same directory. An empty name makes `with_suffix`
   * raise ValueError, which the backup's `try` turns into an error.
   */
  function BackupPath(dest: Path, stamp: Stamp): (r: Option<Path>)
    ensures r.None? <==> Name(dest) == ""
    ensures r.Some? ==> r.value == Parent(dest) + [Name(dest) + ".bak." + stamp]
    ensures r.Some? ==> Parent(r.value) == Parent(dest) && Name(r.value) != Name(dest)
  {
    var name := Name(dest);
    var stem := Stem(name);
    assert stem + Suffix(name) == name by {
      var i := LastDot(name);
      if 0 < i < |name| - 1 { assert name == name[..i] + name[i..]; }
    }
    if stem == "" then None
    else
      var b := Parent(dest) + [stem + (Suffix(name) + ".bak." + stamp)];
      assert stem + (Suffix(name) + ".bak." + stamp) == name + ".bak." + stamp;
      assert Parent(b) == Parent(dest);
      assert |Name(b)| > |name|;
      Some(b)
  }

  // ---- one entry ----

  datatype StepResult = StepResult(outcome: Outcome, fs: Fs)

  /**
   * Step 2c: move an existing destination to its backup name. The move is
   * skipped in a dry run; `None` means the step raised.
   */
  function BackUp(fs: Fs, dest: Path, cfg: Config, f: EntryFaults): Option<Fs>
  {
    match BackupPath(dest, cfg.stamp)
    case None => None
    case Some(b) =>
      if cfg.dryRun then Some(fs)
      else if f.move then None
      else Some(Moved(fs, dest, b))
  }

  /**
   * Steps 3 and 4: create the missing parent directory, then the link. A
   * parent that does not exist but has an entry is a broken or looping link;
   * `os.makedirs` then raises, because its `mkdir` finds the name taken.
   */
  function LinkStage(fs: Fs, source: Path, dest: Path, cfg: Config, f: EntryFaults): StepResult
  {
    var parent := Parent(dest);
    var makeParent := !Exists(fs, parent) && !cfg.dryRun;
    if makeParent && (f.mkdir || parent in fs) then StepResult(MkdirFailed, fs)
    else
      var fs1 := if makeParent then WithDirs(fs, parent) else fs;
      if cfg.dryRun then StepResult(Linked, fs1)
      else if f.link then StepResult(LinkFailed, fs1)
      else StepResult(Linked, fs1[dest := Symlink(source)])
  }

  /** The decision tree for one table entry. */
  function Step(fs: Fs, e: Entry, cfg: Config, f: EntryFaults): StepResult
  {
    var source := SourcePath(cfg, e);
    var dest := DestPath(cfg, e);
    if !Exists(fs, source) then StepResult(SourceMissing, fs)
    else if Exists(fs, dest) || IsSymlink(fs, dest) then
      if IsSymlink(fs, dest) && Resolve(fs, dest) == source then StepResult(AlreadyLinked, fs)
      else if !cfg.force then StepResult(if IsSymlink(fs, dest) then LinkedElsewhere else NotALink, fs)
      else match BackUp(fs, dest, cfg, f)
        case None => StepResult(BackupFailed, fs)
        case Some(fs1) => LinkStage(fs1, source, dest, cfg, f)
    else LinkStage(fs, source, dest, cfg, f)
  }

  // ---- the whole table ----

  /** The filesystem and the outcomes after the first `k` entries. */
  datatype Report = Report(fs: Fs, outcomes: seq<Outcome>)

  /** Folds `step` over the first `k` entries of `table`, starting from `fs0`. */
  function Fold(fs0: Fs, table: seq<Entry>, step: (Fs, Entry, nat) -> StepResult, k: nat): (r: Report)
    requires k <= |table|
    ensures |r.outcomes| == k
    decreases k
  {
    if k == 0 then Report(fs0, [])
    else
      var prev := Fold(fs0, table, step, k - 1);
      var s := step(prev.fs, table[k - 1], k - 1);
      Report(s.fs, prev.outcomes + [s.outcome])
  }

  /** The step `main` takes for the entry at index `i`, with the calls that fail there. */
  function EntryStep(cfg: Config, faults: Faults): (Fs, Entry, nat) -> StepResult
  {
    (fs: Fs, e: Entry, i: nat) => Step(fs, e, cfg, At(faults, i))
  }

  function RunUpTo(fs0: Fs, table: seq<Entry>, cfg: Config, faults: Faults, k: nat): Report
    requires k <= |table|
  {
    Fold(fs0, table, EntryStep(cfg, faults), k)
  }

  function Run(fs0: Fs, table: seq<Entry>, cfg: Config, faults: Faults): Report
  {
    RunUpTo(fs0, table, cfg, faults, |table|)
  }

  /** How many of the outcomes feed counter `c`. */
  function Count(outcomes: seq<Outcome>, c: Counter): nat
  {
    if outcomes == [] then 0
    else Count(outcomes[..|outcomes| - 1], c) + (if outcomes[|outcomes| - 1].Counter() == c then 1 else 0)
  }

  lemma CountSnoc(outcomes: seq<Outcome>, o: Outcome, c: Counter)
    ensures Count(outcomes + [o], c) == Count(outcomes, c) + (if o.Counter() == c then 1 else 0)
  {
    assert (outcomes + [o])[..|outcomes|] == outcomes;
  }

  /** A counter is positive exactly when some entry fed it. */
  lemma {:induction false} CountPositive(outcomes: seq<Outcome>, c: Counter)
    ensures Count(outcomes, c) > 0 <==> exists i :: 0 <= i < |outcomes| && outcomes[i].Counter() == c
  {
    if outcomes != [] {
      var front := outcomes[..|outcomes| - 1];
      CountPositive(front, c);
      if exists i :: 0 <= i < |front| && front[i].Counter() == c {
        var i :| 0 <= i < |front| && front[i].Counter() == c;
        assert outcomes[i] == front[i];
      }
      if exists i :: 0 <= i < |outcomes| && outcomes[i].Counter() == c {
        var i :| 0 <= i < |outcomes| && outcomes[i].Counter() == c;
        if i < |front| { assert front[i] == outcomes[i]; }
      }
    }
  }

  /**
   * The body of `main`'s loop for one entry: the checks, and the move, mkdir
   * and symlink calls, ending in the outcome that decides which counter grows.
   */
  method ProcessEntry(fs0: Fs, e: Entry, cfg: Config, f: EntryFaults) returns (fs: Fs, outcome: Outcome)
    ensures StepResult(outcome, fs) == Step(fs0, e, cfg, f)
  {
    fs := fs0;
    var source := SourcePath(cfg, e);
    var dest := DestPath(cfg, e);

    // 1. the source must exist
    if !Exists(fs, source) {
      return fs, SourceMissing;
    }

    // 2. the destination is there already
    if Exists(fs, dest) || IsSymlink(fs, dest) {
      if IsSymlink(fs, dest) {
        var current := Resolve(fs, dest);
        if current == source {
          return fs, AlreadyLinked;
        } else if !cfg.force {
          return fs, LinkedElsewhere;
        }
      } else if !cfg.force {
        return fs, NotALink;
      }
      // 2c. back it up (only with --force)
      var backup := BackupPath(dest, cfg.stamp);
      if backup.None? {
        return fs, BackupFailed;
      }
      if !cfg.dryRun {
        if f.move {
          return fs, BackupFailed;
        }
        fs := Moved(fs, dest, backup.value);
      }
      assert BackUp(fs0, dest, cfg, f) == Some(fs);
    }
    assert Step(fs0, e, cfg, f) == LinkStage(fs, source, dest, cfg, f);

    // 3. create the parent directory
    var parent := Parent(dest);
    if !Exists(fs, parent) {
      if !cfg.dryRun {
        if f.mkdir || parent in fs {
          return fs, MkdirFailed;
        }
        fs := WithDirs(fs, parent);
      }
    }

    // 4. create the link
    if !cfg.dryRun {
      if f.link {
        return fs, LinkFailed;
      }
      fs := fs[dest := Symlink(source)];
    }
    return fs, Linked;
  }

  /**
   * `main`: process every entry of `table` in order, changing the
   * filesystem as it goes, and finish with exit status 1 when some entry
   * counted as an error.
   */
  method Install(fs0: Fs, table: seq<Entry>, cfg: Config, faults: Faults)
    returns (fs: Fs, linked: nat, skipped: nat, errors: nat, exitCode: int)
    ensures fs == Run(fs0, table, cfg, faults).fs
    ensures linked == Count(Run(fs0, table, cfg, faults).outcomes, LinkedCount)
    ensures skipped == Count(Run(fs0, table, cfg, faults).outcomes, SkippedCount)
    ensures errors == Count(Run(fs0, table, cfg, faults).outcomes, ErrorCount)
    ensures linked + skipped + errors == |table|
    ensures exitCode == 0 || exitCode == 1
    ensures exitCode == 1 <==> errors > 0
    ensures exitCode == 1 <==>
      exists i :: 0 <= i < |table| && Run(fs0, table, cfg, faults).outcomes[i].Counter() == ErrorCount
  {
    fs := fs0;
    linked, skipped, errors := 0, 0, 0;
    for i := 0 to |table|
      invariant fs == RunUpTo(fs0, table, cfg, faults, i).fs
      invariant linked == Count(RunUpTo(fs0, table, cfg, faults, i).outcomes, LinkedCount)
      invariant skipped == Count(RunUpTo(fs0, table, cfg, faults, i).outcomes, SkippedCount)
      invariant errors == Count(RunUpTo(fs0, table, cfg, faults, i).outcomes, ErrorCount)
      invariant linked + skipped + errors == i
    {
      ghost var done := RunUpTo(fs0, table, cfg, faults, i).outcomes;
      var outcome;
      fs, outcome := ProcessEntry(fs, table[i], cfg, At(faults, i));
      CountSnoc(done, outcome, LinkedCount);
      CountSnoc(done, outcome, SkippedCount);
      CountSnoc(done, outcome, ErrorCount);
      match outcome.Counter()
      case LinkedCount => linked := linked + 1;
      case SkippedCount => skipped := skipped + 1;
      case ErrorCount => errors := errors + 1;
    }
    if errors > 0 {
      exitCode := 1;
    } else {
      exitCode := 0;
    }
    CountPositive(Run(fs0, table, cfg, faults).outcomes, ErrorCount);
  }
}
