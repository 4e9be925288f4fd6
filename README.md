# Dotfiles linker, modelled in Dafny

The repository installs a user's dotfiles by making symbolic links from the
home directory into the repository. Three scripts do this:

- `install-environment.py` works through a fixed table (`DOTFILE_MAP`) of
  thirteen source → destination pairs. For each
  entry it checks that the source exists and looks at the destination. A
  link that already resolves to the source is skipped. Any other existing
  destination is skipped, unless `--force` is given; then it is first moved
  to `<name>.bak.<YYYYMMDD_HHMMSS>` beside itself. Next a missing parent
  directory is created, and finally the link is made. Every entry counts
  as linked, skipped or an error. `--dry-run` changes nothing but counts
  what would be linked. The exit status is 1 exactly when some entry was an
  error.
- `install-environment.rb` links every entry of the working directory's
  glob as `<home>/.<name>`, except the names `README` and
  `install-zsh-environment.rb`.
- `linux/install-zsh-environment.rb` does the same, but skips every name
  that *contains* `install-zsh`. An entry without a name stops the script
  with an exception.

The model keeps all three as Dafny:

- `wrappers.dfy` holds `Option`.
- `text.dfy` (module `Text`) cuts a string at every '/' into fields,
  keeping empty ones, so that gluing the fields back gives the string.
  Ruby's `split('/')` drops the trailing empty fields, and `.last` of what
  remains is the last non-empty field; pathlib drops every empty field.
  Both are defined from these fields. The module also models the last
  component of a path and `include?`.
- `paths.dfy` (module `Paths`) holds pathlib paths as sequences of
  components, with `/`, `parent` and `name`.
- `filesystem.dfy` (module `FileSystem`) is an abstract filesystem: a finite
  map from paths to files, directories and symbolic links. It defines
  `exists`, `is_symlink`, `realpath`, `shutil.move` and `os.makedirs` over
  that map.
- `linker.dfy` (module `Linker`) is `main` of the Python script. `Step` is
  the decision tree for one entry. `ProcessEntry` is that loop body written
  as statements and proved equal to `Step`. `Install` is the loop with its
  three counters and the exit status, proved against `Run`, the fold of
  `Step` over the table.
- `linker_facts.dfy` (module `LinkerFacts`) proves what the script promises
  for one entry and for whole runs.
- `ruby_install.dfy` (module `RubyInstall`) and `zsh_install.dfy` (module
  `ZshInstall`) model the two Ruby scripts. `Plan` is the list of `ln -nfs`
  commands a listing yields. `Install` is the script's loop, proved equal
  to `Plan`.

Inputs the scripts read from the environment are parameters:

- `Config` carries the repository root, the home directory, both switches
  and the formatted time stamp.
- `Faults` names the entries at which `shutil.move`, `os.makedirs` or
  `os.symlink` raises.
- For the Ruby scripts, the glob listing and the home directory are
  arguments. The commands come back as a sequence of `Link(target, name)`.

## Model

| member | source | states |
|---|---|---|
| Text.SplitLast | install-environment.rb:8 | `split('/').last`: the last non-empty '/'-field, or nil |
| Text.LastName | install-environment.rb:8 | the name read from the end of a path: trailing slashes skipped, then back to the previous '/' |
| Text.Contains | linux/install-zsh-environment.rb:5 | `include?`: the text occurs at some index |
| Text.LastNameIsSplitLast | install-environment.rb:8 | the name taken from the end of a path (slashes at the end skipped, then back to the previous '/') equals `split('/').last`: the last non-empty '/'-field, or nil when there is none |
| Text.LastNameShape | install-environment.rb:8 | a name taken from a path is never empty and never contains '/' |
| Text.LastNameNone | linux/install-zsh-environment.rb:5 | a path has no name (nil) exactly when it is empty or made only of slashes |
| Text.LastNameIsAfterLastSlash | install-environment.rb:8 | for a path not ending in '/', the name is the suffix after the last '/' (the whole path when there is none), and holds no '/' |
| Text.LastNameOfChild | install-environment.rb:7-8 | a glob entry "dir/name" has the name `name` |
| Text.UnfieldsFields | install-environment.rb:8 | splitting at '/' loses nothing: gluing the fields with '/' gives back the string |
| Text.FieldsSnoc | install-environment.rb:8 | appending '/' opens a new empty field; appending any other character extends the last field |
| Text.ContainsIff | linux/install-zsh-environment.rb:5 | `include?` holds exactly when the text occurs at some index |
| Paths.Components | install-environment.py:111-112 | pathlib's components of a string: its '/'-fields without the empty ones and ".", so never empty, never "." and never holding '/' |
| Paths.Join | install-environment.py:111-112 | `base / rel`: `base` followed by the components of a relative `rel`; an absolute `rel` replaces `base` |
| Paths.KeptClean | install-environment.py:111-112 | fields with nothing for pathlib to drop are kept as they are, in order |
| Paths.ComponentsOfNames | install-environment.py:111-112 | clean names glued with '/' parse back into exactly those names |
| Paths.JoinNames | install-environment.py:50-54 | `base / "a/b/c"` for clean names is `base` followed by exactly `a`, `b`, `c` |
| Paths.Parent | install-environment.py:191 | `path.parent`: the path without its last component; the root is its own parent |
| Paths.Name | install-environment.py:172-173 | `path.name`: the last component; the root has the empty name |
| Paths.ParentName | install-environment.py:191 | a non-root path is its parent followed by its name, one component below the parent |
| FileSystem.OneHop | install-environment.py:130 | `realpath` of a link that points straight at a file or directory is that target |
| FileSystem.ExistsIsEntry | install-environment.py:119 | a path that exists has an entry (the link itself, when it is one) |
| FileSystem.PlainEntryExists | install-environment.py:119 | a file or directory exists and resolves to itself |
| FileSystem.Exists | install-environment.py:119 | `exists()`: the path resolves to an entry that is not a link, so a broken link does not exist |
| FileSystem.IsSymlink | install-environment.py:127 | `is_symlink()`: the path's own entry is a link, whether or not it resolves |
| FileSystem.Resolve | install-environment.py:129-130 | `os.path.realpath` on the final component: follow links, one hop per entry at most |
| FileSystem.FollowSettles | install-environment.py:129-130 | once a link chain reaches a path that is no link, following further hops stays there |
| FileSystem.ChainEnd | install-environment.py:119-130 | a link chain that ends within as many hops as there are entries resolves to its end, and the path exists exactly when that end is an entry |
| FileSystem.Moved | install-environment.py:181 | `shutil.move` puts the entry and everything below it at the same place below the new path, keeps every entry outside both paths, and every entry it leaves outside the new path was there before, outside the old one |
| FileSystem.MovedOrigin | install-environment.py:181 | whatever `shutil.move` leaves at or below the new path is the entry from the same place at or below the old path |
| FileSystem.WithDirs | install-environment.py:199 | `os.makedirs` gives the directory an entry (a directory when it was missing), keeps every existing entry, and adds only directories on the way to it |
| Linker.DotfileMap | install-environment.py:56-73 | the thirteen source → destination pairs, in insertion order |
| Linker.DotfileMapStaysInside | install-environment.py:56-73 | the table has thirteen lines, each source lies in the repository and each destination in the home directory |
| Linker.LineBelow | install-environment.py:50-54 | a line whose source is one clean name and whose destination is clean names joined by '/' has its source one component below the repository and its destination exactly those names below home |
| Linker.NvimLine | install-environment.py:65 | `"nvim.vim": ".config/nvim/init.vim"` links `<home>/.config/nvim/init.vim` to `<repo>/nvim.vim` |
| Linker.SourcePath | install-environment.py:111 | `REPO_ROOT / source_name` |
| Linker.DestPath | install-environment.py:112 | `HOME_DIR / dest_name` |
| Linker.Suffix | install-environment.py:172-173 | `path.suffix`: from the last '.' of the name on, or empty when that dot is first or last or missing |
| Linker.Stem | install-environment.py:172-173 | `path.stem`: the name without its suffix |
| Linker.LastDot | install-environment.py:172-173 | the index of the last '.' of a name, or -1 when there is none |
| Linker.BackupPath | install-environment.py:171-174 | the backup of a destination is `<name>.bak.<stamp>` in the same directory and never has the destination's name; there is none (pathlib raises) exactly when the name is empty |
| Linker.BackUp | install-environment.py:168-187 | step 2c: no backup name or a raising move is a failure; a dry run keeps the filesystem; otherwise the destination is moved to its backup path |
| Linker.LinkStage | install-environment.py:189-226 | steps 3 and 4: a missing parent is created in a real run, and `os.makedirs` raises when the call fails or a broken link holds the parent's name; then the link is made, or counted, in a dry run |
| Linker.Step | install-environment.py:118-226 | the decision tree for one entry: source check, destination check, the correct-link skip, the no-force skip, backup, parent, link |
| Linker.Outcome.Counter | install-environment.py:123-226 | the counter each exit of the loop body increments: linked for a made (or previewed) link, skipped for the three skips, errors for the four failures |
| Linker.Fold | install-environment.py:110-226 | the loop over the first `k` entries in table order: each step sees the filesystem the previous ones left, and one outcome is recorded per entry |
| Linker.RunUpTo | install-environment.py:110-226 | the filesystem and outcomes after the first `k` entries of a run of `Step` |
| Linker.Run | install-environment.py:110-226 | the whole loop: `Step` over every entry in table order |
| Linker.Count | install-environment.py:106-226 | a counter's value: the number of outcomes that feed it |
| Linker.CountSnoc | install-environment.py:106-108 | one more entry adds one to exactly the counter its outcome feeds |
| Linker.CountPositive | install-environment.py:242-246 | a counter is positive exactly when some entry fed it |
| Linker.ProcessEntry | install-environment.py:110-226 | the loop body for one entry (checks, move, makedirs, symlink) ends in the filesystem and outcome of the decision tree `Step` |
| Linker.Install | install-environment.py:106-246 | `main` ends in the filesystem and counters of running `Step` over the table in order; the counters add up to the number of entries; the exit status is 1 exactly when errors > 0, exactly when some entry was an error, and 0 otherwise |
| LinkerFacts.MissingSourceIsError | install-environment.py:118-124 | a missing source is an error and changes nothing |
| LinkerFacts.CorrectLinkIsSkipped | install-environment.py:129-138 | a destination link that resolves to the source is skipped as already linked and changes nothing |
| LinkerFacts.NoForceKeepsDestination | install-environment.py:127-166 | without `--force`, an existing destination (file, directory, or link, broken or not) is left as it is, and the entry is skipped, or an error when the source is missing; a file or directory is reported as not a link |
| LinkerFacts.ForcedBackupFailure | install-environment.py:168-187 | with `--force`, when the backup name cannot be formed or the move raises, the entry is an error and changes nothing |
| LinkerFacts.ForcedStep | install-environment.py:168-187 | with `--force` in a real run, an existing destination that is not the right link is moved to its backup path, and the entry continues from there |
| LinkerFacts.ForcedBackupHoldsOld | install-environment.py:181 | after the move, the backup path holds the old destination, and what lay below it lies below the backup, whatever the later steps do |
| LinkerFacts.ForceBacksUpThenLinks | install-environment.py:168-226 | with `--force` in a real run, the old destination ends up at `<name>.bak.<stamp>` beside it with everything below it, and when makedirs and symlink succeed and the parent is no link the destination is a link to the source |
| LinkerFacts.LinkStageLinks | install-environment.py:214-217 | in a real run whose makedirs and symlink succeed, under a parent that exists or has no entry, the entry is linked and the destination is a link to the source |
| LinkerFacts.MissingParentIsCreated | install-environment.py:189-207 | in a real run a missing parent is created with every missing ancestor; when makedirs fails, or a broken link holds the parent's name, the entry is an error and changes nothing, otherwise it goes on to the link |
| LinkerFacts.BackupKeepsParent | install-environment.py:181-199 | moving the destination away leaves its parent as it was, so a parent that is no link still exists for the following makedirs test |
| LinkerFacts.FreshStep | install-environment.py:126-127 | an absent destination goes straight to the parent and link steps |
| LinkerFacts.FreshDestinationIsLinked | install-environment.py:209-217 | in a real run whose calls succeed, an existing source and an absent destination under a parent that exists or has no entry give a link to the source, counted as linked |
| LinkerFacts.PlainFreshIsLinked | install-environment.py:118-217 | the same for a plain source and a parent that is no link |
| LinkerFacts.LinkedMeansLink | install-environment.py:214-217 | in a real run, "linked" means the destination is now a link to the source |
| LinkerFacts.LinkStageErrorKeepsLinks | install-environment.py:197-222 | a parent or link step that fails leaves no new link at the destination |
| LinkerFacts.BackupVacatesDestination | install-environment.py:181 | after the move nothing is left at the destination |
| LinkerFacts.ErrorMakesNoLink | install-environment.py:118-226 | an entry counted as an error never leaves a new link at its destination |
| LinkerFacts.DryRunPreviewsEntry | install-environment.py:180-226 | in a dry run an entry changes nothing, and its outcome is the one a real run without failing calls would give on the same filesystem, except that a parent the real run cannot create shows as linked |
| LinkerFacts.LinkStagePreview | install-environment.py:189-226 | a real parent and link step without failing calls links, or fails only at makedirs |
| LinkerFacts.DryRunMissesBrokenParent | install-environment.py:192-226 | where a broken link holds the parent's name, a dry run reports the entry as linked, while the real run without failing calls counts an error at makedirs and changes nothing |
| LinkerFacts.LinkStageKeeps | install-environment.py:189-226 | the parent and link steps keep every existing entry other than the destination |
| LinkerFacts.LinkStageAdds | install-environment.py:189-226 | the parent and link steps add nothing but the link and directories on the way to it |
| LinkerFacts.StepFrame | install-environment.py:110-226 | one entry changes nothing outside its destination and its backup path, except for directories on the way to its destination |
| LinkerFacts.FoldOutcome | install-environment.py:110 | later entries do not change an earlier entry's recorded outcome |
| LinkerFacts.FoldFixed | install-environment.py:110 | a loop over entries none of which changes the filesystem leaves it as it was, and each outcome is the entry's own on that filesystem |
| LinkerFacts.FoldFrame | install-environment.py:110 | a path that none of a range of entries touches keeps its entry across the range, and only directories on the way to their destinations appear |
| LinkerFacts.OutcomeOfEntry | install-environment.py:110-226 | the outcome of entry `i` is its step on the filesystem the entries before it left |
| LinkerFacts.CountersAddUp | install-environment.py:106-108 | the linked, skipped and error counters add up to the number of entries |
| LinkerFacts.DryRunChangesNothing | install-environment.py:180-226 | a dry run leaves the filesystem as it was, and each entry is counted as a real run without failing calls would count it, a parent that cannot be created aside |
| LinkerFacts.RunFrame | install-environment.py:110-226 | over a range of entries, a path none of them moves, backs up or links keeps its entry, and only directories on the way to their destinations appear |
| LinkerFacts.DestinationsApart | install-environment.py:56-73 | when the entries are `Independent`, no destination lies inside another's |
| LinkerFacts.ParentApart | install-environment.py:56-73 | when the entries are `Independent`, no other entry writes at or above the parent of entry `i`'s destination |
| LinkerFacts.FreshBeforeEntry | install-environment.py:110-226 | for `Independent` entries, the entries before `i` leave `i`'s plain source alone, do not create its destination, and leave a parent that was no link still no link |
| LinkerFacts.FreshEntryEndsLinked | install-environment.py:110-226 | for `Independent` entries, in a real run whose calls for entry `i` succeed, a plain source with an absent destination under a parent that is no link is counted as linked and is still linked when the run ends |
| LinkerFacts.DestAfterEntry | install-environment.py:110-226 | for `Independent` entries, what entry `i` leaves at its destination is still there when the run ends |
| LinkerFacts.LinkStageClean | install-environment.py:189-226 | a real parent and link step that is not an error has made the link |
| LinkerFacts.CleanStep | install-environment.py:110-226 | a real step that is not an error leaves its destination present: a link to the source when linked, and an unchanged filesystem when skipped |
| LinkerFacts.FsAfterEntry | install-environment.py:110 | the filesystem after entry `i` is what `i`'s step makes of the one before |
| LinkerFacts.SourceAfterRun | install-environment.py:110-226 | for `Independent` entries whose sources start plain, a plain source that exists when its entry is reached is still there, and still not a link, when the run ends |
| LinkerFacts.EntryAfterCleanRun | install-environment.py:110-226 | for `Independent` entries whose sources start plain, after a real run, an entry that was not an error has a present destination, and a link to its source when it was linked |
| LinkerFacts.SettledStep | install-environment.py:127-151 | without `--force` on a filesystem where the source is plain and the destination present, the entry is skipped, changes nothing, and a right link is reported as already linked |
| LinkerFacts.SettledRun | install-environment.py:106-151 | without `--force`, a run over such a filesystem changes nothing and skips every entry |
| LinkerFacts.SecondRunIsIdempotent | install-environment.py:106-246 | for `Independent` entries, after a real run with no errors and no linked sources, running again without `--force` changes nothing, skips every entry, and reports every entry the first run linked as already linked correctly |
| LinkerFacts.TwoHops | install-environment.py:130 | `realpath` of a link to a link to a plain entry is that entry |
| LinkerFacts.LinkToLinkedSourceIsNotRecognised | install-environment.py:129-187 | when the source is itself a link, a correct destination link is not recognised: without `--force` it is reported as linked elsewhere, and with `--force` (under a parent that is no link) it is backed up and linked again |
| RubyInstall.Ignore | install-environment.rb:5 | the two names the script never links, `README` and `install-zsh-environment.rb` |
| RubyInstall.FileName | install-environment.rb:8-9 | `file.split('/').last` as interpolated: the entry's name, or "" when it has none (nil) |
| RubyInstall.LinkName | install-environment.rb:9 | `"#{home}/.#{filename}"` |
| RubyInstall.Ignored | install-environment.rb:9 | `ignore.include? filename`: the entry's name is one of the ignored names, matched whole |
| RubyInstall.Commands | install-environment.rb:8-9 | the command for one entry: none for an ignored name, otherwise `ln -nfs <entry> <home>/.<name>` |
| RubyInstall.Plan | install-environment.rb:7-9 | the commands for a listing, entry by entry in glob order |
| RubyInstall.Advance | install-environment.rb:7-10 | issuing entry `i`'s commands moves the rest of the plan on by one entry |
| RubyInstall.Install | install-environment.rb:7-10 | the loop issues exactly the commands of `Plan`, in listing order |
| RubyInstall.PlanAppend | install-environment.rb:7 | planning a listing in two parts plans each part in turn |
| RubyInstall.IssuedIff | install-environment.rb:7-10 | a command is issued exactly for a listed entry whose name is not ignored, and it links that entry, by its full path, from home + "/." + name |
| RubyInstall.IgnoredNeverLinked | install-environment.rb:5-9 | no issued command targets an entry with an ignored name |
| RubyInstall.OneLinkPerEntry | install-environment.rb:7-10 | when no name is ignored, command `i` links entry `i` |
| RubyInstall.GlobEntry | install-environment.rb:7-9 | a glob entry "dir/name" gets exactly one command, linking it from home + "/." + name, unless `name` is on the ignore list |
| RubyInstall.IgnoreIsExact | install-environment.rb:5 | an illustration that the ignore list matches whole names: "README" is on it, "README.md" is not |
| ZshInstall.Excluded | linux/install-zsh-environment.rb:5 | `name.include?('install-zsh')` |
| ZshInstall.Plan | linux/install-zsh-environment.rb:4-6 | the commands for a listing in glob order, stopping at the first entry without a name |
| ZshInstall.Install | linux/install-zsh-environment.rb:4-6 | the loop issues exactly the commands of `Plan`, in listing order, and stops exactly where `Plan` stops |
| ZshInstall.PlanAppend | linux/install-zsh-environment.rb:4 | a listing in two parts runs the first part, and the second only when the first did not stop the script |
| ZshInstall.CrashIff | linux/install-zsh-environment.rb:5 | the script stops with an exception exactly when some listed entry has no name |
| ZshInstall.IssuedIff | linux/install-zsh-environment.rb:4-6 | a command is issued exactly for an entry the script reaches whose name does not contain "install-zsh", and it links that entry, by its full path, from home + "/." + name |
| ZshInstall.MarkerAnywhereExcludes | linux/install-zsh-environment.rb:5 | a name with "install-zsh" anywhere in it, not just as the whole name, is excluded |
| ZshInstall.ExcludedIff | linux/install-zsh-environment.rb:5 | a name is excluded exactly when it is some text, then "install-zsh", then some text |
| ZshInstall.MarkedNeverLinked | linux/install-zsh-environment.rb:5 | no issued command links an entry whose name contains "install-zsh" |
| ZshInstall.OneLinkPerEntry | linux/install-zsh-environment.rb:4-6 | when every entry has a name without "install-zsh", the script does not stop and command `i` links entry `i` |
| ZshInstall.GlobEntry | linux/install-zsh-environment.rb:4-5 | a glob entry "dir/name" gets exactly one command, linking it from home + "/." + name, unless `name` contains "install-zsh" |
| ZshInstall.AgreesWithGeneralScript | linux/install-zsh-environment.rb:4-6 | on a listing where every entry has a name, none with "install-zsh" and none ignored by the general script, both Ruby scripts issue the same commands |

### Independent entries

The run-level lemmas assume `LinkerFacts.Independent`: no entry's
destination or backup path lies at or above a source, or at or above
another entry's destination. Writing below a source is allowed; writing at
or above one is not, because moving or replacing that path takes the
source with it. Without it the entries interfere. An entry whose source lies
inside a later entry's destination is linked first, and then with
`--force` that entry's backup carries the source away. Two entries with
the same destination fight over it. Whether `Linker.DotfileMap` is
independent depends on where the repository lies (it must not lie inside
one of the destinations or backups); the model does not prove it for any
configuration.

### Where the code departs from its evident intent

When a destination link already resolves to its source, the code skips
the entry with the message `[SKIP] Already linked correctly.`
(install-environment.py:133-136). The code means a second run to
recognise the links the first run made. The test compares
`os.path.realpath(dest_path)` (install-environment.py:130) with
`str(source_path)`. The destination is fully resolved, but the source is
not. `REPO_ROOT` itself is resolved (install-environment.py:40), and
`source_name` is appended to it unresolved. So when a source in the
repository is itself a symbolic link, the link made by the first run is
never recognised. A later run without `--force` reports it as linked
elsewhere. A run with `--force` backs it up and links it again, every
time. The model follows the code, and
`LinkerFacts.LinkToLinkedSourceIsNotRecognised` proves this behaviour.
`LinkerFacts.SecondRunIsIdempotent` therefore assumes that no source is a
link (`PlainSources`).

The dry run is a preview of the real run only up to `os.makedirs`. A
dry run never calls it, so where a broken link holds the parent's name a
dry run counts the entry as linked, while the real run counts an error
(`LinkerFacts.DryRunMissesBrokenParent`).

## Left out

- The command-line layer (typer options, coloured messages, the summary lines): only the two switches and the exit status are modelled.
- The clock: the formatted `YYYYMMDD_HHMMSS` stamp is a parameter. The model only requires it to hold no '/' (`Linker.Stamp`), which every `strftime` result of that format meets; digits and length are not checked. The model uses one stamp for the whole run (`Config.stamp`), so `Independent`, `Untouched` and the run-level lemmas speak of the backup paths of that one stamp. The script reads the clock at each backup (install-environment.py:171), so backups made in one run may carry different stamps when the run crosses a second.
- `Path(__file__).parent.resolve()` and `Path.home()`: the repository and home roots are parameters.
- Failures of `shutil.move`, `os.makedirs` and `os.symlink`: exceptions are replaced by per-entry fault sets. The model does not distinguish why a call fails. The one failure it derives from the filesystem is `os.makedirs` finding the parent's own name taken by a broken link. A file or a broken link further up, or a parent that is a symlink to a file, makes the real calls raise; the model covers those only through the fault sets. An exception escaping `exists()` or `is_symlink()` (for example, a permission error) is not modelled.
- FileSystem.Resolve: follows links on the final component only, stopping after as many hops as there are entries. Links in intermediate directories, relative link targets, `..` components, and a home directory reached through a link are not modelled.
- FileSystem.Moved: models `shutil.move` as a rename that replaces whatever was at the backup path. When the backup path is an existing directory, `shutil.move` would move the destination into it instead. File contents, permissions and copying across devices are not modelled.
- Linker.Install: works over any table, including `Linker.DotfileMap`, the thirteen entries in table order. Beyond `Linker.DotfileMapStaysInside` and `Linker.NvimLine`, no property specific to those thirteen names is proved; in particular `LinkerFacts.Independent` is not proved for them.
- Python integer counters are unbounded, and so are the model's; nothing wraps.
- The Ruby scripts' `Dir["#{Dir.pwd}/*"]` glob and `ENV['HOME']` / `Dir.home`: the listing and the home directory are inputs, and the glob's own filtering and order are taken as given.
- The Ruby scripts' `system "ln -nfs …"`: each call is recorded as the `Link` it requests. The shell's word splitting of names with spaces or metacharacters, and whether `ln` succeeds, are not modelled.
- The submodule, Windows and PowerShell installers are not part of this model.
