/**
 * linux/install-zsh-environment.rb: for every entry the glob of the working
 * directory lists, in the glob's order, run
 * `ln -nfs <entry> <home>/.<name>` unless the entry's name contains
 * "install-zsh".
 *
 * The exclusion test runs before the command and calls `include?` on the
 * name; when an entry has no name (`split('/').last` is nil) that call
 * raises and the script stops, after the commands already issued.
 */
module ZshInstall {
  import opened Wrappers
  import opened Text
  import RubyInstall

  type Link = RubyInstall.Link

  /** The text whose presence anywhere in a name excludes the entry. */
  const Marker: string := "install-zsh"

  /** `name.include?('install-zsh')`. */
  predicate Excluded(name: string)
  {
    Contains(name, Marker)
  }

  /** The commands issued, and whether the script stopped on an entry without a name. */
  datatype Run = Run(commands: seq<Link>, crashed: bool)

  /** `done` issued first, then what happens in `r`. */
  function After(done: seq<Link>, r: Run): Run
  {
    Run(done + r.commands, r.crashed)
  }

  /** What the script does for `listing`, in order. */
  function Plan(listing: seq<string>, home: string): Run
  {
    if listing == [] then Run([], false)
    else
      match LastName(listing[0])
      case None => Run([], true)
      case Some(name) =>
        var rest := Plan(listing[1..], home);
        if Excluded(name) then rest
        else After([RubyInstall.Link(listing[0], home + "/." + name)], rest)
  }

  /** The plan from entry `i` on, unfolded once. */
  lemma PlanFrom(listing: seq<string>, i: nat, home: string)
    requires i < |listing|
    ensures Plan(listing[i..], home) ==
      match LastName(listing[i])
      case None => Run([], true)
      case Some(name) =>
        if Excluded(name) then Plan(listing[i + 1..], home)
        else After([RubyInstall.Link(listing[i], home + "/." + name)], Plan(listing[i + 1..], home))
  {
    assert listing[i..][0] == listing[i];
    assert listing[i..][1..] == listing[i + 1..];
  }

  /** The loop of the script: it stops at the first entry without a name. */
  method Install(listing: seq<string>, home: string) returns (commands: seq<Link>, crashed: bool)
    ensures Run(commands, crashed) == Plan(listing, home)
  {
    commands := [];
    crashed := false;
    var i := 0;
    while i < |listing| && !crashed
      invariant 0 <= i <= |listing|
      invariant !crashed ==> Plan(listing, home) == After(commands, Plan(listing[i..], home))
      invariant crashed ==> Plan(listing, home) == Run(commands, true)
      decreases |listing| - i, !crashed
    {
      var file := listing[i];
      PlanFrom(listing, i, home);
      match LastName(file)
      case None =>
        crashed := true;
      case Some(name) =>
        if !Excluded(name) {
          assert commands + ([RubyInstall.Link(file, home + "/." + name)] + Plan(listing[i + 1..], home).commands)
            == (commands + [RubyInstall.Link(file, home + "/." + name)]) + Plan(listing[i + 1..], home).commands;
          commands := commands + [RubyInstall.Link(file, home + "/." + name)];
        }
        i := i + 1;
    }
    if !crashed {
      assert listing[i..] == [];
      assert commands + [] == commands;
    }
  }

  /** Running over `a + b` runs over `a`, and over `b` only when `a` did not stop the script. */
  lemma {:induction false} PlanAppend(a: seq<string>, b: seq<string>, home: string)
    ensures Plan(a + b, home) ==
      if Plan(a, home).crashed then Plan(a, home) else After(Plan(a, home).commands, Plan(b, home))
    decreases |a|
  {
    if a == [] {
      assert a + b == b;
    } else {
      assert (a + b)[0] == a[0] && (a + b)[1..] == a[1..] + b;
      PlanAppend(a[1..], b, home);
      match LastName(a[0])
      case None =>
      case Some(name) =>
        var l := RubyInstall.Link(a[0], home + "/." + name);
        var p := Plan(a[1..], home);
        if !Excluded(name) && !p.crashed {
          assert [l] + (p.commands + Plan(b, home).commands) == ([l] + p.commands) + Plan(b, home).commands;
        }
    }
  }

  /** Every entry before `i` has a name, so the script gets as far as entry `i`. */
  predicate Reaches(listing: seq<string>, i: int)
    requires 0 <= i <= |listing|
  {
    forall j :: 0 <= j < i ==> LastName(listing[j]).Some?
  }

  /** `l` is the command the script issues for `file`. */
  predicate IssuedFor(file: string, home: string, l: Link)
  {
    LastName(file).Some? && !Excluded(LastName(file).value) &&
    l == RubyInstall.Link(file, home + "/." + LastName(file).value)
  }

  /** The script stops exactly when some listed entry has no name. */
  lemma {:induction false} CrashIff(listing: seq<string>, home: string)
    ensures Plan(listing, home).crashed <==> exists i :: 0 <= i < |listing| && LastName(listing[i]).None?
  {
    if listing != [] && LastName(listing[0]).Some? {
      CrashIff(listing[1..], home);
      if exists i :: 0 <= i < |listing| && LastName(listing[i]).None? {
        var i :| 0 <= i < |listing| && LastName(listing[i]).None?;
        assert listing[1..][i - 1] == listing[i];
      }
      if Plan(listing[1..], home).crashed {
        var i :| 0 <= i < |listing[1..]| && LastName(listing[1..][i]).None?;
        assert listing[i + 1] == listing[1..][i];
      }
    }
  }

  /**
   * A command is issued exactly for a listed entry the script reaches whose
   * name does not contain the marker; it links that entry, by its full path,
   * from home + "/." + name.
   */
  lemma {:induction false} IssuedIff(listing: seq<string>, home: string, l: Link)
    ensures l in Plan(listing, home).commands <==>
      exists i :: 0 <= i < |listing| && Reaches(listing, i) && IssuedFor(listing[i], home, l)
  {
    if listing != [] && LastName(listing[0]).Some? {
      var tail := listing[1..];
      IssuedIff(tail, home, l);
      if exists i :: 0 <= i < |listing| && Reaches(listing, i) && IssuedFor(listing[i], home, l) {
        var i :| 0 <= i < |listing| && Reaches(listing, i) && IssuedFor(listing[i], home, l);
        if i > 0 {
          assert tail[i - 1] == listing[i];
          assert Reaches(tail, i - 1) by {
            forall j | 0 <= j < i - 1 ensures LastName(tail[j]).Some? {
              assert tail[j] == listing[j + 1];
            }
          }
        }
      }
      if l in Plan(tail, home).commands {
        var i :| 0 <= i < |tail| && Reaches(tail, i) && IssuedFor(tail[i], home, l);
        assert listing[i + 1] == tail[i];
        assert Reaches(listing, i + 1) by {
          forall j | 0 <= j < i + 1 ensures LastName(listing[j]).Some? {
            if j > 0 {
              assert listing[j] == tail[j - 1];
            }
          }
        }
      }
    }
  }

  /** A name containing the marker anywhere, not only as the whole name, is excluded. */
  lemma MarkerAnywhereExcludes(before: string, after: string)
    ensures Excluded(before + Marker + after)
  {
    var name := before + Marker + after;
    assert name[|before|..|before| + |Marker|] == Marker;
    assert OccursAt(name, Marker, |before|);
    ContainsIff(name, Marker);
  }

  /** Exclusion is exactly an occurrence of the marker at some position of the name. */
  lemma ExcludedIff(name: string)
    ensures Excluded(name) <==> exists before, after :: name == before + Marker + after
  {
    ContainsIff(name, Marker);
    if Excluded(name) {
      var k :| OccursAt(name, Marker, k);
      assert name == name[..k] + Marker + name[k + |Marker|..];
    }
    if exists before, after :: name == before + Marker + after {
      var before, after :| name == before + Marker + after;
      MarkerAnywhereExcludes(before, after);
    }
  }

  /** An entry whose command is issued never has the marker in its name. */
  lemma MarkedNeverLinked(listing: seq<string>, home: string, l: Link)
    requires l in Plan(listing, home).commands
    ensures LastName(l.target).Some? && !Excluded(LastName(l.target).value) && l.target in listing
  {
    IssuedIff(listing, home, l);
  }

  /** When every entry has a name without the marker, the i-th command links the i-th entry. */
  lemma {:induction false} OneLinkPerEntry(listing: seq<string>, home: string)
    requires forall i :: 0 <= i < |listing| ==>
      LastName(listing[i]).Some? && !Excluded(LastName(listing[i]).value)
    ensures !Plan(listing, home).crashed
    ensures |Plan(listing, home).commands| == |listing|
    ensures forall i :: 0 <= i < |listing| ==>
      Plan(listing, home).commands[i] ==
        RubyInstall.Link(listing[i], home + "/." + LastName(listing[i]).value)
  {
    if listing != [] {
      assert LastName(listing[0]).Some?;
      OneLinkPerEntry(listing[1..], home);
    }
  }

  /** A glob entry "dir/name" links home + "/." + name unless the name contains the marker. */
  lemma GlobEntry(dir: string, name: string, home: string)
    requires name != "" && '/' !in name
    ensures Plan([dir + "/" + name], home) ==
      if Excluded(name) then Run([], false)
      else Run([RubyInstall.Link(dir + "/" + name, home + "/." + name)], false)
  {
    LastNameOfChild(dir, name);
    assert [dir + "/" + name][1..] == [];
  }

  /**
   * Over a listing where every entry has a name, no name contains the marker
   * and none is on the other script's ignore list, both scripts issue the
   * same commands.
   */
  lemma {:induction false} AgreesWithGeneralScript(listing: seq<string>, home: string)
    requires forall i :: 0 <= i < |listing| ==>
      LastName(listing[i]).Some? && !Excluded(LastName(listing[i]).value) &&
      !RubyInstall.Ignored(listing[i])
    ensures Plan(listing, home) == Run(RubyInstall.Plan(listing, home), false)
  {
    if listing != [] {
      AgreesWithGeneralScript(listing[1..], home);
    }
  }
}
