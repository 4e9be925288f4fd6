/**
 * install-environment.rb: for every entry the glob of the working directory
 * lists, in the glob's order, run `ln -nfs <entry> <home>/.<name>` unless
 * the entry's name is on the ignore list.
 *
 * The glob result and $HOME are inputs; each `system` call is recorded as
 * the link it asks `ln` to make.
 */
module RubyInstall {
  import opened Wrappers
  import opened Text

  /** Names that are never linked. */
  const Ignore: seq<string> := ["README", "install-zsh-environment.rb"]

  /** One `ln -nfs target name` command. */
  datatype Link = Link(target: string, name: string)

  /** `file.split('/').last`, as interpolated: a missing name (nil) reads as "". */
  function FileName(file: string): string
  {
    match LastName(file)
    case None => ""
    case Some(name) => name
  }

  /** `"#{home}/.#{filename}"`. */
  function LinkName(home: string, filename: string): string
  {
    home + "/." + filename
  }

  /** `ignore.include? filename`: the whole name is on the list. */
  predicate Ignored(file: string)
  {
    FileName(file) in Ignore
  }

  /** What the loop body issues for one entry: a command, or nothing when the name is ignored. */
  function Commands(file: string, home: string): seq<Link>
  {
    if Ignored(file) then [] else [Link(file, LinkName(home, FileName(file)))]
  }

  /** The commands the script issues for `listing`, in order. */
  function Plan(listing: seq<string>, home: string): seq<Link>
  {
    if listing == [] then [] else Commands(listing[0], home) + Plan(listing[1..], home)
  }

  /** The plan from entry `i` on is entry `i`'s commands, then the plan from `i + 1`. */
  lemma PlanFrom(listing: seq<string>, i: nat, home: string)
    requires i < |listing|
    ensures Plan(listing[i..], home) == Commands(listing[i], home) + Plan(listing[i + 1..], home)
  {
    assert listing[i..][0] == listing[i];
    assert listing[i..][1..] == listing[i + 1..];
  }

  /** One turn of the loop: issuing entry `i`'s commands moves the rest of the plan on by one entry. */
  lemma Advance(listing: seq<string>, i: nat, home: string, before: seq<Link>, after: seq<Link>)
    requires i < |listing|
    requires Plan(listing, home) == before + Plan(listing[i..], home)
    requires after == before + Commands(listing[i], home)
    ensures Plan(listing, home) == after + Plan(listing[i + 1..], home)
  {
    PlanFrom(listing, i, home);
    Associative(before, Commands(listing[i], home), Plan(listing[i + 1..], home));
  }

  lemma Associative(a: seq<Link>, b: seq<Link>, c: seq<Link>)
    ensures a + (b + c) == (a + b) + c
  {
  }

  /** The loop of the script, issuing one command per entry that is not ignored. */
  method Install(listing: seq<string>, home: string) returns (commands: seq<Link>)
    ensures commands == Plan(listing, home)
  {
    commands := [];
    for i := 0 to |listing|
      invariant Plan(listing, home) == commands + Plan(listing[i..], home)
    {
      var file := listing[i];
      var filename := FileName(file);
      var before := commands;
      if filename !in Ignore {
        commands := commands + [Link(file, LinkName(home, filename))];
      }
      Advance(listing, i, home, before, commands);
    }
    assert listing[|listing|..] == [];
  }

  /** Planning a listing in two parts plans each part in turn. */
  lemma {:induction false} PlanAppend(a: seq<string>, b: seq<string>, home: string)
    ensures Plan(a + b, home) == Plan(a, home) + Plan(b, home)
    decreases |a|
  {
    if a != [] {
      PlanAppend(a[1..], b, home);
      var now := Commands(a[0], home);
      assert (a + b)[0] == a[0] && (a + b)[1..] == a[1..] + b;
      assert Plan(a + b, home) == now + (Plan(a[1..], home) + Plan(b, home));
      assert now + (Plan(a[1..], home) + Plan(b, home)) == (now + Plan(a[1..], home)) + Plan(b, home);
    } else {
      assert a + b == b;
    }
  }

  /** `l` is the command the script issues for `file`. */
  predicate IssuedFor(file: string, home: string, l: Link)
  {
    !Ignored(file) && l == Link(file, LinkName(home, FileName(file)))
  }

  /**
   * A command is issued exactly for a listed entry whose name is not
   * ignored; it links that entry, by its full path, from home + "/." + name.
   */
  lemma {:induction false} IssuedIff(listing: seq<string>, home: string, l: Link)
    ensures l in Plan(listing, home) <==> exists i :: 0 <= i < |listing| && IssuedFor(listing[i], home, l)
  {
    if listing != [] {
      IssuedIff(listing[1..], home, l);
      if exists i :: 0 <= i < |listing| && IssuedFor(listing[i], home, l) {
        var i :| 0 <= i < |listing| && IssuedFor(listing[i], home, l);
        if i > 0 {
          assert listing[1..][i - 1] == listing[i];
        }
      }
      if l in Plan(listing[1..], home) {
        var i :| 0 <= i < |listing[1..]| && IssuedFor(listing[1..][i], home, l);
        assert listing[i + 1] == listing[1..][i];
      }
    }
  }

  /** An entry with an ignored name never gets a command. */
  lemma IgnoredNeverLinked(listing: seq<string>, home: string, l: Link)
    requires l in Plan(listing, home)
    ensures !Ignored(l.target) && l.target in listing
  {
    IssuedIff(listing, home, l);
  }

  /** When nothing is ignored, the i-th command links the i-th entry. */
  lemma {:induction false} OneLinkPerEntry(listing: seq<string>, home: string)
    requires forall i :: 0 <= i < |listing| ==> !Ignored(listing[i])
    ensures |Plan(listing, home)| == |listing|
    ensures forall i :: 0 <= i < |listing| ==>
      Plan(listing, home)[i] == Link(listing[i], LinkName(home, FileName(listing[i])))
  {
    if listing != [] {
      assert !Ignored(listing[0]);
      OneLinkPerEntry(listing[1..], home);
    }
  }

  /** A glob entry "dir/name" links home + "/." + name, unless the name is ignored. */
  lemma GlobEntry(dir: string, name: string, home: string)
    requires name != "" && '/' !in name
    ensures Plan([dir + "/" + name], home) ==
      if name in Ignore then [] else [Link(dir + "/" + name, home + "/." + name)]
  {
    LastNameOfChild(dir, name);
  }

  /** The ignore list is matched exactly: "README" is ignored, "README.md" is not. */
  lemma IgnoreIsExact()
    ensures "README" in Ignore
    ensures "README.md" !in Ignore
  {
    assert "README.md"[6] == '.';
    assert |"README.md"| != |"README"|;
  }
}
