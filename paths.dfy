/**
 * Paths as pathlib holds them: an absolute path is the sequence of its
 * components below the root, so "/home/u/.vimrc" is ["home", "u", ".vimrc"].
 */
module Paths {
  import Text

  type Path = seq<string>

  /** The fields of a relative path string that pathlib keeps: "" and "." fields vanish. */
  function Kept(fields: seq<string>): (r: Path)
    ensures forall k :: 0 <= k < |r| ==> r[k] != "" && r[k] != "." && r[k] in fields
  {
    if fields == [] then []
    else if fields[0] == "" || fields[0] == "." then Kept(fields[1..])
    else [fields[0]] + Kept(fields[1..])
  }

  /** The components pathlib parses out of a path string ("a//./b" gives ["a", "b"]). */
  function Components(s: string): (r: Path)
    ensures forall k :: 0 <= k < |r| ==> r[k] != "" && r[k] != "." && '/' !in r[k]
  {
    var fields := Text.Fields(s);
    var r := Kept(fields);
    assert forall k :: 0 <= k < |r| ==> '/' !in r[k] by {
      forall k | 0 <= k < |r| ensures '/' !in r[k] {
        var j :| 0 <= j < |fields| && fields[j] == r[k];
      }
    }
    r
  }

  /** `base / rel`: a relative string extends `base`; an absolute one replaces it. */
  function Join(base: Path, rel: string): (r: Path)
    ensures (rel == [] || rel[0] != '/') ==> Under(r, base) && r[|base|..] == Components(rel)
    ensures (rel != [] && rel[0] == '/') ==> r == Components(rel)
  {
    if rel != [] && rel[0] == '/' then Components(rel) else base + Components(rel)
  }

  /** A name pathlib keeps as one component: not empty, not ".", and free of '/'. */
  predicate Clean(name: string)
  {
    name != "" && name != "." && '/' !in name
  }

  /** Fields that pathlib has nothing to drop from are kept as they are. */
  lemma {:induction false} KeptClean(fields: seq<string>)
    requires forall k :: 0 <= k < |fields| ==> fields[k] != "" && fields[k] != "."
    ensures Kept(fields) == fields
  {
    if fields != [] {
      KeptClean(fields[1..]);
      assert fields == [fields[0]] + fields[1..];
    }
  }

  /** A relative path string glued from clean names parses back into exactly those names. */
  lemma ComponentsOfNames(names: seq<string>)
    requires |names| >= 1 && forall k :: 0 <= k < |names| ==> Clean(names[k])
    ensures Components(Text.Unfields(names)) == names
  {
    Text.FieldsUnfields(names);
    KeptClean(names);
  }

  /**
   * `base / rel` for a relative `rel` glued from clean names is `base`
   * followed by exactly those names, as in `Path.home() / ".config/nvim"`.
   */
  lemma JoinNames(base: Path, names: seq<string>)
    requires |names| >= 1 && forall k :: 0 <= k < |names| ==> Clean(names[k])
    ensures Join(base, Text.Unfields(names)) == base + names
  {
    assert Text.Unfields(names)[0] == names[0][0];
    ComponentsOfNames(names);
  }

  /** `path.parent`; the root is its own parent. */
  function Parent(p: Path): Path
  {
    if p == [] then [] else p[..|p| - 1]
  }

  /** `path.name`; the root has the empty name. */
  function Name(p: Path): string
  {
    if p == [] then "" else p[|p| - 1]
  }

  /** `p` is `d` or lies below it. */
  predicate Under(p: Path, d: Path)
  {
    |d| <= |p| && p[..|d|] == d
  }

  /** What lies below `p` lies below whatever `p` lies below. */
  lemma UnderBelow(q: Path, p: Path, d: Path)
    requires Under(q, p) && Under(p, d)
    ensures Under(q, d)
  {
    assert q[..|d|] == q[..|p|][..|d|];
  }

  lemma ParentName(p: Path)
    requires p != []
    ensures Parent(p) + [Name(p)] == p
    ensures Under(p, Parent(p)) && |Parent(p)| == |p| - 1
  {
  }
}
