/**
 * An abstract filesystem: a finite map from each existing path to what is
 * there. Symbolic links record the absolute path they point at; a link whose
 * target is missing (a broken link) is still an entry of the map.
 */
module FileSystem {
  import opened Paths

  datatype Node = File | Dir | Symlink(target: Path)

  type Fs = map<Path, Node>

  /** Follow symbolic links at `p` for at most `fuel` hops. */
  function Follow(fs: Fs, p: Path, fuel: nat): Path
    decreases fuel
  {
    if fuel == 0 || p !in fs || !fs[p].Symlink? then p
    else Follow(fs, fs[p].target, fuel - 1)
  }

  /**
   * `os.path.realpath` on the last component: follows the link chain for as
   * many hops as there are entries. A chain that ends within that many hops
   * resolves to its end (`ChainEnd`); a longer one stops at a link.
   */
  function Resolve(fs: Fs, p: Path): Path
  {
    Follow(fs, p, |fs|)
  }

  /** Once the chain has reached a path that is no link, more fuel changes nothing. */
  lemma {:induction false} FollowSettles(fs: Fs, p: Path, n: nat, m: nat)
    requires n <= m && !IsSymlink(fs, Follow(fs, p, n))
    ensures Follow(fs, p, m) == Follow(fs, p, n)
    decreases n
  {
    if n == 0 {
      assert !IsSymlink(fs, p);
    } else if p in fs && fs[p].Symlink? {
      FollowSettles(fs, fs[p].target, n - 1, m - 1);
    }
  }

  /** A chain that ends within as many hops as there are entries resolves to its end. */
  lemma ChainEnd(fs: Fs, p: Path, n: nat)
    requires n <= |fs| && !IsSymlink(fs, Follow(fs, p, n))
    ensures Resolve(fs, p) == Follow(fs, p, n)
    ensures Exists(fs, p) <==> Follow(fs, p, n) in fs
  {
    FollowSettles(fs, p, n, |fs|);
  }

  /** `Path.is_symlink()`: the entry itself is a link, broken or not. */
  predicate IsSymlink(fs: Fs, p: Path)
  {
    p in fs && fs[p].Symlink?
  }

  /** `Path.exists()`: follows links; a broken or looping link does not exist. */
  predicate Exists(fs: Fs, p: Path)
  {
    var r := Resolve(fs, p);
    r in fs && !fs[r].Symlink?
  }

  lemma ExistsIsEntry(fs: Fs, p: Path)
    requires Exists(fs, p)
    ensures p in fs
  {
  }

  lemma PlainEntryExists(fs: Fs, p: Path)
    requires p in fs && !fs[p].Symlink?
    ensures Resolve(fs, p) == p && Exists(fs, p)
  {
  }

  /** A link straight to a plain entry resolves to that entry. */
  lemma OneHop(fs: Fs, p: Path)
    requires IsSymlink(fs, p)
    requires fs[p].target in fs && !fs[fs[p].target].Symlink?
    ensures Resolve(fs, p) == fs[p].target
  {
    assert |fs| >= 1 by {
      assert p in fs.Keys;
      assert |fs.Keys| >= 1;
    }
    assert Follow(fs, p, |fs|) == Follow(fs, fs[p].target, |fs| - 1);
  }

  /** Where `shutil.move(from, to)` puts the entry at `p`, for `p` at or below `from`. */
  function MovedName(p: Path, from: Path, to: Path): Path
    requires Under(p, from)
  {
    to + p[|from|..]
  }

  lemma MovedKeysDistinct(from: Path, to: Path)
    ensures forall p, q :: Under(p, from) && Under(q, from) && MovedName(p, from, to) == MovedName(q, from, to) ==> p == q
  {
    forall p, q | Under(p, from) && Under(q, from) && MovedName(p, from, to) == MovedName(q, from, to)
      ensures p == q
    {
      assert p[|from|..] == (to + p[|from|..])[|to|..];
      assert q[|from|..] == (to + q[|from|..])[|to|..];
      assert p == p[..|from|] + p[|from|..];
      assert q == q[..|from|] + q[|from|..];
    }
  }

  /**
   * `shutil.move(from, to)` as a rename: the entry at `from` and everything
   * below it reappear below `to`, replacing whatever was at `to`.
   */
  function Moved(fs: Fs, from: Path, to: Path): (r: Fs)
    ensures forall p :: p in fs && !Under(p, from) && !Under(p, to) ==> p in r && r[p] == fs[p]
    ensures forall p {:trigger MovedName(p, from, to)} :: p in fs && Under(p, from) ==>
      MovedName(p, from, to) in r && r[MovedName(p, from, to)] == fs[p] && Under(MovedName(p, from, to), to)
    ensures forall p {:trigger p in r} :: p in r && !Under(p, to) ==> p in fs && !Under(p, from) && r[p] == fs[p]
  {
    MovedKeysDistinct(from, to);
    var kept := map p | p in fs && !Under(p, from) && !Under(p, to) :: fs[p];
    var moved := map p | p in fs && Under(p, from) :: MovedName(p, from, to) := fs[p];
    assert forall p :: p in fs && Under(p, from) ==> Under(MovedName(p, from, to), to);
    kept + moved
  }

  /** Whatever `shutil.move(from, to)` leaves at or below `to` came from at or below `from`. */
  lemma MovedOrigin(fs: Fs, from: Path, to: Path, p: Path)
    requires p in Moved(fs, from, to) && Under(p, to)
    ensures var q := from + p[|to|..];
      Under(q, from) && q in fs && Moved(fs, from, to)[p] == fs[q]
  {
    var q :| q in fs && Under(q, from) && MovedName(q, from, to) == p;
    assert p[|to|..] == q[|from|..];
    assert q == from + q[|from|..];
  }

  /** The paths `dir` and all its ancestors. */
  function Ancestors(dir: Path): (r: set<Path>)
    ensures forall p :: p in r <==> Under(dir, p)
  {
    set k | 0 <= k <= |dir| :: dir[..k]
  }

  /** `os.makedirs(dir)`: every missing ancestor of `dir`, and `dir`, becomes a directory. */
  function WithDirs(fs: Fs, dir: Path): (r: Fs)
    ensures dir in r
    ensures forall p :: p in fs ==> p in r && r[p] == fs[p]
    ensures forall p :: p in r && p !in fs ==> r[p] == Dir && Under(dir, p)
  {
    fs + map p | p in Ancestors(dir) && p !in fs :: Dir
  }
}
