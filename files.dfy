/**
 * The part of the operating system the commands work on: the filesystem as a
 * map from path to entry, and the POSIX calls of `os` and `shutil` the
 * commands make on it, each as a function from the old filesystem to the new
 * one or to the errno it raises as `OSError`.
 */
module Files {
  import opened Wrappers

  /** A byte, as a Python 2 `str` holds it. */
  type Byte = b: int | 0 <= b < 256
  type Bytes = seq<Byte>

  /**
   * A path as its list of components: `os.path.join(p, name)` is `p + [name]`
   * and an absolute path starts with the empty component.
   */
  type Path = seq<string>

  datatype Entry = File(data: Bytes) | Dir

  /** Every existing path and what is there. */
  type FileSystem = map<Path, Entry>

  /** The errno values the modelled calls raise. */
  datatype OsError =
    | NoEntry          // ENOENT
    | AlreadyExists    // EEXIST
    | NotADirectory    // ENOTDIR
    | IsADirectory     // EISDIR
    | NotEmpty         // ENOTEMPTY
    | InvalidArgument  // EINVAL

  function Join(p: Path, name: string): (r: Path)
    ensures |r| == |p| + 1 && p < r && r[|p|] == name
  {
    p + [name]
  }

  /** How `os.path.join` writes a path: its parts separated by `/`, so that an absolute path starts with `/`. */
  function PathText(p: Path): string {
    if p == [] then "" else if |p| == 1 then p[0] else PathText(p[..|p| - 1]) + "/" + p[|p| - 1]
  }

  predicate IsDir(fs: FileSystem, p: Path) { p in fs && fs[p].Dir? }

  predicate IsFile(fs: FileSystem, p: Path) { p in fs && fs[p].File? }

  /** Two prefixes of one path are prefixes of each other. */
  lemma PrefixesComparable(a: Path, b: Path, q: Path)
    requires a <= q && b <= q
    ensures a <= b || b <= a
  {
    if |a| <= |b| {
      assert b[..|a|] == q[..|a|];
    } else {
      assert a[..|b|] == q[..|b|];
    }
  }

  /** The names `os.listdir(d)` returns: the first component below `d` of everything below it. */
  function ListDir(fs: FileSystem, d: Path): (names: set<string>)
    ensures forall p :: p in fs && d < p ==> p[|d|] in names
    ensures forall n :: n in names ==> exists p :: p in fs && d < p && p[|d|] == n
  {
    set p | p in fs && d < p :: p[|d|]
  }

  /** `shutil.rmtree(root)`: `root` and everything below it disappear, nothing else changes. */
  function RemoveTree(fs: FileSystem, root: Path): (r: FileSystem)
    ensures forall p :: p in r <==> p in fs && !(root <= p)
    ensures forall p :: p in r ==> r[p] == fs[p]
  {
    map p | p in fs && !(root <= p) :: fs[p]
  }

  /** Where `p`, inside the tree at `frm`, lands when that tree is moved to `to`. */
  function Rebase(p: Path, frm: Path, to: Path): (q: Path)
    requires frm <= p
    ensures to <= q && |q| == |to| + |p| - |frm| && q[|to|..] == p[|frm|..]
  {
    to + p[|frm|..]
  }

  lemma RebaseInjective(frm: Path, to: Path)
    ensures forall p, p' :: frm <= p && frm <= p' && Rebase(p, frm, to) == Rebase(p', frm, to) ==> p == p'
  {
    forall p, p' | frm <= p && frm <= p' && Rebase(p, frm, to) == Rebase(p', frm, to)
      ensures p == p'
    {
      assert p[|frm|..] == Rebase(p, frm, to)[|to|..] == p'[|frm|..];
      assert p == p[..|frm|] + p[|frm|..];
      assert p' == p'[..|frm|] + p'[|frm|..];
    }
  }

  /** The tree at `frm` relocated to `to`, replacing whatever tree was at `to`. */
  function MoveTree(fs: FileSystem, frm: Path, to: Path): (r: FileSystem)
    requires !(frm <= to) && !(to <= frm)
    ensures forall p :: p in fs && frm <= p ==> Rebase(p, frm, to) in r && r[Rebase(p, frm, to)] == fs[p]
    ensures forall q :: q in fs && !(frm <= q) && !(to <= q) ==> q in r && r[q] == fs[q]
    ensures forall q :: q in r ==> !(frm <= q)
    ensures forall q :: q in r && !(to <= q) ==> q in fs && r[q] == fs[q]
  {
    RebaseInjective(frm, to);
    var kept := map p | p in fs && !(frm <= p) && !(to <= p) :: fs[p];
    var moved := map p | p in fs && frm <= p :: Rebase(p, frm, to) := fs[p];
    var r := kept + moved;
    forall q | q in r ensures !(frm <= q) {
      if q in moved && frm <= q {
        PrefixesComparable(frm, to, q);
      }
    }
    r
  }

  /** `os.rename(frm, to)` as POSIX defines it. */
  function Rename(fs: FileSystem, frm: Path, to: Path): (r: Result<FileSystem, OsError>)
    ensures r.Success? ==> frm in fs
    ensures r.Success? && frm == to ==> r.value == fs
    ensures r.Success? && frm != to ==> !(frm <= to) && !(to <= frm) && r.value == MoveTree(fs, frm, to)
  {
    if frm !in fs then Failure(NoEntry)
    else if frm == to then Success(fs)
    else if frm <= to || to <= frm then Failure(InvalidArgument)
    else if to in fs && fs[frm].File? && fs[to].Dir? then Failure(IsADirectory)
    else if to in fs && fs[frm].Dir? && fs[to].File? then Failure(NotADirectory)
    else if to in fs && fs[to].Dir? && ListDir(fs, to) != {} then Failure(NotEmpty)
    else Success(MoveTree(fs, frm, to))
  }

  /** After a successful rename, the tree that was at `frm` is found at `to`. */
  lemma RenamedTree(fs: FileSystem, frm: Path, to: Path, r: FileSystem)
    requires Rename(fs, frm, to) == Success(r)
    ensures to in r
    ensures forall p :: p in fs && frm <= p ==> Rebase(p, frm, to) in r && r[Rebase(p, frm, to)] == fs[p]
  {
    if frm == to {
      forall p | p in fs && frm <= p ensures Rebase(p, frm, to) == p {
        assert p == p[..|frm|] + p[|frm|..];
      }
    } else {
      assert Rebase(frm, frm, to) == to;
    }
  }

  /** `os.remove(p)`. */
  function Remove(fs: FileSystem, p: Path): (r: Result<FileSystem, OsError>)
    ensures r.Success? <==> IsFile(fs, p)
    ensures r.Success? ==> r.value == fs - {p}
  {
    if p !in fs then Failure(NoEntry)
    else if fs[p].Dir? then Failure(IsADirectory)
    else Success(fs - {p})
  }

  /** `os.rmdir(p)`: only an empty directory can be removed. */
  function Rmdir(fs: FileSystem, p: Path): (r: Result<FileSystem, OsError>)
    ensures r.Success? <==> IsDir(fs, p) && ListDir(fs, p) == {}
    ensures r.Success? ==> r.value == fs - {p}
  {
    if p !in fs then Failure(NoEntry)
    else if fs[p].File? then Failure(NotADirectory)
    else if ListDir(fs, p) != {} then Failure(NotEmpty)
    else Success(fs - {p})
  }

  /** The non-empty prefixes of `p`: `p` and the directories above it. */
  function Prefixes(p: Path): (ps: set<Path>)
    ensures forall q :: q in ps <==> q <= p && q != []
  {
    var ps := set i | 1 <= i <= |p| :: p[..i];
    forall q | q <= p && q != [] ensures q in ps {
      assert q == p[..|q|];
    }
    ps
  }

  /** `os.makedirs(p)`: creates `p` and every missing directory above it. */
  function MakeDirs(fs: FileSystem, p: Path): (r: Result<FileSystem, OsError>)
    ensures r.Success? <==> p != [] && p !in fs && forall q :: q in Prefixes(p) ==> !IsFile(fs, q)
    ensures r.Success? ==> r.value == fs + map q | q in Prefixes(p) && q !in fs :: Dir
    ensures p != [] && p in fs ==> r == Failure(AlreadyExists)
  {
    if p == [] then Failure(NoEntry)
    else if p in fs then Failure(AlreadyExists)
    else if exists q :: q in Prefixes(p) && IsFile(fs, q) then Failure(NotADirectory)
    else Success(fs + map q | q in Prefixes(p) && q !in fs :: Dir)
  }

  /** `tarfile.extractall(dst)`: each entry of the archive, a tree given relative to `dst`, is written below `dst`. */
  function Graft(fs: FileSystem, dst: Path, entries: map<Path, Entry>): (r: FileSystem)
    ensures forall q :: q in r <==> q in fs || (dst <= q && q[|dst|..] in entries)
    ensures forall q :: q in r ==> r[q] == if dst <= q && q[|dst|..] in entries then entries[q[|dst|..]] else fs[q]
  {
    forall rel, rel' | dst + rel == dst + rel' ensures rel == rel' {
      assert rel == (dst + rel)[|dst|..];
    }
    var added := map rel | rel in entries :: dst + rel := entries[rel];
    forall q | dst <= q ensures q == dst + q[|dst|..] {
      assert q == q[..|dst|] + q[|dst|..];
    }
    fs + added
  }
}
