/**
 * The mach commands of bootstrap_commands.py: `wipe-all`, `bootstrap-maven`,
 * `bootstrap-m2repo`, `bootstrap-git` and `bootstrap`. Each decides, from what
 * exists and from `--force`, whether to leave an asset alone or to wipe and
 * reinstall it.
 */
module BootstrapCommands {
  import opened Wrappers
  import opened Files
  import opened Host
  import opened CommandBase
  import opened Fetcher

  // ------------------------------------------------------------ wiping

  /** `if path.isdir(dir): shutil.rmtree(dir)`. */
  function Wipe(fs: FileSystem, dir: Path): (r: FileSystem)
    ensures forall q :: q in r <==> q in fs && !(IsDir(fs, dir) && dir <= q)
    ensures forall q :: q in r ==> r[q] == fs[q]
  {
    if IsDir(fs, dir) then RemoveTree(fs, dir) else fs
  }

  /**
   * After `wipe-all` neither the shared directory nor the git directory is
   * there (unless one of them was a plain file, which `wipe-all` leaves), and
   * only what was below one of them has gone.
   */
  lemma WipeAllClears(fs: FileSystem, shared: Path, git: Path)
    ensures var r := Wipe(Wipe(fs, shared), git);
      !IsDir(r, shared) && !IsDir(r, git) &&
      (!IsFile(fs, shared) ==> shared !in r) && (!IsFile(fs, git) ==> git !in r) &&
      (forall q :: q in r ==> q in fs && r[q] == fs[q]) &&
      (forall q :: q in fs && !(IsDir(fs, shared) && shared <= q) && !(IsDir(fs, git) && git <= q) ==> q in r)
  {
  }

  /** `wipe-all`. */
  method WipeAll(s: Session)
    requires s.Ready()
    modifies s
    ensures s.fs == Wipe(Wipe(old(s.fs), old(s.SharedDir())), old(s.GitDir()))
    ensures s.out == old(s.out) + ["Unbootstrapping done."]
    ensures s.ctx == old(s.ctx) && s.trace == old(s.trace) && s.err == old(s.err)
  {
    s.fs := Wipe(s.fs, s.SharedDir());
    s.fs := Wipe(s.fs, s.GitDir());
    s.out := s.out + ["Unbootstrapping done."];
  }

  // ------------------------------------------------------------ bootstrap-git

  const CloneBase := "https://github.com/mozilla/"

  /** The `git clone` of one repository, run in the git directory. */
  function CloneEvent(name: string, gitDir: Path, env: map<string, string>): Event {
    Run(["git", "clone", CloneBase + name], gitDir, env)
  }

  function CloneEvents(names: seq<string>, gitDir: Path, env: map<string, string>): seq<Event> {
    seq(|names|, i requires 0 <= i < |names| => CloneEvent(names[i], gitDir, env))
  }

  lemma CloneEventsSnoc(names: seq<string>, name: string, gitDir: Path, env: map<string, string>)
    ensures CloneEvents(names + [name], gitDir, env) == CloneEvents(names, gitDir, env) + [CloneEvent(name, gitDir, env)]
  {
    assert CloneEvents(names + [name], gitDir, env) == CloneEvents(names, gitDir, env) + [CloneEvent(name, gitDir, env)];
  }

  /** A repository is left alone when `--force` is not given and its directory exists. */
  predicate Skipped(fs: FileSystem, gitDir: Path, name: string, force: bool) {
    !force && Join(gitDir, name) in fs
  }

  /** The repositories `bootstrap-git` wipes and clones, in the order it processes them. */
  function ClonesNeeded(fs: FileSystem, gitDir: Path, names: seq<string>, force: bool): (clones: seq<string>)
    ensures |clones| <= |names|
  {
    if names == [] then []
    else
      var last := names[|names| - 1];
      ClonesNeeded(fs, gitDir, names[..|names| - 1], force) + (if Skipped(fs, gitDir, last, force) then [] else [last])
  }

  /** A repository is cloned exactly when it is asked for and not left alone. */
  lemma {:induction false} ClonesNeededMembers(fs: FileSystem, gitDir: Path, names: seq<string>, force: bool)
    ensures forall r :: r in ClonesNeeded(fs, gitDir, names, force) <==> r in names && !Skipped(fs, gitDir, r, force)
  {
    if names != [] {
      var init, last := names[..|names| - 1], names[|names| - 1];
      ClonesNeededMembers(fs, gitDir, init, force);
      assert names == init + [last];
    }
  }

  /** With `--force` every repository is cloned again, in catalogue order. */
  lemma {:induction false} ForceClonesAll(fs: FileSystem, gitDir: Path, names: seq<string>)
    ensures ClonesNeeded(fs, gitDir, names, true) == names
  {
    if names != [] {
      ForceClonesAll(fs, gitDir, names[..|names| - 1]);
      assert names[..|names| - 1] + [names[|names| - 1]] == names;
    }
  }

  /** Without `--force`, when every repository directory exists, nothing is cloned. */
  lemma {:induction false} NothingMissingNothingCloned(fs: FileSystem, gitDir: Path, names: seq<string>)
    requires forall r :: r in names ==> Join(gitDir, r) in fs
    ensures ClonesNeeded(fs, gitDir, names, false) == []
  {
    if names != [] {
      var init, last := names[..|names| - 1], names[|names| - 1];
      assert forall r :: r in init ==> r in names;
      NothingMissingNothingCloned(fs, gitDir, init);
    }
  }

  /** The wipe and `os.makedirs` that make room for one clone. */
  function Prepare(fs: FileSystem, repoDir: Path): Result<FileSystem, OsError> {
    MakeDirs(Wipe(fs, repoDir), repoDir)
  }

  /** The effect on the filesystem of preparing each repository of `names` in turn; the first failure stops it. */
  function PrepareAll(fs: FileSystem, gitDir: Path, names: seq<string>): Result<FileSystem, OsError> {
    if names == [] then Success(fs)
    else
      match PrepareAll(fs, gitDir, names[..|names| - 1])
      case Failure(e) => Failure(e)
      case Success(fs') => Prepare(fs', Join(gitDir, names[|names| - 1]))
  }

  /** No file stands where a directory above the repository directories has to be. */
  predicate RoomAbove(fs: FileSystem, gitDir: Path) {
    forall q :: q in Prefixes(gitDir) ==> !IsFile(fs, q)
  }

  /** Nothing stands in the way of preparing the repositories of `names`. */
  predicate Unblocked(fs: FileSystem, gitDir: Path, names: seq<string>) {
    names == [] || (RoomAbove(fs, gitDir) && forall n :: n in names ==> !IsFile(fs, Join(gitDir, n)))
  }

  /** `q` lies in the directory of one of the repositories `names`. */
  predicate InRepo(q: Path, gitDir: Path, names: seq<string>) {
    gitDir < q && q[|gitDir|] in names
  }

  /**
   * `after` is `before` with each directory of `names` emptied (or made),
   * possibly with new directories above them, and nothing else changed. A
   * directory that was missing is made over whatever stood below it without
   * a parent (which a real filesystem never has); one that existed is emptied.
   */
  ghost predicate Prepared(before: FileSystem, after: FileSystem, gitDir: Path, names: seq<string>) {
    (forall n :: n in names ==> IsDir(after, Join(gitDir, n))) &&
    (forall n, q :: n in names && q in after && Join(gitDir, n) < q ==>
       Join(gitDir, n) !in before && q in before && after[q] == before[q]) &&
    (forall q :: q in before && !InRepo(q, gitDir, names) ==> q in after && after[q] == before[q]) &&
    (forall q :: q in after && !InRepo(q, gitDir, names) ==>
       (q in before && after[q] == before[q]) || (q <= gitDir && after[q] == Dir))
  }

  /** A prefix of `dir/name` is `dir/name` itself or a prefix of `dir`. */
  lemma PrefixOfChild(q: Path, dir: Path, name: string)
    ensures q <= Join(dir, name) ==> q == Join(dir, name) || q <= dir
  {
    if q <= Join(dir, name) && |q| <= |dir| {
      assert q == Join(dir, name)[..|q|] == dir[..|q|];
    }
  }

  /**
   * What preparing the repositories of `names` does: it fails exactly when
   * a file stands in the way of one of the directories, and otherwise leaves
   * each of them an empty directory, adds only directories above them and
   * keeps everything outside them.
   */
  lemma {:induction false} PrepareAllEffect(fs: FileSystem, gitDir: Path, names: seq<string>)
    ensures PrepareAll(fs, gitDir, names).Success? <==> Unblocked(fs, gitDir, names)
    ensures PrepareAll(fs, gitDir, names).Success? ==> Prepared(fs, PrepareAll(fs, gitDir, names).value, gitDir, names)
  {
    if names != [] {
      var init, last := names[..|names| - 1], names[|names| - 1];
      assert names == init + [last];
      PrepareAllEffect(fs, gitDir, init);
      PrepareAllStep(fs, gitDir, init, last);
    }
  }

  /** The induction step of `PrepareAllEffect`. */
  lemma PrepareAllStep(fs: FileSystem, gitDir: Path, init: seq<string>, last: string)
    requires PrepareAll(fs, gitDir, init).Success? <==> Unblocked(fs, gitDir, init)
    requires PrepareAll(fs, gitDir, init).Success? ==> Prepared(fs, PrepareAll(fs, gitDir, init).value, gitDir, init)
    ensures PrepareAll(fs, gitDir, init + [last]).Success? <==> Unblocked(fs, gitDir, init + [last])
    ensures PrepareAll(fs, gitDir, init + [last]).Success? ==>
      Prepared(fs, PrepareAll(fs, gitDir, init + [last]).value, gitDir, init + [last])
  {
    var pre := PrepareAll(fs, gitDir, init);
    if pre.Success? {
      PrepareAllSnoc(fs, gitDir, init, last);
      PrepareStep(fs, pre.value, gitDir, init, last);
    } else {
      FailureStops(fs, gitDir, init, [last]);
      BlockedStaysBlocked(fs, gitDir, init, last);
    }
  }

  /** What blocks some of the repositories blocks them all. */
  lemma BlockedStaysBlocked(fs: FileSystem, gitDir: Path, init: seq<string>, last: string)
    requires !Unblocked(fs, gitDir, init)
    ensures !Unblocked(fs, gitDir, init + [last])
  {
    if RoomAbove(fs, gitDir) {
      var n :| n in init && IsFile(fs, Join(gitDir, n));
      assert n in init + [last];
    }
  }

  /** One more repository: `Prepared` and `Unblocked` extend to it. */
  lemma PrepareStep(fs: FileSystem, fs': FileSystem, gitDir: Path, init: seq<string>, last: string)
    requires init == [] ==> fs' == fs
    requires Unblocked(fs, gitDir, init) && Prepared(fs, fs', gitDir, init)
    ensures Prepare(fs', Join(gitDir, last)).Success? <==> Unblocked(fs, gitDir, init + [last])
    ensures Prepare(fs', Join(gitDir, last)).Success? ==> Prepared(fs, Prepare(fs', Join(gitDir, last)).value, gitDir, init + [last])
  {
    var d := Join(gitDir, last);
    var w := Wipe(fs', d);
    var names := init + [last];
    // `d` and what lies above it look the same in `w` as in `fs`
    forall q | q <= gitDir
      ensures q in w <==> q in fs'
      ensures IsFile(w, q) <==> IsFile(fs, q)
    {
      assert !(d <= q);
      assert !InRepo(q, gitDir, init);
    }
    assert IsFile(fs', d) <==> IsFile(fs, d) by {
      ChildPrefix(gitDir, last, d);
    }
    forall q | q in Prefixes(d) ensures q == d || q in Prefixes(gitDir) {
      PrefixOfChild(q, gitDir, last);
    }
    forall q | q in Prefixes(gitDir) ensures q in Prefixes(d) {
    }
    if Prepare(fs', d).Success? {
      PreparedStep(fs, fs', gitDir, init, last);
    }
  }

  lemma PreparedStep(fs: FileSystem, fs': FileSystem, gitDir: Path, init: seq<string>, last: string)
    requires Prepared(fs, fs', gitDir, init)
    requires Prepare(fs', Join(gitDir, last)).Success?
    ensures Prepared(fs, Prepare(fs', Join(gitDir, last)).value, gitDir, init + [last])
  {
    var d := Join(gitDir, last);
    var r := Prepare(fs', d).value;
    var names := init + [last];
    // `Prepare` keeps what is not below `d` and adds only `d` and directories above it
    forall q | q in fs' && !(d <= q) ensures q in r && r[q] == fs'[q] {
    }
    forall q | q in r
      ensures (q in fs' && r[q] == fs'[q] && (d <= q ==> d !in fs')) || ((q == d || q <= gitDir) && r[q] == Dir)
    {
      PrefixOfChild(q, gitDir, last);
    }
    forall n | n in names ensures IsDir(r, Join(gitDir, n)) {
      if n != last {
        assert !(d <= Join(gitDir, n));
      }
    }
    forall n, q | n in names && q in r && Join(gitDir, n) < q
      ensures Join(gitDir, n) !in fs && q in fs && r[q] == fs[q]
    {
      ChildPrefix(gitDir, n, q);
      PrefixOfChild(q, gitDir, last);
      if n !in init {
        assert d !in fs by {
          assert !InRepo(d, gitDir, init);
        }
        assert !InRepo(q, gitDir, init);
      }
    }
    forall q | q in fs && !InRepo(q, gitDir, names) ensures q in r && r[q] == fs[q] {
      ChildPrefix(gitDir, last, q);
    }
    forall q | q in r && !InRepo(q, gitDir, names)
      ensures (q in fs && r[q] == fs[q]) || (q <= gitDir && r[q] == Dir)
    {
      ChildPrefix(gitDir, last, q);
    }
  }

  /** Once preparing a repository fails, the rest of the list is never reached. */
  lemma {:induction false} FailureStops(fs: FileSystem, gitDir: Path, a: seq<string>, b: seq<string>)
    requires PrepareAll(fs, gitDir, a).Failure?
    ensures PrepareAll(fs, gitDir, a + b) == PrepareAll(fs, gitDir, a)
  {
    if b != [] {
      var init := b[..|b| - 1];
      assert (a + b)[..|a + b| - 1] == a + init && (a + b)[|a + b| - 1] == b[|b| - 1];
      FailureStops(fs, gitDir, a, init);
    } else {
      assert a + b == a;
    }
  }

  /** Deciding which repositories to clone goes repository by repository. */
  lemma {:induction false} ClonesAppend(fs: FileSystem, gitDir: Path, a: seq<string>, b: seq<string>, force: bool)
    ensures ClonesNeeded(fs, gitDir, a + b, force) == ClonesNeeded(fs, gitDir, a, force) + ClonesNeeded(fs, gitDir, b, force)
  {
    if b != [] {
      var init := b[..|b| - 1];
      assert (a + b)[..|a + b| - 1] == a + init && (a + b)[|a + b| - 1] == b[|b| - 1];
      ClonesAppend(fs, gitDir, a, init, force);
    } else {
      assert a + b == a;
    }
  }

  /** No name occurs twice. */
  predicate NoRepeats(names: seq<string>) {
    forall i, j :: 0 <= i < j < |names| ==> names[i] != names[j]
  }

  const GitTitle := "Bootstrapping git repositories"

  function PreparedLine(name: string): string {
    "Git repository " + name + " is already prepared."
  }

  function ForceLine(name: string): string {
    "Use |bootstrap-git " + name + " --force| to wipe, clone and prepare again."
  }

  const ForceHint := "Some repository " + "directories were already existing. " +
                     "You can use |bootstrap-git --force| " + "to also wipe, clone and prepare those."

  /** What `bootstrap-git` prints about one repository; `single` is `len(repos) == 1`. */
  function RepoLine(fs: FileSystem, gitDir: Path, name: string, force: bool, verbosity: int, single: bool): seq<string> {
    if Skipped(fs, gitDir, name, force) && ShowHelp(verbosity) then
      [PreparedLine(name)] + (if single then [ForceLine(name)] else [])
    else []
  }

  function RepoLines(fs: FileSystem, gitDir: Path, names: seq<string>, force: bool, verbosity: int, single: bool): seq<string> {
    if names == [] then []
    else
      RepoLines(fs, gitDir, names[..|names| - 1], force, verbosity, single) +
      RepoLine(fs, gitDir, names[|names| - 1], force, verbosity, single)
  }

  /** Some repository of `names` was left alone. */
  predicate AnySkipped(fs: FileSystem, gitDir: Path, names: seq<string>, force: bool) {
    exists n :: n in names && Skipped(fs, gitDir, n, force)
  }

  /** Everything `bootstrap-git` prints when it completes. */
  function GitOutput(fs: FileSystem, gitDir: Path, names: seq<string>, force: bool, verbosity: int): seq<string> {
    var single := |names| == 1;
    Header(verbosity, GitTitle) + RepoLines(fs, gitDir, names, force, verbosity, single) +
    (if !single && ShowHelp(verbosity) && AnySkipped(fs, gitDir, names, force) then [ForceHint] else []) +
    Footer(verbosity)
  }

  lemma {:induction false} RepoLinesNoHint(fs: FileSystem, gitDir: Path, names: seq<string>, force: bool, verbosity: int, single: bool)
    ensures ForceHint !in RepoLines(fs, gitDir, names, force, verbosity, single)
  {
    if names != [] {
      RepoLinesNoHint(fs, gitDir, names[..|names| - 1], force, verbosity, single);
      var name := names[|names| - 1];
      assert ForceHint[0] == 'S';
      assert PreparedLine(name)[0] == 'G' && ForceLine(name)[0] == 'U';
    }
  }

  /**
   * The summary that suggests `--force` is printed exactly when more than one
   * repository was asked for, the verbosity is above 1 and at least one
   * repository was left alone.
   */
  lemma ForceHintShown(fs: FileSystem, gitDir: Path, names: seq<string>, force: bool, verbosity: int)
    ensures ForceHint in GitOutput(fs, gitDir, names, force, verbosity) <==>
      |names| > 1 && ShowHelp(verbosity) && AnySkipped(fs, gitDir, names, force)
  {
    RepoLinesNoHint(fs, gitDir, names, force, verbosity, |names| == 1);
    assert ForceHint[0] == 'S' && ForceHint != "";
    assert Rule()[0] == '*';
    assert TitleLine(GitTitle)[0] == '*';
  }

  /** A repository not yet prepared is still where it was: the skip decision can be read off the old filesystem. */
  lemma DecisionAgrees(fs0: FileSystem, gitDir: Path, clones: seq<string>, name: string)
    requires PrepareAll(fs0, gitDir, clones).Success? && name !in clones
    ensures Join(gitDir, name) in PrepareAll(fs0, gitDir, clones).value <==> Join(gitDir, name) in fs0
  {
    PrepareAllEffect(fs0, gitDir, clones);
    assert !InRepo(Join(gitDir, name), gitDir, clones);
  }

  /** One more step of `PrepareAll`. */
  lemma PrepareAllSnoc(fs0: FileSystem, gitDir: Path, clones: seq<string>, name: string)
    requires PrepareAll(fs0, gitDir, clones).Success?
    ensures PrepareAll(fs0, gitDir, clones + [name]) == Prepare(PrepareAll(fs0, gitDir, clones).value, Join(gitDir, name))
  {
    assert (clones + [name])[..|clones|] == clones;
  }

  /** A failure while preparing the repositories up to `names[i]` is a failure for the whole list. */
  lemma GitFailure(fs0: FileSystem, gitDir: Path, names: seq<string>, i: nat, force: bool)
    requires i < |names|
    requires PrepareAll(fs0, gitDir, ClonesNeeded(fs0, gitDir, names[..i + 1], force)).Failure?
    ensures !Unblocked(fs0, gitDir, ClonesNeeded(fs0, gitDir, names, force))
  {
    var a, b := names[..i + 1], names[i + 1..];
    assert names == a + b;
    var ca, cb := ClonesNeeded(fs0, gitDir, a, force), ClonesNeeded(fs0, gitDir, b, force);
    ClonesAppend(fs0, gitDir, a, b, force);
    FailureStops(fs0, gitDir, ca, cb);
    PrepareAllEffect(fs0, gitDir, ca + cb);
  }

  /** What the repository `name` adds to the repositories cloned so far. */
  function CloneStep(fs0: FileSystem, gitDir: Path, clones: seq<string>, name: string, force: bool): seq<string> {
    clones + (if Skipped(fs0, gitDir, name, force) then [] else [name])
  }

  /**
   * The body of `bootstrap-git`'s loop for one repository: left alone, or
   * wiped, made again with `os.makedirs` and cloned. Its effect on the
   * filesystem is the next step of `PrepareAll` from the filesystem `fs0`
   * the command started from.
   */
  method GitStep(s: Session, gitDir: Path, name: string, force: bool, verbosity: int, single: bool,
                 env: map<string, string>, showForce: bool, ghost fs0: FileSystem, ghost clones: seq<string>)
    returns (status: Status, showForce': bool)
    requires PrepareAll(fs0, gitDir, clones) == Success(s.fs) && name !in clones
    modifies s
    ensures s.ctx == old(s.ctx) && s.err == old(s.err)
    ensures showForce' == (showForce || (!single && Skipped(fs0, gitDir, name, force) && ShowHelp(verbosity)))
    ensures var next := PrepareAll(fs0, gitDir, CloneStep(fs0, gitDir, clones, name, force));
      (status.Ok? <==> next.Success?) &&
      (!status.Ok? ==> status.abort.OsFailure?) &&
      (status.Ok? ==>
        next.value == s.fs &&
        s.out == old(s.out) + RepoLine(fs0, gitDir, name, force, verbosity, single) &&
        s.trace == old(s.trace) + (if Skipped(fs0, gitDir, name, force) then [] else [CloneEvent(name, gitDir, env)]))
  {
    DecisionAgrees(fs0, gitDir, clones, name);
    PrepareAllSnoc(fs0, gitDir, clones, name);
    assert clones + [] == clones;
    if !force && Join(gitDir, name) in s.fs {
      showForce' := KeepPrepared(s, name, verbosity, single, showForce);
      return Ok, showForce';
    }
    showForce' := showForce;
    status := Reclone(s, gitDir, name, env);
  }

  /** The `if` branch of `bootstrap-git`'s loop: the repository is left alone and, when help is shown, said so. */
  method KeepPrepared(s: Session, name: string, verbosity: int, single: bool, showForce: bool) returns (showForce': bool)
    modifies s
    ensures s.fs == old(s.fs) && s.ctx == old(s.ctx) && s.err == old(s.err) && s.trace == old(s.trace)
    ensures showForce' == (showForce || (!single && ShowHelp(verbosity)))
    ensures s.out == old(s.out) + (if ShowHelp(verbosity) then [PreparedLine(name)] + (if single then [ForceLine(name)] else []) else [])
  {
    showForce' := showForce;
    if ShowHelp(verbosity) {
      showForce' := showForce || !single;
      s.out := s.out + [PreparedLine(name)];
      if single {
        s.out := s.out + [ForceLine(name)];
      }
    }
  }

  /** The `else` branch of `bootstrap-git`'s loop: wipe the repository's directory, make it again, clone into it. */
  method Reclone(s: Session, gitDir: Path, name: string, env: map<string, string>) returns (status: Status)
    modifies s
    ensures s.ctx == old(s.ctx) && s.err == old(s.err) && s.out == old(s.out)
    ensures var next := Prepare(old(s.fs), Join(gitDir, name));
      (status.Ok? <==> next.Success?) &&
      (!status.Ok? ==> status.abort.OsFailure?) &&
      (status.Ok? ==> s.fs == next.value && s.trace == old(s.trace) + [CloneEvent(name, gitDir, env)])
  {
    var repoDir := Join(gitDir, name);
    s.fs := Wipe(s.fs, repoDir);
    var r := MakeDirs(s.fs, repoDir);
    if r.Failure? {
      return Stopped(OsFailure(r.error));
    }
    s.fs := r.value;
    Call(s, ["git", "clone", CloneBase + name], gitDir, env, false);
    return Ok;
  }

  /** Preparing succeeds exactly when nothing is in the way. */
  lemma PrepareAllSucceeds(fs: FileSystem, gitDir: Path, names: seq<string>)
    ensures PrepareAll(fs, gitDir, names).Success? <==> Unblocked(fs, gitDir, names)
  {
    PrepareAllEffect(fs, gitDir, names);
  }

  /** No repository comes after itself in a list without repeats, so it is not among the clones before it. */
  lemma FreshName(fs0: FileSystem, gitDir: Path, names: seq<string>, i: nat, force: bool)
    requires NoRepeats(names) && i < |names|
    ensures names[i] !in ClonesNeeded(fs0, gitDir, names[..i], force)
  {
    ClonesNeededMembers(fs0, gitDir, names[..i], force);
    assert forall k :: 0 <= k < i ==> names[..i][k] != names[i];
  }

  /** The clones needed for one more repository. */
  lemma ClonesNeededSnoc(fs0: FileSystem, gitDir: Path, names: seq<string>, i: nat, force: bool)
    requires i < |names|
    ensures ClonesNeeded(fs0, gitDir, names[..i + 1], force) ==
      CloneStep(fs0, gitDir, ClonesNeeded(fs0, gitDir, names[..i], force), names[i], force)
  {
    assert names[..i + 1][..i] == names[..i];
  }

  /** What one more repository adds to the clones, the trace, the lines printed and the skip flag. */
  lemma CloneAllSnoc(fs0: FileSystem, gitDir: Path, names: seq<string>, i: nat, force: bool, verbosity: int,
                     single: bool, env: map<string, string>, out0: seq<string>, trace0: seq<Event>)
    requires i < |names|
    ensures var name, clones := names[i], ClonesNeeded(fs0, gitDir, names[..i], force);
      ClonesNeeded(fs0, gitDir, names[..i + 1], force) == CloneStep(fs0, gitDir, clones, name, force) &&
      out0 + RepoLines(fs0, gitDir, names[..i + 1], force, verbosity, single) ==
        out0 + RepoLines(fs0, gitDir, names[..i], force, verbosity, single) + RepoLine(fs0, gitDir, name, force, verbosity, single) &&
      trace0 + CloneEvents(CloneStep(fs0, gitDir, clones, name, force), gitDir, env) ==
        trace0 + CloneEvents(clones, gitDir, env) + (if Skipped(fs0, gitDir, name, force) then [] else [CloneEvent(name, gitDir, env)]) &&
      (AnySkipped(fs0, gitDir, names[..i + 1], force) <==> AnySkipped(fs0, gitDir, names[..i], force) || Skipped(fs0, gitDir, name, force))
  {
    var name, clones := names[i], ClonesNeeded(fs0, gitDir, names[..i], force);
    assert names[..i + 1][..i] == names[..i] && names[..i + 1][i] == name;
    assert names[..i + 1] == names[..i] + [name];
    if Skipped(fs0, gitDir, name, force) {
      assert clones + [] == clones;
    } else {
      CloneEventsSnoc(clones, name, gitDir, env);
    }
  }

  /** What `bootstrap-git` has done once it has gone through the first `i` repositories of `names`. */
  ghost predicate Progress(fs0: FileSystem, trace0: seq<Event>, out0: seq<string>, gitDir: Path, names: seq<string>,
                           i: nat, force: bool, verbosity: int, env: map<string, string>,
                           fs: FileSystem, trace: seq<Event>, out: seq<string>, showForce: bool)
  {
    i <= |names| &&
    var clones := ClonesNeeded(fs0, gitDir, names[..i], force);
    PrepareAll(fs0, gitDir, clones) == Success(fs) &&
    trace == trace0 + CloneEvents(clones, gitDir, env) &&
    out == out0 + RepoLines(fs0, gitDir, names[..i], force, verbosity, |names| == 1) &&
    showForce == (|names| != 1 && ShowHelp(verbosity) && AnySkipped(fs0, gitDir, names[..i], force))
  }

  /** A step of `GitStep` that succeeds takes `Progress` from `i` repositories to `i + 1`. */
  lemma ProgressStep(fs0: FileSystem, trace0: seq<Event>, out0: seq<string>, gitDir: Path, names: seq<string>,
                     i: nat, force: bool, verbosity: int, env: map<string, string>,
                     fs: FileSystem, trace: seq<Event>, out: seq<string>, showForce: bool,
                     fs': FileSystem, trace': seq<Event>, out': seq<string>, showForce': bool)
    requires i < |names|
    requires Progress(fs0, trace0, out0, gitDir, names, i, force, verbosity, env, fs, trace, out, showForce)
    requires var name, clones := names[i], ClonesNeeded(fs0, gitDir, names[..i], force);
      PrepareAll(fs0, gitDir, CloneStep(fs0, gitDir, clones, name, force)) == Success(fs') &&
      out' == out + RepoLine(fs0, gitDir, name, force, verbosity, |names| == 1) &&
      trace' == trace + (if Skipped(fs0, gitDir, name, force) then [] else [CloneEvent(name, gitDir, env)]) &&
      showForce' == (showForce || (|names| != 1 && Skipped(fs0, gitDir, name, force) && ShowHelp(verbosity)))
    ensures Progress(fs0, trace0, out0, gitDir, names, i + 1, force, verbosity, env, fs', trace', out', showForce')
  {
    CloneAllSnoc(fs0, gitDir, names, i, force, verbosity, |names| == 1, env, out0, trace0);
  }

  /** The `for repo in repos` loop of `bootstrap-git`, with `show_force` as it leaves it. */
  method CloneAll(s: Session, gitDir: Path, names: seq<string>, force: bool, verbosity: int, env: map<string, string>)
    returns (status: Status, showForce: bool)
    requires NoRepeats(names)
    modifies s
    ensures s.ctx == old(s.ctx) && s.err == old(s.err)
    ensures var clones := ClonesNeeded(old(s.fs), gitDir, names, force);
      (status.Ok? <==> Unblocked(old(s.fs), gitDir, clones)) &&
      (!status.Ok? ==> status.abort.OsFailure?) &&
      (status.Ok? ==>
        PrepareAll(old(s.fs), gitDir, clones) == Success(s.fs) &&
        s.trace == old(s.trace) + CloneEvents(clones, gitDir, env) &&
        s.out == old(s.out) + RepoLines(old(s.fs), gitDir, names, force, verbosity, |names| == 1) &&
        showForce == (|names| != 1 && ShowHelp(verbosity) && AnySkipped(old(s.fs), gitDir, names, force)))
  {
    ghost var fs0, trace0, out0 := s.fs, s.trace, s.out;
    var single := |names| == 1;
    showForce := false;
    assert CloneEvents([], gitDir, env) == [];
    var i := 0;
    while i < |names|
      invariant Progress(fs0, trace0, out0, gitDir, names, i, force, verbosity, env, s.fs, s.trace, s.out, showForce)
      invariant s.ctx == old(s.ctx) && s.err == old(s.err)
    {
      var name := names[i];
      ghost var clones := ClonesNeeded(fs0, gitDir, names[..i], force);
      FreshName(fs0, gitDir, names, i, force);
      ghost var fs1, trace1, out1, showForce1 := s.fs, s.trace, s.out, showForce;
      status, showForce := GitStep(s, gitDir, name, force, verbosity, single, env, showForce, fs0, clones);
      if !status.Ok? {
        ClonesNeededSnoc(fs0, gitDir, names, i, force);
        GitFailure(fs0, gitDir, names, i, force);
        return;
      }
      ProgressStep(fs0, trace0, out0, gitDir, names, i, force, verbosity, env,
                   fs1, trace1, out1, showForce1, s.fs, s.trace, s.out, showForce);
      i := i + 1;
    }
    assert names[..i] == names;
    PrepareAllSucceeds(fs0, gitDir, ClonesNeeded(fs0, gitDir, names, force));
    status := Ok;
  }

  /**
   * `bootstrap-git repository`: `"all"` stands for the whole catalogue. Each
   * repository whose directory is missing (every one, with `--force`) is
   * wiped, made again and cloned, in order; the others are left alone.
   */
  method BootstrapGit(s: Session, repository: string, force: bool, verbosity: int) returns (status: Status)
    requires s.Ready()
    modifies s
    ensures s.ctx == old(s.ctx) && s.err == old(s.err)
    ensures var names := Selected(repository, old(s.ctx).repos.value);
      var gitDir := old(s.ctx).gitDir.value;
      var clones := ClonesNeeded(old(s.fs), gitDir, names, force);
      (status.Ok? <==> Unblocked(old(s.fs), gitDir, clones)) &&
      (!status.Ok? ==> status.abort.OsFailure?) &&
      (status.Ok? ==>
        PrepareAll(old(s.fs), gitDir, clones) == Success(s.fs) &&
        s.trace == old(s.trace) + CloneEvents(clones, gitDir, BuildEnv(s.environ)) &&
        s.out == old(s.out) + GitOutput(old(s.fs), gitDir, names, force, verbosity))
  {
    var gitDir := s.ctx.gitDir.value;
    var names := Selected(repository, s.ctx.repos.value);
    assert NoRepeats(names);
    ghost var fs0, out0 := s.fs, s.out;
    var header := Header(verbosity, GitTitle);
    s.out := s.out + header;
    var showForce;
    status, showForce := CloneAll(s, gitDir, names, force, verbosity, BuildEnv(s.environ));
    if !status.Ok? {
      return;
    }
    ghost var lines := RepoLines(fs0, gitDir, names, force, verbosity, |names| == 1);
    assert s.out == out0 + header + lines;
    GitClosing(s, showForce, verbosity);
    GitOutputParts(out0, fs0, gitDir, names, force, verbosity, showForce && ShowHelp(verbosity));
  }

  /** The end of `bootstrap-git`: the `--force` hint when a repository was left alone, then the closing rule. */
  method GitClosing(s: Session, showForce: bool, verbosity: int)
    modifies s
    ensures s.fs == old(s.fs) && s.ctx == old(s.ctx) && s.err == old(s.err) && s.trace == old(s.trace)
    ensures s.out == old(s.out) + (if showForce && ShowHelp(verbosity) then [ForceHint] else []) + Footer(verbosity)
  {
    if showForce && ShowHelp(verbosity) {
      s.out := s.out + [ForceHint];
    } else {
      assert s.out + [] == s.out;
    }
    s.out := s.out + Footer(verbosity);
  }

  lemma GitOutputParts(out0: seq<string>, fs: FileSystem, gitDir: Path, names: seq<string>, force: bool, verbosity: int, hint: bool)
    requires hint == (|names| != 1 && ShowHelp(verbosity) && AnySkipped(fs, gitDir, names, force))
    ensures out0 + GitOutput(fs, gitDir, names, force, verbosity) ==
      out0 + Header(verbosity, GitTitle) + RepoLines(fs, gitDir, names, force, verbosity, |names| == 1)
        + (if hint then [ForceHint] else []) + Footer(verbosity)
  {
    var h, l := Header(verbosity, GitTitle), RepoLines(fs, gitDir, names, force, verbosity, |names| == 1);
    var x, f := if hint then [ForceHint] else [], Footer(verbosity);
    AppendAssoc(out0, h, l);
    AppendAssoc(out0, h + l, x);
    AppendAssoc(out0, h + l + x, f);
  }

  // ------------------------------------------------------------ bootstrap-maven

  const MavenUrl := "http://www-eu.apache.org/" + "dist/maven/maven-3/3.3.9/binaries/apache-maven-3.3.9-bin.tar.gz"
  const MavenFolder := "apache-maven-3.3.9"
  const MavenTitle := "Bootstrapping Maven"
  const MavenSkipLine := "Maven already downloaded. " + "Use |bootstrap-maven --force| to download again."
  const MavenExtracting := "Extracting Maven..."

  /** Where the Maven archive is downloaded to. */
  function MavenArchive(shared: Path): Path { Join(shared, "maven.tar.gz") }

  /** The filesystem once an old Maven directory is wiped and the shared directory exists. */
  function MavenStage(fs: FileSystem, shared: Path, mavenDir: Path): Result<FileSystem, OsError> {
    MkdirP(Wipe(fs, mavenDir), shared)
  }

  /** `dir` holds, entry by entry, the tree the archive `entries` has under its top folder `folder`. */
  ghost predicate HoldsFolder(fs: FileSystem, dir: Path, entries: map<Path, Entry>, folder: string) {
    forall rel :: rel in entries && |rel| > 0 && rel[0] == folder ==>
      dir + rel[1..] in fs && fs[dir + rel[1..]] == entries[rel]
  }

  /**
   * Extracting the Maven archive into the shared directory and renaming its
   * top folder puts that folder's tree at the Maven directory.
   */
  lemma UnpackedFolder(fs: FileSystem, shared: Path, entries: map<Path, Entry>, mavenDir: Path, fs': FileSystem)
    requires Rename(Graft(fs, shared, entries) - {MavenArchive(shared)}, Join(shared, MavenFolder), mavenDir) == Success(fs')
    ensures mavenDir in fs' && HoldsFolder(fs', mavenDir, entries, MavenFolder)
  {
    var g := Graft(fs, shared, entries) - {MavenArchive(shared)};
    RenamedTree(g, Join(shared, MavenFolder), mavenDir, fs');
    forall rel | rel in entries && |rel| > 0 && rel[0] == MavenFolder
      ensures mavenDir + rel[1..] in fs' && fs'[mavenDir + rel[1..]] == entries[rel]
    {
      FolderEntry(fs, shared, entries, rel);
      RebaseFolder(shared, rel, mavenDir);
    }
  }

  /** An entry of the archive's top folder is extracted below the shared directory. */
  lemma FolderEntry(fs: FileSystem, shared: Path, entries: map<Path, Entry>, rel: Path)
    requires rel in entries && |rel| > 0 && rel[0] == MavenFolder
    ensures var g := Graft(fs, shared, entries) - {MavenArchive(shared)};
      shared + rel in g && g[shared + rel] == entries[rel]
  {
    var p := shared + rel;
    assert p[|shared|..] == rel;
    assert p[|shared|] == MavenFolder != "maven.tar.gz";
  }

  /** Renaming the top folder to `to` moves `shared/<folder>/rest` to `to/rest`. */
  lemma RebaseFolder(shared: Path, rel: Path, to: Path)
    requires |rel| > 0 && rel[0] == MavenFolder
    ensures Join(shared, MavenFolder) <= shared + rel &&
      Rebase(shared + rel, Join(shared, MavenFolder), to) == to + rel[1..]
  {
    var p := shared + rel;
    assert p[|shared| + 1..] == rel[1..];
  }

  /** `extract(tgz_file, shared_dir)` and the `os.rename` of the extracted folder to the Maven directory. */
  method MavenUnpack(s: Session, shared: Path, mavenDir: Path, ghost data: Bytes) returns (status: Status)
    requires MavenArchive(shared) in s.fs && s.fs[MavenArchive(shared)] == File(data)
    modifies s
    ensures s.ctx == old(s.ctx) && s.trace == old(s.trace) && s.out == old(s.out) && s.err == old(s.err)
    ensures s.untar(data).None? ==> status == Stopped(ReadError) && s.fs == old(s.fs)
    ensures status.Ok? ==>
      s.untar(data).Some? && mavenDir in s.fs && HoldsFolder(s.fs, mavenDir, s.untar(data).value, MavenFolder)
  {
    ghost var fs0 := s.fs;
    status := Extract(s, MavenArchive(shared), shared, None);
    if !status.Ok? {
      return;
    }
    match Rename(s.fs, Join(shared, MavenFolder), mavenDir) {
      case Failure(e) =>
        status := Stopped(OsFailure(e));
      case Success(fs') =>
        UnpackedFolder(fs0, shared, s.untar(data).value, mavenDir, fs');
        s.fs := fs';
    }
  }

  /**
   * The `else` branch of `bootstrap-maven`: wipe the Maven directory, make
   * the shared directory, download the archive and unpack it.
   */
  method MavenInstall(s: Session, shared: Path, mavenDir: Path) returns (status: Status)
    modifies s
    ensures s.ctx == old(s.ctx) && s.err == old(s.err)
    ensures var stage := MavenStage(old(s.fs), shared, mavenDir);
      stage.Failure? ==> status == Stopped(OsFailure(stage.error)) && s.trace == old(s.trace) && s.out == old(s.out)
    ensures var stage := MavenStage(old(s.fs), shared, mavenDir);
      stage.Success? && IsDir(stage.value, PartPath(MavenArchive(shared))) ==>
        status == Stopped(OsFailure(IsADirectory)) && s.trace == old(s.trace) && s.out == old(s.out)
    ensures var stage := MavenStage(old(s.fs), shared, mavenDir);
      stage.Success? && !IsDir(stage.value, PartPath(MavenArchive(shared))) ==>
        var start := |PartData(stage.value, MavenArchive(shared))|;
        var reply := s.net(DownloadRequest(MavenUrl, start));
        s.trace == old(s.trace) + [Fetch(DownloadRequest(MavenUrl, start))] &&
        (!Completes(reply) ==> status == DownloadStatus(reply) && s.out == old(s.out) + DownloadOutput("Maven", MavenUrl, start, reply))
    ensures var stage := MavenStage(old(s.fs), shared, mavenDir);
      status.Ok? ==>
        stage.Success? &&
        var start := |PartData(stage.value, MavenArchive(shared))|;
        var reply := s.net(DownloadRequest(MavenUrl, start));
        Completes(reply) &&
        var entries := s.untar(PartData(stage.value, MavenArchive(shared)) + reply.body);
        s.out == old(s.out) + DownloadOutput("Maven", MavenUrl, start, reply) + [MavenExtracting] &&
        entries.Some? && mavenDir in s.fs && HoldsFolder(s.fs, mavenDir, entries.value, MavenFolder)
  {
    s.fs := Wipe(s.fs, mavenDir);
    var r := MkdirP(s.fs, shared);
    if r.Failure? {
      return Stopped(OsFailure(r.error));
    }
    s.fs := r.value;
    ghost var fs1 := s.fs;
    var tgz := MavenArchive(shared);
    status := DownloadFile(s, "Maven", MavenUrl, tgz);
    if !status.Ok? {
      return;
    }
    s.out := s.out + [MavenExtracting];
    ghost var reply := s.net(DownloadRequest(MavenUrl, |PartData(fs1, tgz)|));
    status := MavenUnpack(s, shared, mavenDir, PartData(fs1, tgz) + reply.body);
  }

  /**
   * `bootstrap-maven`: without `--force` an existing Maven directory is left
   * alone; otherwise Maven is downloaded and unpacked into it.
   */
  method BootstrapMaven(s: Session, force: bool, verbosity: int) returns (status: Status)
    requires s.Ready()
    modifies s
    ensures s.ctx == old(s.ctx) && s.err == old(s.err)
    ensures var mavenDir := old(s.ctx).mavenDir.value;
      !force && mavenDir in old(s.fs) ==>
        status == Ok && s.fs == old(s.fs) && s.trace == old(s.trace) &&
        s.out == old(s.out) + Header(verbosity, MavenTitle) + [MavenSkipLine] + Footer(verbosity)
    ensures var shared, mavenDir := old(s.ctx).sharedDir.value, old(s.ctx).mavenDir.value;
      var stage := MavenStage(old(s.fs), shared, mavenDir);
      (force || mavenDir !in old(s.fs)) && stage.Failure? ==>
        status == Stopped(OsFailure(stage.error)) && s.trace == old(s.trace) &&
        s.out == old(s.out) + Header(verbosity, MavenTitle)
    ensures var shared, mavenDir := old(s.ctx).sharedDir.value, old(s.ctx).mavenDir.value;
      var stage := MavenStage(old(s.fs), shared, mavenDir);
      (force || mavenDir !in old(s.fs)) && stage.Success? && IsDir(stage.value, PartPath(MavenArchive(shared))) ==>
        status == Stopped(OsFailure(IsADirectory)) && s.trace == old(s.trace) &&
        s.out == old(s.out) + Header(verbosity, MavenTitle)
    ensures var shared, mavenDir := old(s.ctx).sharedDir.value, old(s.ctx).mavenDir.value;
      var stage := MavenStage(old(s.fs), shared, mavenDir);
      (force || mavenDir !in old(s.fs)) && stage.Success? && !IsDir(stage.value, PartPath(MavenArchive(shared))) ==>
        var start := |PartData(stage.value, MavenArchive(shared))|;
        var reply := s.net(DownloadRequest(MavenUrl, start));
        s.trace == old(s.trace) + [Fetch(DownloadRequest(MavenUrl, start))] &&
        (!Completes(reply) ==>
          status == DownloadStatus(reply) &&
          s.out == old(s.out) + Header(verbosity, MavenTitle) + DownloadOutput("Maven", MavenUrl, start, reply))
    ensures var shared, mavenDir := old(s.ctx).sharedDir.value, old(s.ctx).mavenDir.value;
      var stage := MavenStage(old(s.fs), shared, mavenDir);
      (force || mavenDir !in old(s.fs)) && status.Ok? ==>
        stage.Success? &&
        var start := |PartData(stage.value, MavenArchive(shared))|;
        var reply := s.net(DownloadRequest(MavenUrl, start));
        Completes(reply) &&
        var entries := s.untar(PartData(stage.value, MavenArchive(shared)) + reply.body);
        s.trace == old(s.trace) + [Fetch(DownloadRequest(MavenUrl, start))] &&
        s.out == old(s.out) + Header(verbosity, MavenTitle) + DownloadOutput("Maven", MavenUrl, start, reply) +
                 [MavenExtracting] + Footer(verbosity) &&
        entries.Some? && mavenDir in s.fs && HoldsFolder(s.fs, mavenDir, entries.value, MavenFolder)
  {
    var shared, mavenDir := s.ctx.sharedDir.value, s.ctx.mavenDir.value;
    s.out := s.out + Header(verbosity, MavenTitle);
    if !force && mavenDir in s.fs {
      s.out := s.out + [MavenSkipLine];
    } else {
      status := MavenInstall(s, shared, mavenDir);
      if !status.Ok? {
        return;
      }
    }
    s.out := s.out + Footer(verbosity);
    status := Ok;
  }

  // ------------------------------------------------------------ bootstrap-m2repo

  const GitHub := "https://github.com"
  const LatestUrl := "https://github.com/mozilla/" + "openhab2-addons/releases/latest"
  const DefaultM2Url := "https://github.com/mozilla/" + "openhab2-addons/releases/download/0.1.0t9/m2repository.tar.gz"
  const M2Title := "Bootstrapping local maven repository"
  const M2SkipLine := "Maven repository already prepopulated. " + "Use |bootstrap-m2repo --force| to download again."
  const M2Extracting := "Extracting Maven repository..."

  /** Where the repository archive is downloaded to. */
  function M2Archive(shared: Path): Path { Join(shared, "m2repository.tar.gz") }

  /** The filesystem once an old repository directory is wiped and made again with `os.makedirs`. */
  function M2Stage(fs: FileSystem, m2: Path): Result<FileSystem, OsError> {
    MakeDirs(Wipe(fs, m2), m2)
  }

  /**
   * `urllib2.urlopen(url).read()`: the whole body in one read. Nothing
   * catches its errors, and Ctrl-C counts only during that first read.
   */
  function ReadPage(reply: Reply): (r: Result<Bytes, Abort>)
    ensures r.Success? <==> reply.Body? && reply.interruptAt != Some(0)
    ensures r.Success? ==> r.value == reply.body
    ensures r.Failure? ==> r.error in {KeyboardInterrupt, UrlFailure} || r.error.HttpFailure?
  {
    match reply
    case Body(_, body, interruptAt) => if interruptAt == Some(0) then Failure(KeyboardInterrupt) else Success(body)
    case HttpError(code, _) => Failure(HttpFailure(code))
    case UrlError => Failure(UrlFailure)
  }

  /** The archive to download: the one the release page links to, if it links to one. */
  function M2Url(link: Option<string>): (url: string)
    ensures |url| >= |GitHub| && url[..|GitHub|] == GitHub
    ensures link.Some? ==> url[|GitHub|..] == link.value
    ensures link.None? ==> url == DefaultM2Url
  {
    if link.Some? then GitHub + link.value else DefaultM2Url
  }

  /** The URL is printed when it comes from the release page. */
  function M2Announce(link: Option<string>): seq<string> {
    if link.Some? then [M2Url(link)] else []
  }

  /** Every entry of the archive `entries` sits below `dir`, except one that would land on `except`. */
  ghost predicate HoldsTree(fs: FileSystem, dir: Path, entries: map<Path, Entry>, except: Path) {
    forall rel :: rel in entries && dir + rel != except ==> dir + rel in fs && fs[dir + rel] == entries[rel]
  }

  /** Extracting into `dir` and removing the archive leaves the archive's tree below `dir` and everything else as it was. */
  lemma GraftHolds(fs: FileSystem, dir: Path, entries: map<Path, Entry>, tgz: Path)
    ensures var r := Graft(fs, dir, entries) - {tgz};
      HoldsTree(r, dir, entries, tgz) &&
      (forall q :: q in fs && q != tgz && !(dir <= q) ==> q in r && r[q] == fs[q])
  {
    forall rel | rel in entries ensures (dir + rel)[|dir|..] == rel {
    }
  }

  /** The request for the latest release page and what reading it gives. */
  method ReadLatest(s: Session) returns (page: Result<Bytes, Abort>)
    modifies s
    ensures s.fs == old(s.fs) && s.ctx == old(s.ctx) && s.out == old(s.out) && s.err == old(s.err)
    ensures s.trace == old(s.trace) + [Fetch(Request(LatestUrl, None))]
    ensures page == ReadPage(s.net(Request(LatestUrl, None)))
  {
    var request := Request(LatestUrl, None);
    s.trace := s.trace + [Fetch(request)];
    page := ReadPage(s.net(request));
  }

  /** `extract(tgz_file, m2repo_dir)`. */
  method M2Unpack(s: Session, m2: Path, tgz: Path, ghost data: Bytes) returns (status: Status)
    requires tgz in s.fs && s.fs[tgz] == File(data)
    modifies s
    ensures s.ctx == old(s.ctx) && s.trace == old(s.trace) && s.out == old(s.out) && s.err == old(s.err)
    ensures s.untar(data).None? ==> status == Stopped(ReadError) && s.fs == old(s.fs)
    ensures status.Ok? ==> s.untar(data).Some? && HoldsTree(s.fs, m2, s.untar(data).value, tgz)
  {
    ghost var fs0 := s.fs;
    status := Extract(s, tgz, m2, None);
    if status.Ok? {
      GraftHolds(fs0, m2, s.untar(data).value, tgz);
    }
  }

  /**
   * What `bootstrap-m2repo` does once the repository directory is made: read
   * the latest release page for the archive's link, download the archive
   * into the shared directory and extract it into the repository directory.
   */
  method M2Fetch(s: Session, shared: Path, m2: Path) returns (status: Status)
    modifies s
    ensures s.ctx == old(s.ctx) && s.err == old(s.err)
    ensures var page := ReadPage(s.net(Request(LatestUrl, None)));
      page.Failure? ==>
        status == Stopped(page.error) && s.fs == old(s.fs) &&
        s.trace == old(s.trace) + [Fetch(Request(LatestUrl, None))] && s.out == old(s.out)
    ensures var page := ReadPage(s.net(Request(LatestUrl, None)));
      page.Success? && IsDir(old(s.fs), PartPath(M2Archive(shared))) ==>
        status == Stopped(OsFailure(IsADirectory)) && s.fs == old(s.fs) &&
        s.trace == old(s.trace) + [Fetch(Request(LatestUrl, None))] &&
        s.out == old(s.out) + M2Announce(s.releaseLink(page.value))
    ensures var page := ReadPage(s.net(Request(LatestUrl, None)));
      page.Success? && !IsDir(old(s.fs), PartPath(M2Archive(shared))) ==>
        var link := s.releaseLink(page.value);
        var start := |PartData(old(s.fs), M2Archive(shared))|;
        var reply := s.net(DownloadRequest(M2Url(link), start));
        s.trace == old(s.trace) + [Fetch(Request(LatestUrl, None)), Fetch(DownloadRequest(M2Url(link), start))] &&
        (!Completes(reply) ==>
          status == DownloadStatus(reply) &&
          s.out == old(s.out) + M2Announce(link) + DownloadOutput("Maven repository", M2Url(link), start, reply))
    ensures var page := ReadPage(s.net(Request(LatestUrl, None)));
      status.Ok? ==>
        page.Success? && !IsDir(old(s.fs), PartPath(M2Archive(shared))) &&
        var link := s.releaseLink(page.value);
        var start := |PartData(old(s.fs), M2Archive(shared))|;
        var reply := s.net(DownloadRequest(M2Url(link), start));
        Completes(reply) &&
        var entries := s.untar(PartData(old(s.fs), M2Archive(shared)) + reply.body);
        s.out == old(s.out) + M2Announce(link) + DownloadOutput("Maven repository", M2Url(link), start, reply) + [M2Extracting] &&
        entries.Some? && HoldsTree(s.fs, m2, entries.value, M2Archive(shared))
  {
    var page := ReadLatest(s);
    if page.Failure? {
      return Stopped(page.error);
    }
    status := M2FromLink(s, shared, m2, s.releaseLink(page.value));
  }

  /** What `bootstrap-m2repo` does once the release page has given the archive's `link`. */
  method M2FromLink(s: Session, shared: Path, m2: Path, link: Option<string>) returns (status: Status)
    modifies s
    ensures s.ctx == old(s.ctx) && s.err == old(s.err)
    ensures IsDir(old(s.fs), PartPath(M2Archive(shared))) ==>
      status == Stopped(OsFailure(IsADirectory)) && s.fs == old(s.fs) && s.trace == old(s.trace) &&
      s.out == old(s.out) + M2Announce(link)
    ensures var start := |PartData(old(s.fs), M2Archive(shared))|;
      var reply := s.net(DownloadRequest(M2Url(link), start));
      !IsDir(old(s.fs), PartPath(M2Archive(shared))) ==>
        s.trace == old(s.trace) + [Fetch(DownloadRequest(M2Url(link), start))] &&
        (!Completes(reply) ==>
          status == DownloadStatus(reply) &&
          s.out == old(s.out) + M2Announce(link) + DownloadOutput("Maven repository", M2Url(link), start, reply))
    ensures status.Ok? ==>
      !IsDir(old(s.fs), PartPath(M2Archive(shared))) &&
      var start := |PartData(old(s.fs), M2Archive(shared))|;
      var reply := s.net(DownloadRequest(M2Url(link), start));
      Completes(reply) &&
      var entries := s.untar(PartData(old(s.fs), M2Archive(shared)) + reply.body);
      s.out == old(s.out) + M2Announce(link) + DownloadOutput("Maven repository", M2Url(link), start, reply) + [M2Extracting] &&
      entries.Some? && HoldsTree(s.fs, m2, entries.value, M2Archive(shared))
  {
    var url := M2Url(link);
    s.out := s.out + M2Announce(link);  // the URL is echoed when the page links to an archive
    var tgz := M2Archive(shared);
    status := DownloadFile(s, "Maven repository", url, tgz);
    if !status.Ok? {
      return;
    }
    s.out := s.out + [M2Extracting];
    status := M2Unpack(s, m2, tgz, s.fs[tgz].data);
  }

  /** The `else` branch of `bootstrap-m2repo`: wipe and make the repository directory, then fetch into it. */
  method M2Install(s: Session, shared: Path, m2: Path) returns (status: Status)
    modifies s
    ensures s.ctx == old(s.ctx) && s.err == old(s.err)
    ensures var stage := M2Stage(old(s.fs), m2);
      stage.Failure? ==> status == Stopped(OsFailure(stage.error)) && s.trace == old(s.trace) && s.out == old(s.out)
    ensures var stage, page := M2Stage(old(s.fs), m2), ReadPage(s.net(Request(LatestUrl, None)));
      stage.Success? && page.Failure? ==>
        status == Stopped(page.error) && s.trace == old(s.trace) + [Fetch(Request(LatestUrl, None))] && s.out == old(s.out)
    ensures var stage, page := M2Stage(old(s.fs), m2), ReadPage(s.net(Request(LatestUrl, None)));
      stage.Success? && page.Success? && IsDir(stage.value, PartPath(M2Archive(shared))) ==>
        status == Stopped(OsFailure(IsADirectory)) && s.trace == old(s.trace) + [Fetch(Request(LatestUrl, None))] &&
        s.out == old(s.out) + M2Announce(s.releaseLink(page.value))
    ensures var stage, page := M2Stage(old(s.fs), m2), ReadPage(s.net(Request(LatestUrl, None)));
      stage.Success? && page.Success? && !IsDir(stage.value, PartPath(M2Archive(shared))) ==>
        var link := s.releaseLink(page.value);
        var start := |PartData(stage.value, M2Archive(shared))|;
        var reply := s.net(DownloadRequest(M2Url(link), start));
        s.trace == old(s.trace) + [Fetch(Request(LatestUrl, None)), Fetch(DownloadRequest(M2Url(link), start))] &&
        (!Completes(reply) ==>
          status == DownloadStatus(reply) &&
          s.out == old(s.out) + M2Announce(link) + DownloadOutput("Maven repository", M2Url(link), start, reply))
    ensures var stage, page := M2Stage(old(s.fs), m2), ReadPage(s.net(Request(LatestUrl, None)));
      status.Ok? ==>
        stage.Success? && page.Success? && !IsDir(stage.value, PartPath(M2Archive(shared))) &&
        var link := s.releaseLink(page.value);
        var start := |PartData(stage.value, M2Archive(shared))|;
        var reply := s.net(DownloadRequest(M2Url(link), start));
        Completes(reply) &&
        var entries := s.untar(PartData(stage.value, M2Archive(shared)) + reply.body);
        s.out == old(s.out) + M2Announce(link) + DownloadOutput("Maven repository", M2Url(link), start, reply) + [M2Extracting] &&
        entries.Some? && HoldsTree(s.fs, m2, entries.value, M2Archive(shared))
  {
    s.fs := Wipe(s.fs, m2);
    var r := MakeDirs(s.fs, m2);
    if r.Failure? {
      return Stopped(OsFailure(r.error));
    }
    s.fs := r.value;
    status := M2Fetch(s, shared, m2);
  }

  /**
   * `bootstrap-m2repo`: without `--force` an existing local Maven
   * repository is left alone; otherwise it is made again from the archive
   * the latest release links to.
   */
  method BootstrapM2repo(s: Session, force: bool, verbosity: int) returns (status: Status)
    requires s.Ready()
    modifies s
    ensures s.ctx == old(s.ctx) && s.err == old(s.err)
    ensures var m2 := old(s.ctx).m2repoDir.value;
      !force && m2 in old(s.fs) ==>
        status == Ok && s.fs == old(s.fs) && s.trace == old(s.trace) &&
        s.out == old(s.out) + Header(verbosity, M2Title) + [M2SkipLine] + Footer(verbosity)
    ensures var m2 := old(s.ctx).m2repoDir.value;
      var stage := M2Stage(old(s.fs), m2);
      (force || m2 !in old(s.fs)) && stage.Failure? ==>
        status == Stopped(OsFailure(stage.error)) && s.trace == old(s.trace) &&
        s.out == old(s.out) + Header(verbosity, M2Title)
    ensures var m2 := old(s.ctx).m2repoDir.value;
      var stage, page := M2Stage(old(s.fs), m2), ReadPage(s.net(Request(LatestUrl, None)));
      (force || m2 !in old(s.fs)) && stage.Success? && page.Failure? ==>
        status == Stopped(page.error) && s.trace == old(s.trace) + [Fetch(Request(LatestUrl, None))] &&
        s.out == old(s.out) + Header(verbosity, M2Title)
    ensures var shared, m2 := old(s.ctx).sharedDir.value, old(s.ctx).m2repoDir.value;
      var stage, page := M2Stage(old(s.fs), m2), ReadPage(s.net(Request(LatestUrl, None)));
      (force || m2 !in old(s.fs)) && stage.Success? && page.Success? && IsDir(stage.value, PartPath(M2Archive(shared))) ==>
        status == Stopped(OsFailure(IsADirectory)) && s.trace == old(s.trace) + [Fetch(Request(LatestUrl, None))] &&
        s.out == old(s.out) + Header(verbosity, M2Title) + M2Announce(s.releaseLink(page.value))
    ensures var shared, m2 := old(s.ctx).sharedDir.value, old(s.ctx).m2repoDir.value;
      var stage, page := M2Stage(old(s.fs), m2), ReadPage(s.net(Request(LatestUrl, None)));
      (force || m2 !in old(s.fs)) && stage.Success? && page.Success? && !IsDir(stage.value, PartPath(M2Archive(shared))) ==>
        var link := s.releaseLink(page.value);
        var start := |PartData(stage.value, M2Archive(shared))|;
        var reply := s.net(DownloadRequest(M2Url(link), start));
        s.trace == old(s.trace) + [Fetch(Request(LatestUrl, None)), Fetch(DownloadRequest(M2Url(link), start))] &&
        (!Completes(reply) ==>
          status == DownloadStatus(reply) &&
          s.out == old(s.out) + Header(verbosity, M2Title) + M2Announce(link) +
                   DownloadOutput("Maven repository", M2Url(link), start, reply))
    ensures var shared, m2 := old(s.ctx).sharedDir.value, old(s.ctx).m2repoDir.value;
      var stage, page := M2Stage(old(s.fs), m2), ReadPage(s.net(Request(LatestUrl, None)));
      (force || m2 !in old(s.fs)) && status.Ok? ==>
        stage.Success? && page.Success? &&
        var link := s.releaseLink(page.value);
        var start := |PartData(stage.value, M2Archive(shared))|;
        var reply := s.net(DownloadRequest(M2Url(link), start));
        Completes(reply) &&
        var entries := s.untar(PartData(stage.value, M2Archive(shared)) + reply.body);
        s.trace == old(s.trace) + [Fetch(Request(LatestUrl, None)), Fetch(DownloadRequest(M2Url(link), start))] &&
        s.out == old(s.out) + Header(verbosity, M2Title) + M2Announce(link) +
                 DownloadOutput("Maven repository", M2Url(link), start, reply) + [M2Extracting] + Footer(verbosity) &&
        entries.Some? && HoldsTree(s.fs, m2, entries.value, M2Archive(shared))
  {
    var shared, m2 := s.ctx.sharedDir.value, s.ctx.m2repoDir.value;
    s.out := s.out + Header(verbosity, M2Title);
    if !force && m2 in s.fs {
      s.out := s.out + [M2SkipLine];
    } else {
      status := M2Install(s, shared, m2);
      if !status.Ok? {
        return;
      }
    }
    s.out := s.out + Footer(verbosity);
    status := Ok;
  }

  // ------------------------------------------------------------ bootstrap

  /** Every repository of the catalogue, Maven and the local Maven repository are present. */
  predicate AllPresent(fs: FileSystem, c: Context)
    requires c.Ready()
  {
    c.mavenDir.value in fs && c.m2repoDir.value in fs &&
    forall n :: n in Names(c.repos.value) ==> Join(c.gitDir.value, n) in fs
  }

  /**
   * `bootstrap`: `bootstrap-git all`, then `bootstrap-maven` and
   * `bootstrap-m2repo` with their default verbosity of 2; an exception in
   * one step ends the command.
   */
  method Bootstrap(s: Session, force: bool, verbosity: int) returns (status: Status)
    requires s.Ready()
    modifies s
    ensures s.ctx == old(s.ctx) && s.err == old(s.err)
    ensures var c := old(s.ctx); var names := Names(c.repos.value);
      !Unblocked(old(s.fs), c.gitDir.value, ClonesNeeded(old(s.fs), c.gitDir.value, names, force)) ==>
        status.Stopped? && status.abort.OsFailure?
    ensures var c := old(s.ctx);
      !force && AllPresent(old(s.fs), c) ==>
        status == Ok && s.fs == old(s.fs) && s.trace == old(s.trace) &&
        s.out == old(s.out) + GitOutput(old(s.fs), c.gitDir.value, Names(c.repos.value), false, verbosity) +
                 Header(2, MavenTitle) + [MavenSkipLine] + Footer(2) +
                 Header(2, M2Title) + [M2SkipLine] + Footer(2)
  {
    ghost var fs0 := s.fs;
    if !force && AllPresent(s.fs, s.ctx) {
      NothingMissingNothingCloned(s.fs, s.ctx.gitDir.value, Names(s.ctx.repos.value));
    }
    status := BootstrapGit(s, "all", force, verbosity);
    if !status.Ok? {
      return;
    }
    status := BootstrapMaven(s, force, 2);
    if !status.Ok? {
      return;
    }
    status := BootstrapM2repo(s, force, 2);
  }
}
