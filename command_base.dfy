/**
 * python/vaani/command_base.py: the verbosity thresholds, the banner printed
 * around every command, the environment handed to subprocesses, the defaults
 * every command provider gives the shared mach context, and the guard that
 * bootstraps a missing tool before the first build of a session.
 */
module CommandBase {
  import opened Wrappers
  import opened Files
  import opened Host
  import Utf8

  // ---------------------------------------------------------------- verbosity

  predicate ShowHeader(verbosity: int) { verbosity > 0 }
  predicate ShowHelp(verbosity: int) { verbosity > 1 }
  predicate ShowProgress(verbosity: int) { verbosity > 0 }
  predicate ShowDebug(verbosity: int) { verbosity > 2 }
  predicate ShowResult(verbosity: int) { verbosity > 0 }
  predicate ShowError(verbosity: int) { verbosity > 0 }

  /** The thresholds are nested: whatever shows debug output shows help, whatever shows help shows headers. */
  lemma VerbosityLadder(verbosity: int)
    ensures ShowDebug(verbosity) ==> ShowHelp(verbosity)
    ensures ShowHelp(verbosity) ==> ShowHeader(verbosity)
    ensures ShowProgress(verbosity) == ShowHeader(verbosity)
    ensures ShowResult(verbosity) == ShowHeader(verbosity)
    ensures ShowError(verbosity) == ShowHeader(verbosity)
    ensures ShowHeader(verbosity) <==> verbosity >= 1
    ensures ShowHelp(verbosity) <==> verbosity >= 2
    ensures ShowDebug(verbosity) <==> verbosity >= 3
  {
  }

  // ------------------------------------------------------------------- banner

  function Repeat(c: char, n: nat): (r: string)
    ensures |r| == n && forall i :: 0 <= i < n ==> r[i] == c
  {
    seq(n, _ => c)
  }

  /** `print_line()`: one rule of 100 stars. */
  function Rule(): string { Repeat('*', 100) }

  /** The padding `str.center` puts on the left: `marg / 2 + (marg & width & 1)`. */
  function CenterLeft(len: nat, width: nat): nat
    requires len < width
  {
    var marg := width - len;
    marg / 2 + (if marg % 2 == 1 && width % 2 == 1 then 1 else 0)
  }

  /** Python's `s.center(width)` with the default fill character. */
  function Center(s: string, width: nat): string
  {
    if |s| >= width then s
    else
      var left := CenterLeft(|s|, width);
      Repeat(' ', left) + s + Repeat(' ', width - |s| - left)
  }

  /** Centering to the even width 78 puts half the padding on the left and the odd space, if any, on the right. */
  lemma CenterTo78(t: string)
    requires |t| <= 78
    ensures var c, left := Center(t, 78), (78 - |t|) / 2;
      |c| == 78 && c[left..left + |t|] == t &&
      (forall i :: 0 <= i < left ==> c[i] == ' ') &&
      (forall i :: left + |t| <= i < 78 ==> c[i] == ' ') &&
      0 <= (78 - |t| - left) - left <= 1
  {
    if |t| < 78 {
      var left := CenterLeft(|t|, 78);
      var c := Repeat(' ', left) + t + Repeat(' ', 78 - |t| - left);
      assert c[left..left + |t|] == t;
    }
  }

  /**
   * Python 2.7's `unicode.isspace`: the characters after which the Python 2 output
   * statement drops its pending separator space.
   */
  predicate IsPySpace(c: char) {
    var n := c as int;
    (9 <= n <= 13) || (28 <= n <= 32) || n == 0x85 || n == 0xA0 || n == 0x1680 || n == 0x180E ||
    (0x2000 <= n <= 0x200A) || n == 0x2028 || n == 0x2029 || n == 0x202F || n == 0x205F || n == 0x3000
  }

  /** After writing `c` with a trailing comma, the next item is preceded by a space unless `c` ends with whitespace other than ' '. */
  predicate KeepsSoftspace(c: string) {
    c == [] || !IsPySpace(c[|c| - 1]) || c[|c| - 1] == ' '
  }

  function Truncate(title: string): (t: string)
    ensures |t| <= 78 && |t| <= |title| && t == title[..|t|]
    ensures |title| <= 78 ==> t == title
  {
    if |title| <= 78 then title else title[..78]
  }

  /** The middle line of `print_header`: ten stars, the centred title and ten stars, the first two written with a trailing comma. */
  function TitleLine(title: string): string {
    var c := Center(Truncate(title), 78);
    Repeat('*', 10) + " " + c + (if KeepsSoftspace(c) then " " else "") + Repeat('*', 10)
  }

  /** The lines `print_header(verbosity, title)` prints. */
  function Header(verbosity: int, title: string): seq<string> {
    if ShowHeader(verbosity) then ["", Rule(), TitleLine(title), Rule(), ""] else []
  }

  /** The lines `print_footer(verbosity)` prints. */
  function Footer(verbosity: int): seq<string> {
    if ShowHeader(verbosity) then [Rule()] else []
  }

  /**
   * Quiet below verbosity 1. Otherwise the banner is a rule, the title line and
   * a rule between blank lines; the title, cut to 78 characters, sits centred
   * between ten stars and a space on each side, so that the title line is 100
   * characters wide like the rules, except when the cut title is 78 characters
   * long and ends in whitespace other than a space, which swallows the space
   * before the closing stars.
   */
  lemma BannerShape(verbosity: int, title: string)
    ensures !ShowHeader(verbosity) ==> Header(verbosity, title) == [] && Footer(verbosity) == []
    ensures ShowHeader(verbosity) ==> (Footer(verbosity) == [Rule()] && |Rule()| == 100 &&
      var lines, t := Header(verbosity, title), Truncate(title);
      |lines| == 5 && lines[0] == "" && lines[4] == "" && lines[1] == lines[3] == Rule() &&
      lines[2][..11] == "********** " &&
      lines[2][11 + (78 - |t|) / 2..11 + (78 - |t|) / 2 + |t|] == t &&
      (|lines[2]| == 100 <==> !(|title| >= 78 && IsPySpace(title[77]) && title[77] != ' ')) &&
      (|lines[2]| == 100 || |lines[2]| == 99))
  {
    if ShowHeader(verbosity) {
      var t := Truncate(title);
      CenterTo78(t);
      var c := Center(t, 78);
      var line := TitleLine(title);
      assert line == Repeat('*', 10) + " " + c + (if KeepsSoftspace(c) then " " else "") + Repeat('*', 10);
      assert line[..11] == "********** ";
      var left := (78 - |t|) / 2;
      assert line[11..11 + 78] == c;
      assert line[11 + left..11 + left + |t|] == c[left..left + |t|];
      if |title| >= 78 {
        assert c == t && c[77] == title[77];
      } else if |t| < 78 {
        assert c[77] == ' ';
      }
    }
  }

  // -------------------------------------------------------- the environment

  /** A Python 2 string: `unicode` text or a `str` of bytes. */
  datatype PyString = Text(text: string) | Raw(bytes: Bytes)

  /** What `normalize_env` makes of one key or value. */
  function Normalized(v: PyString): PyString {
    match v
    case Text(t) => Raw(Utf8.Encode(t))
    case Raw(_) => v
  }

  /** No other key of `env` normalises to the same string as `k`. */
  ghost predicate Distinct(env: map<PyString, PyString>, k: PyString) {
    forall k' :: k' in env && Normalized(k') == Normalized(k) ==> k' == k
  }

  /**
   * `normalize_env(env)`: text keys and values become their UTF-8 bytes and
   * byte strings pass through. The keys are visited in no particular order;
   * each key's normalised form carries the normalised value of the key that
   * produced it, and of the last such key when two collide.
   */
  method NormalizeEnv(env: map<PyString, PyString>) returns (normalized: map<PyString, PyString>)
    ensures normalized.Keys == set k | k in env :: Normalized(k)
    ensures forall k :: k in env && Distinct(env, k) ==> normalized[Normalized(k)] == Normalized(env[k])
    ensures forall n :: n in normalized ==>
      exists k :: k in env && Normalized(k) == n && normalized[n] == Normalized(env[k])
    ensures forall n :: n in normalized ==> n.Raw? && normalized[n].Raw?
  {
    normalized := map[];
    var todo := env.Keys;
    while todo != {}
      invariant todo <= env.Keys
      invariant normalized.Keys == set k | k in env && k !in todo :: Normalized(k)
      invariant forall k :: k in env && k !in todo && Distinct(env, k) ==> normalized[Normalized(k)] == Normalized(env[k])
      invariant forall n :: n in normalized ==>
        exists k :: k in env && k !in todo && Normalized(k) == n && normalized[n] == Normalized(env[k])
      decreases todo
    {
      var k :| k in todo;
      normalized := normalized[Normalized(k) := Normalized(env[k])];
      todo := todo - {k};
    }
  }

  /** Keys cannot collide while they are all text, or all bytes: then every entry survives normalisation. */
  lemma EveryEntryKept(env: map<PyString, PyString>)
    requires (forall k :: k in env ==> k.Text?) || (forall k :: k in env ==> k.Raw?)
    ensures forall k :: k in env ==> Distinct(env, k)
  {
    forall k, k' | k in env && k' in env && Normalized(k') == Normalized(k)
      ensures k' == k
    {
      if k.Text? && k'.Text? {
        Utf8.EncodeInjective(k.text, k'.text);
      }
    }
  }

  /** `get_env_bool(var, default)`: "True" and "False" are read as booleans, anything else gives the default. */
  function GetEnvBool(environ: map<string, string>, name: string, default: bool): (r: bool)
    ensures name in environ && environ[name] == "True" ==> r
    ensures name in environ && environ[name] == "False" ==> !r
    ensures name !in environ || environ[name] !in {"True", "False"} ==> r == default
  {
    var table := map["True" := true, "False" := false];
    if name in environ && environ[name] in table then table[environ[name]] else default
  }

  const MavenOpts := "-Dmaven.artifact.threads=4 -Xmx2469m"

  /** `build_env()`: a copy of the environment with the two Maven tuning variables set. */
  function BuildEnv(environ: map<string, string>): (env: map<string, string>)
    ensures env.Keys == environ.Keys + {"MAVEN_OPTS", "MAVEN_SKIP_RC"}
    ensures env["MAVEN_OPTS"] == MavenOpts && env["MAVEN_SKIP_RC"] == "true"
    ensures forall k :: k in environ && k != "MAVEN_OPTS" && k != "MAVEN_SKIP_RC" ==> env[k] == environ[k]
  {
    environ["MAVEN_OPTS" := MavenOpts]["MAVEN_SKIP_RC" := "true"]
  }

  /** `' '.join(argv)`. */
  function Words(argv: seq<string>): string {
    if argv == [] then "" else if |argv| == 1 then argv[0] else argv[0] + " " + Words(argv[1..])
  }

  /** `call(argv, env=env, cwd=cwd, verbose=verbose)`: the subprocess is an event; its exit code is not used. */
  method Call(s: Session, argv: seq<string>, cwd: Path, env: map<string, string>, verbose: bool)
    modifies s
    ensures s.trace == old(s.trace) + [Run(argv, cwd, env)]
    ensures s.out == old(s.out) + (if verbose then [Words(argv)] else [])
    ensures s.fs == old(s.fs) && s.ctx == old(s.ctx) && s.err == old(s.err)
  {
    if verbose {
      s.out := s.out + [Words(argv)];
    }
    s.trace := s.trace + [Run(argv, cwd, env)];
  }

  // ------------------------------------------------------------ the context

  /** The repositories, in the order they must be built. */
  const DefaultRepos: seq<Repo> := [
    Repo("smarthome", "eclipse"),
    Repo("openhab-core", "kaikreuzer"),
    Repo("openhab", "openhab"),
    Repo("openhab2-addons", "openhab"),
    Repo("openhab-distro", "owner")
  ]

  function Names(repos: seq<Repo>): (names: seq<string>)
    ensures |names| == |repos| && forall i :: 0 <= i < |repos| ==> names[i] == repos[i].name
  {
    seq(|repos|, i requires 0 <= i < |repos| => repos[i].name)
  }

  /** The repositories a command given `repository` works on: the whole catalogue for `"all"`. */
  function Selected(repository: string, repos: seq<Repo>): seq<string> {
    if repository == "all" then Names(repos) else [repository]
  }

  /** An attribute keeps its value if it has one and takes the default otherwise. */
  function Keep<T>(attr: Option<T>, default: T): Option<T> {
    if attr.Some? then attr else Some(default)
  }

  /**
   * `CommandBase.__init__`: every context attribute that is not yet set gets
   * its default, in this order, so that the Maven directories follow a
   * shared directory set earlier; an attribute already set is left alone.
   */
  method InitCommandBase(s: Session)
    requires s.ctx.repos.Some? ==> UniqueNames(s.ctx.repos.value)
    modifies s
    ensures s.Ready() && s.ctx.topdir == old(s.ctx.topdir)
    ensures s.ctx.bootstrapped == Keep(old(s.ctx.bootstrapped), false)
    ensures s.ctx.sharedDir == Keep(old(s.ctx.sharedDir), Join(s.ctx.topdir, "shared"))
    ensures s.ctx.mavenDir == Keep(old(s.ctx.mavenDir), Join(s.SharedDir(), "maven"))
    ensures s.ctx.m2repoDir == Keep(old(s.ctx.m2repoDir), Join(s.SharedDir(), "m2repo"))
    ensures s.ctx.gitDir == Keep(old(s.ctx.gitDir), Join(s.ctx.topdir, "git"))
    ensures s.ctx.wsDir == Keep(old(s.ctx.wsDir), Join(s.ctx.topdir, "ws"))
    ensures s.ctx.repos == Keep(old(s.ctx.repos), DefaultRepos)
    ensures old(s.ctx).Ready() ==> s.ctx == old(s.ctx)
    ensures s.fs == old(s.fs) && s.trace == old(s.trace) && s.out == old(s.out) && s.err == old(s.err)
  {
    var c := s.ctx;
    var bootstrapped := Keep(c.bootstrapped, false);
    var sharedDir := Keep(c.sharedDir, Join(c.topdir, "shared"));
    var mavenDir := Keep(c.mavenDir, Join(sharedDir.value, "maven"));
    var m2repoDir := Keep(c.m2repoDir, Join(sharedDir.value, "m2repo"));
    var gitDir := Keep(c.gitDir, Join(c.topdir, "git"));
    var wsDir := Keep(c.wsDir, Join(c.topdir, "ws"));
    var repos := Keep(c.repos, DefaultRepos);
    s.ctx := Context(c.topdir, bootstrapped, sharedDir, mavenDir, m2repoDir, gitDir, wsDir, repos);
  }

  // ---------------------------------------------------------------- the guard

  /** The bootstrap commands the guard can dispatch, in the order it considers them. */
  datatype Bootstrap = BootstrapMaven | BootstrapM2repo | BootstrapGit
  {
    /** The mach command's name. */
    function Name(): string {
      match this
      case BootstrapMaven => "bootstrap-maven"
      case BootstrapM2repo => "bootstrap-m2repo"
      case BootstrapGit => "bootstrap-git"
    }

    /** What is printed before the dispatch. */
    function Announcement(): string {
      match this
      case BootstrapMaven => "Installing Maven"
      case BootstrapM2repo => "Preparing local Maven repository"
      case BootstrapGit => "Fetching git repositories"
    }

    function Rank(): nat {
      match this
      case BootstrapMaven => 0
      case BootstrapM2repo => 1
      case BootstrapGit => 2
    }
  }

  /** The command the guard dispatches for one directory: `command` if `dir` is missing. */
  function GuardStep(fs: FileSystem, dir: Path, command: Bootstrap): seq<Bootstrap> {
    if dir !in fs then [command] else []
  }

  /** The commands `ensure_bootstrapped` dispatches, given what exists. */
  function GuardPlan(fs: FileSystem, mavenDir: Path, m2repoDir: Path, gitDir: Path): (commands: seq<Bootstrap>)
    ensures BootstrapMaven in commands <==> mavenDir !in fs
    ensures BootstrapM2repo in commands <==> m2repoDir !in fs
    ensures BootstrapGit in commands <==> gitDir !in fs
    ensures forall i, j :: 0 <= i < j < |commands| ==> commands[i].Rank() < commands[j].Rank()
  {
    GuardStep(fs, mavenDir, BootstrapMaven) + GuardStep(fs, m2repoDir, BootstrapM2repo) +
    GuardStep(fs, gitDir, BootstrapGit)
  }

  /** The dispatch events of `commands`, in order. */
  function Dispatches(commands: seq<Bootstrap>): seq<Event> {
    seq(|commands|, i requires 0 <= i < |commands| => Dispatch(commands[i].Name()))
  }

  /** The lines printed before the dispatches of `commands`, in order. */
  function Announcements(commands: seq<Bootstrap>): seq<string> {
    seq(|commands|, i requires 0 <= i < |commands| => commands[i].Announcement())
  }

  /** The guard's steps compose: the events and lines of a plan are those of its parts, in order. */
  lemma GuardAppend(a: seq<Bootstrap>, b: seq<Bootstrap>)
    ensures Dispatches(a + b) == Dispatches(a) + Dispatches(b)
    ensures Announcements(a + b) == Announcements(a) + Announcements(b)
  {
    forall i | 0 <= i < |a| + |b|
      ensures Dispatches(a + b)[i] == (Dispatches(a) + Dispatches(b))[i]
      ensures Announcements(a + b)[i] == (Announcements(a) + Announcements(b))[i]
    {
      if i < |a| {
        assert (a + b)[i] == a[i];
      } else {
        assert (a + b)[i] == b[i - |a|];
      }
    }
  }

  /** One `if not path.exists(dir)` block of the guard: announce and dispatch `command`. */
  method Guard(s: Session, dir: Path, command: Bootstrap)
    modifies s
    ensures s.fs == old(s.fs) && s.ctx == old(s.ctx) && s.err == old(s.err)
    ensures s.trace == old(s.trace) + Dispatches(GuardStep(old(s.fs), dir, command))
    ensures s.out == old(s.out) + Announcements(GuardStep(old(s.fs), dir, command))
  {
    if dir !in s.fs {
      s.out := s.out + [command.Announcement()];
      s.trace := s.trace + [Dispatch(command.Name())];
    }
  }

  /**
   * `ensure_bootstrapped()`: once per context. The first call dispatches the
   * bootstrap commands for whichever of the Maven directory, the local
   * repository and the git directory is missing, in that order, and marks the
   * context bootstrapped; every later call does nothing.
   */
  method EnsureBootstrapped(s: Session)
    requires s.Ready()
    modifies s
    ensures s.Ready() && s.ctx.bootstrapped == Some(true)
    ensures s.fs == old(s.fs) && s.err == old(s.err)
    ensures old(s.ctx.bootstrapped) == Some(true) ==>
      s.ctx == old(s.ctx) && s.trace == old(s.trace) && s.out == old(s.out)
    ensures old(s.ctx.bootstrapped) == Some(false) ==>
      var c := old(s.ctx);
      var plan := GuardPlan(old(s.fs), c.mavenDir.value, c.m2repoDir.value, c.gitDir.value);
      s.ctx == c.(bootstrapped := Some(true)) &&
      s.trace == old(s.trace) + Dispatches(plan) &&
      s.out == old(s.out) + Announcements(plan)
  {
    if s.ctx.bootstrapped.value {
      return;
    }
    var c := s.ctx;
    GuardAll(s, c.mavenDir.value, c.m2repoDir.value, c.gitDir.value);
    s.ctx := c.(bootstrapped := Some(true));
  }

  /** The three `if not path.exists(...)` blocks of `ensure_bootstrapped`, in order. */
  method GuardAll(s: Session, mavenDir: Path, m2repoDir: Path, gitDir: Path)
    modifies s
    ensures s.fs == old(s.fs) && s.ctx == old(s.ctx) && s.err == old(s.err)
    ensures s.trace == old(s.trace) + Dispatches(GuardPlan(old(s.fs), mavenDir, m2repoDir, gitDir))
    ensures s.out == old(s.out) + Announcements(GuardPlan(old(s.fs), mavenDir, m2repoDir, gitDir))
  {
    ghost var fs, trace0, out0 := s.fs, s.trace, s.out;
    ghost var a, b, g := GuardStep(fs, mavenDir, BootstrapMaven), GuardStep(fs, m2repoDir, BootstrapM2repo),
      GuardStep(fs, gitDir, BootstrapGit);
    Guard(s, mavenDir, BootstrapMaven);
    Guard(s, m2repoDir, BootstrapM2repo);
    Guard(s, gitDir, BootstrapGit);
    assert s.trace == trace0 + Dispatches(a) + Dispatches(b) + Dispatches(g);
    assert s.out == out0 + Announcements(a) + Announcements(b) + Announcements(g);
    GuardPlanParts(fs, mavenDir, m2repoDir, gitDir);
    AppendAssoc(trace0, Dispatches(a), Dispatches(b));
    AppendAssoc(trace0, Dispatches(a) + Dispatches(b), Dispatches(g));
    AppendAssoc(out0, Announcements(a), Announcements(b));
    AppendAssoc(out0, Announcements(a) + Announcements(b), Announcements(g));
  }

  /** The events and lines of the whole plan are those of its three steps, in order. */
  lemma GuardPlanParts(fs: FileSystem, mavenDir: Path, m2repoDir: Path, gitDir: Path)
    ensures var plan, a, b, c := GuardPlan(fs, mavenDir, m2repoDir, gitDir), GuardStep(fs, mavenDir, BootstrapMaven),
        GuardStep(fs, m2repoDir, BootstrapM2repo), GuardStep(fs, gitDir, BootstrapGit);
      Dispatches(plan) == Dispatches(a) + Dispatches(b) + Dispatches(c) &&
      Announcements(plan) == Announcements(a) + Announcements(b) + Announcements(c)
  {
    var a, b, c := GuardStep(fs, mavenDir, BootstrapMaven), GuardStep(fs, m2repoDir, BootstrapM2repo),
      GuardStep(fs, gitDir, BootstrapGit);
    GuardAppend(a, b);
    GuardAppend(a + b, c);
  }
}
