/**
 * The `build` and `clean` commands of build_commands.py: after making sure
 * the bootstrap has run, each selected repository gets a Maven run in its
 * checkout, framed by a banner, and a long build ends with a desktop
 * notification on the platforms that have a back end for one.
 */
module BuildCommands {
  import opened Wrappers
  import opened Files
  import opened Host
  import opened CommandBase
  import opened Fetcher

  // ------------------------------------------------------------ the Maven runs

  const RepoLocalFlag := "-Dmaven.repo.local="

  /** The options every Maven run gets: the local repository, and `-q` when nothing is to be shown. */
  function MavenOptions(m2repo: Path, verbosity: int): (opts: seq<string>)
    ensures |opts| == if verbosity == 0 then 2 else 1
    ensures opts[0] == RepoLocalFlag + PathText(m2repo)
    ensures "-q" in opts <==> verbosity == 0
  {
    var local := RepoLocalFlag + PathText(m2repo);
    assert |local| > 2;
    if verbosity == 0 then [local, "-q"] else [local]
  }

  function MavenArgv(goal: string, opts: seq<string>): seq<string> {
    ["mvn", goal] + opts
  }

  /** The subprocesses the loop over `names` starts, in order. */
  function Invocations(goal: string, opts: seq<string>, gitDir: Path, names: seq<string>,
                       env: map<string, string>): seq<Event>
    decreases |names|
  {
    if names == [] then []
    else
      var last := Run(MavenArgv(goal, opts), Join(gitDir, names[|names| - 1]), env);
      Invocations(goal, opts, gitDir, names[..|names| - 1], env) + [last]
  }

  /** One Maven run per name, in the order of the names, each in that repository's checkout. */
  lemma {:induction false} InvocationsShape(goal: string, opts: seq<string>, gitDir: Path,
                                            names: seq<string>, env: map<string, string>)
    ensures var runs := Invocations(goal, opts, gitDir, names, env);
      |runs| == |names| &&
      forall i :: 0 <= i < |names| ==> runs[i] == Run(["mvn", goal] + opts, gitDir + [names[i]], env)
  {
    if names != [] {
      var init := names[..|names| - 1];
      InvocationsShape(goal, opts, gitDir, init, env);
      assert forall i :: 0 <= i < |init| ==> init[i] == names[i];
    }
  }

  /** `"all"` runs Maven in every catalogue repository, in catalogue order; any other name runs it once, there. */
  lemma Selection(goal: string, opts: seq<string>, gitDir: Path, repository: string, repos: seq<Repo>,
                  env: map<string, string>)
    ensures var runs := Invocations(goal, opts, gitDir, Selected(repository, repos), env);
      (repository == "all" ==>
        |runs| == |repos| && forall i :: 0 <= i < |repos| ==> runs[i] == Run(["mvn", goal] + opts, gitDir + [repos[i].name], env)) &&
      (repository != "all" ==> runs == [Run(["mvn", goal] + opts, gitDir + [repository], env)])
  {
    InvocationsShape(goal, opts, gitDir, Selected(repository, repos), env);
  }

  // ------------------------------------------------------------ what the loop prints

  /** The lines printed around the run in one repository. */
  function RepoOutput(verbosity: int, verb: string, argv: seq<string>, repo: string): seq<string> {
    Header(verbosity, verb + " " + repo) + (if ShowDebug(verbosity) then [Words(argv)] else []) +
    Footer(verbosity)
  }

  /** `RepoOutput` as a function of the repository alone. */
  function SectionOf(verbosity: int, verb: string, argv: seq<string>): string -> seq<string> {
    repo => RepoOutput(verbosity, verb, argv, repo)
  }

  /** The sections `f(n)` of the names `n`, one after another. */
  function Concat(f: string -> seq<string>, names: seq<string>): seq<string>
    decreases |names|
  {
    if names == [] then [] else Concat(f, names[..|names| - 1]) + f(names[|names| - 1])
  }

  /** The lines the loop prints over all the repositories. */
  function RepoOutputs(verbosity: int, verb: string, argv: seq<string>, names: seq<string>): seq<string> {
    Concat(SectionOf(verbosity, verb, argv), names)
  }

  /** How many lines the loop prints per repository. */
  function SectionLength(verbosity: int): nat {
    if !ShowHeader(verbosity) then 0 else if ShowDebug(verbosity) then 7 else 6
  }

  /** The section of one repository: the banner, the command line above verbosity 2, the closing rule. */
  lemma SectionShape(verbosity: int, verb: string, argv: seq<string>, repo: string)
    ensures var section := RepoOutput(verbosity, verb, argv, repo);
      |section| == SectionLength(verbosity) &&
      (ShowHeader(verbosity) ==> section[2] == TitleLine(verb + " " + repo) && section[|section| - 1] == Rule()) &&
      (ShowDebug(verbosity) ==> section[5] == Words(argv))
  {
  }

  /** A section that starts before section `n` ends before it starts. */
  lemma {:induction false} SectionFits(i: nat, n: nat, w: nat)
    requires i < n
    ensures i * w + w <= n * w
    decreases n
  {
    if i + 1 < n {
      SectionFits(i, n - 1, w);
      assert n * w == (n - 1) * w + w;
    }
  }

  /** The slices of a sequence that lie in its first part are slices of that part. */
  lemma SliceOfAppend(a: seq<string>, b: seq<string>, lo: nat, hi: nat)
    requires lo <= hi <= |a|
    ensures (a + b)[lo..hi] == a[lo..hi]
  {
  }

  /**
   * Appending one more section of width `w` to `w`-wide sections, one per
   * name of `init`, gives `w`-wide sections, one per name of `init + [last]`.
   */
  lemma SectionsSnoc(prefix: seq<string>, section: seq<string>, init: seq<string>, last: string, w: nat,
                     f: string -> seq<string>)
    requires |prefix| == |init| * w && section == f(last) && |section| == w
    requires forall i :: 0 <= i < |init| ==> i * w + w <= |prefix| && prefix[i * w..i * w + w] == f(init[i])
    ensures var names, lines := init + [last], prefix + section;
      |lines| == |names| * w &&
      forall i :: 0 <= i < |names| ==> i * w + w <= |lines| && lines[i * w..i * w + w] == f(names[i])
  {
    var names, lines := init + [last], prefix + section;
    MulSucc(|init|, w);
    forall i | 0 <= i < |names|
      ensures i * w + w <= |lines| && lines[i * w..i * w + w] == f(names[i])
    {
      if i < |init| {
        SectionFits(i, |init|, w);
        SliceOfAppend(prefix, section, i * w, i * w + w);
        assert names[i] == init[i];
      } else {
        assert i == |init| && names[i] == last;
        SliceOfAppendRight(prefix, section);
      }
    }
  }

  lemma MulSucc(n: nat, w: nat)
    ensures (n + 1) * w == n * w + w
  {
  }

  /** The slice of `a + b` after `a` is `b`. */
  lemma SliceOfAppendRight(a: seq<string>, b: seq<string>)
    ensures (a + b)[|a|..|a| + |b|] == b
  {
  }

  /** Sections all `w` lines long, concatenated, put section `i` at line `i * w`. */
  lemma {:induction false} ConcatSections(f: string -> seq<string>, names: seq<string>, w: nat)
    requires forall n :: |f(n)| == w
    ensures var lines := Concat(f, names);
      |lines| == |names| * w &&
      forall i :: 0 <= i < |names| ==> i * w + w <= |lines| && lines[i * w..i * w + w] == f(names[i])
    decreases |names|
  {
    if names != [] {
      var init, last := names[..|names| - 1], names[|names| - 1];
      ConcatSections(f, init, w);
      assert names == init + [last];
      SectionsSnoc(Concat(f, init), f(last), init, last, w, f);
    }
  }

  /** Every repository's section has the length `SectionLength` gives. */
  lemma SectionsUniform(verbosity: int, verb: string, argv: seq<string>)
    ensures forall n :: |SectionOf(verbosity, verb, argv)(n)| == SectionLength(verbosity)
  {
    forall n
      ensures |SectionOf(verbosity, verb, argv)(n)| == SectionLength(verbosity)
    {
      SectionShape(verbosity, verb, argv, n);
    }
  }

  /** The loop prints one section per repository, in order, each of the same length. */
  lemma RepoSections(verbosity: int, verb: string, argv: seq<string>, names: seq<string>)
    ensures var lines, w := RepoOutputs(verbosity, verb, argv, names), SectionLength(verbosity);
      |lines| == |names| * w &&
      forall i :: 0 <= i < |names| ==>
        i * w + w <= |lines| && lines[i * w..i * w + w] == RepoOutput(verbosity, verb, argv, names[i])
  {
    var f, w := SectionOf(verbosity, verb, argv), SectionLength(verbosity);
    SectionsUniform(verbosity, verb, argv);
    ConcatSections(f, names, w);
    forall i | 0 <= i < |names|
      ensures f(names[i]) == RepoOutput(verbosity, verb, argv, names[i])
    {
    }
  }

  /** Line `j` of a section that starts at line `i * w`. */
  lemma SectionLine(lines: seq<string>, section: seq<string>, i: nat, w: nat, j: nat)
    requires i * w + w <= |lines| && lines[i * w..i * w + w] == section && j < w
    ensures i * w + j < |lines| && lines[i * w + j] == section[j]
  {
    assert lines[i * w..i * w + w][j] == section[j];
  }

  /**
   * At verbosity 0 or less the loop prints nothing; otherwise the third line
   * of the section of the `i`th repository is the banner naming the verb and
   * that repository, and above verbosity 2 the command line follows the
   * banner.
   */
  lemma RepoOutputsShape(verbosity: int, verb: string, argv: seq<string>, names: seq<string>)
    ensures var lines, w := RepoOutputs(verbosity, verb, argv, names), SectionLength(verbosity);
      |lines| == |names| * w &&
      (!ShowHeader(verbosity) ==> lines == []) &&
      (forall i :: 0 <= i < |names| ==> i * w + w <= |lines|) &&
      (ShowHeader(verbosity) ==> forall i :: 0 <= i < |names| ==>
        i * w + 2 < |lines| && lines[i * w + 2] == TitleLine(verb + " " + names[i])) &&
      (ShowDebug(verbosity) ==> forall i :: 0 <= i < |names| ==>
        i * w + 5 < |lines| && lines[i * w + 5] == Words(argv))
  {
    var lines, w := RepoOutputs(verbosity, verb, argv, names), SectionLength(verbosity);
    RepoSections(verbosity, verb, argv, names);
    if !ShowHeader(verbosity) {
      assert |names| * w == 0;
    }
    forall i | 0 <= i < |names|
      ensures ShowHeader(verbosity) ==> i * w + 2 < |lines| && lines[i * w + 2] == TitleLine(verb + " " + names[i])
      ensures ShowDebug(verbosity) ==> i * w + 5 < |lines| && lines[i * w + 5] == Words(argv)
    {
      SectionMarks(lines, verbosity, verb, argv, names[i], i);
    }
  }

  /** The banner and the command line of the section of `repo`, found at their places in `lines`. */
  lemma SectionMarks(lines: seq<string>, verbosity: int, verb: string, argv: seq<string>, repo: string, i: nat)
    requires var w := SectionLength(verbosity);
      i * w + w <= |lines| && lines[i * w..i * w + w] == RepoOutput(verbosity, verb, argv, repo)
    ensures var w := SectionLength(verbosity);
      (ShowHeader(verbosity) ==> i * w + 2 < |lines| && lines[i * w + 2] == TitleLine(verb + " " + repo)) &&
      (ShowDebug(verbosity) ==> i * w + 5 < |lines| && lines[i * w + 5] == Words(argv))
  {
    var w := SectionLength(verbosity);
    SectionShape(verbosity, verb, argv, repo);
    if ShowHeader(verbosity) {
      SectionLine(lines, RepoOutput(verbosity, verb, argv, repo), i, w, 2);
    }
    if ShowDebug(verbosity) {
      SectionLine(lines, RepoOutput(verbosity, verb, argv, repo), i, w, 5);
    }
  }

  /** One more round of the loop adds one run to the trace. */
  lemma InvocationsSnoc(goal: string, opts: seq<string>, gitDir: Path, names: seq<string>, i: nat,
                        env: map<string, string>)
    requires i < |names|
    ensures Invocations(goal, opts, gitDir, names[..i + 1], env) ==
      Invocations(goal, opts, gitDir, names[..i], env) + [Run(MavenArgv(goal, opts), Join(gitDir, names[i]), env)]
  {
    assert names[..i + 1][..i] == names[..i];
  }

  /** One more round of the loop adds the section of that repository to what was printed. */
  lemma RepoOutputsSnoc(verbosity: int, verb: string, argv: seq<string>, names: seq<string>, i: nat)
    requires i < |names|
    ensures RepoOutputs(verbosity, verb, argv, names[..i + 1]) ==
      RepoOutputs(verbosity, verb, argv, names[..i]) + RepoOutput(verbosity, verb, argv, names[i])
  {
    var f := SectionOf(verbosity, verb, argv);
    assert names[..i + 1][..i] == names[..i] && names[..i + 1][i] == names[i];
    assert Concat(f, names[..i + 1]) == Concat(f, names[..i]) + f(names[i]);
  }

  /** A round of the loop that runs Maven in `names[i]` carries what was run and printed from `i` repositories to `i + 1`. */
  lemma InvokeStep(trace0: seq<Event>, out0: seq<string>, goal: string, verb: string, verbosity: int,
                   opts: seq<string>, gitDir: Path, names: seq<string>, i: nat, env: map<string, string>,
                   trace: seq<Event>, out: seq<string>, trace': seq<Event>, out': seq<string>)
    requires i < |names|
    requires trace == trace0 + Invocations(goal, opts, gitDir, names[..i], env)
    requires out == out0 + RepoOutputs(verbosity, verb, MavenArgv(goal, opts), names[..i])
    requires trace' == trace + [Run(MavenArgv(goal, opts), Join(gitDir, names[i]), env)]
    requires out' == out + RepoOutput(verbosity, verb, MavenArgv(goal, opts), names[i])
    ensures trace' == trace0 + Invocations(goal, opts, gitDir, names[..i + 1], env)
    ensures out' == out0 + RepoOutputs(verbosity, verb, MavenArgv(goal, opts), names[..i + 1])
  {
    InvocationsSnoc(goal, opts, gitDir, names, i, env);
    RepoOutputsSnoc(verbosity, verb, MavenArgv(goal, opts), names, i);
    AppendAssoc(trace0, Invocations(goal, opts, gitDir, names[..i], env), [Run(MavenArgv(goal, opts), Join(gitDir, names[i]), env)]);
    AppendAssoc(out0, RepoOutputs(verbosity, verb, MavenArgv(goal, opts), names[..i]),
                RepoOutput(verbosity, verb, MavenArgv(goal, opts), names[i]));
  }

  /** One round of the loop: the banner, Maven run in the repository's directory, the closing rule. */
  method InvokeIn(s: Session, verb: string, verbosity: int, argv: seq<string>, repoDir: Path, name: string,
                  env: map<string, string>)
    modifies s
    ensures s.trace == old(s.trace) + [Run(argv, repoDir, env)]
    ensures s.out == old(s.out) + RepoOutput(verbosity, verb, argv, name)
    ensures s.fs == old(s.fs) && s.ctx == old(s.ctx) && s.err == old(s.err)
  {
    s.out := s.out + Header(verbosity, verb + " " + name);
    Call(s, argv, repoDir, env, ShowDebug(verbosity));
    s.out := s.out + Footer(verbosity);
  }

  /** Runs Maven with `goal` in every repository of `names` in turn. */
  method InvokeAll(s: Session, goal: string, verb: string, verbosity: int, opts: seq<string>,
                   gitDir: Path, names: seq<string>, env: map<string, string>)
    modifies s
    ensures s.trace == old(s.trace) + Invocations(goal, opts, gitDir, names, env)
    ensures s.out == old(s.out) + RepoOutputs(verbosity, verb, MavenArgv(goal, opts), names)
    ensures s.fs == old(s.fs) && s.ctx == old(s.ctx) && s.err == old(s.err)
  {
    var argv := MavenArgv(goal, opts);
    for i := 0 to |names|
      invariant s.trace == old(s.trace) + Invocations(goal, opts, gitDir, names[..i], env)
      invariant s.out == old(s.out) + RepoOutputs(verbosity, verb, argv, names[..i])
      invariant s.fs == old(s.fs) && s.ctx == old(s.ctx) && s.err == old(s.err)
    {
      ghost var trace1, out1 := s.trace, s.out;
      InvokeIn(s, verb, verbosity, argv, Join(gitDir, names[i]), names[i], env);
      InvokeStep(old(s.trace), old(s.out), goal, verb, verbosity, opts, gitDir, names, i, env, trace1, out1, s.trace, s.out);
    }
    assert names[..|names|] == names;
  }

  // ------------------------------------------------------------ the elapsed time

  /** A number below 100 with two digits, a leading zero for those below 10. */
  function TwoDigits(x: nat): (r: string)
    requires x < 100
    ensures |r| == 2 && AllDigits(r) && DigitsValue(r) == x
  {
    if x < 10 then
      assert DigitsValue("0") == 0;
      assert ("0" + Decimal(x))[..1] == "0";
      "0" + Decimal(x)
    else
      DecimalValue(x);
      Decimal(x)
  }

  /** The days of a `timedelta`, as its `str` writes them before the time of day. */
  function DaysPrefix(days: nat): string {
    if days == 0 then "" else Decimal(days) + (if days == 1 then " day, " else " days, ")
  }

  /** The `H:MM:SS` part of a `timedelta`'s `str`, for the seconds within the day. */
  function TimeOfDay(rest: nat): string {
    var minutes := rest / 60;
    Decimal(minutes / 60) + ":" + TwoDigits(minutes % 60) + ":" + TwoDigits(rest % 60)
  }

  /** `str(datetime.timedelta(seconds=n))` for a whole number of seconds. */
  function Clock(n: nat): string {
    DaysPrefix(n / 86400) + TimeOfDay(n % 86400)
  }

  /**
   * Under a day the clock is `H:MM:SS`: hours without a leading zero, then
   * minutes and seconds in two digits each, which read back as `n`.
   */
  lemma ClockReadsBack(n: nat)
    requires n < 86400
    ensures var c := Clock(n); var k := |c|;
      k >= 7 && c[k - 6] == ':' && c[k - 3] == ':' &&
      AllDigits(c[..k - 6]) && AllDigits(c[k - 5..k - 3]) && AllDigits(c[k - 2..]) &&
      (c[0] == '0' ==> k == 7) &&
      3600 * DigitsValue(c[..k - 6]) + 60 * DigitsValue(c[k - 5..k - 3]) + DigitsValue(c[k - 2..]) == n
  {
    var hours, mm, ss := n / 60 / 60, n / 60 % 60, n % 60;
    HoursMinutesSeconds(n);
    ClockUnderADay(n);
    ColonFields(Decimal(hours), TwoDigits(mm), TwoDigits(ss));
    DecimalValue(hours);
  }

  /** A number of seconds is its hours, minutes and seconds. */
  lemma HoursMinutesSeconds(n: nat)
    ensures n == 3600 * (n / 60 / 60) + 60 * (n / 60 % 60) + n % 60
  {
    var minutes := n / 60;
    assert n == 60 * minutes + n % 60;
    assert minutes == 60 * (minutes / 60) + minutes % 60;
  }

  lemma ClockUnderADay(n: nat)
    requires n < 86400
    ensures Clock(n) == Decimal(n / 60 / 60) + ":" + TwoDigits(n / 60 % 60) + ":" + TwoDigits(n % 60)
  {
    assert n / 86400 == 0 && n % 86400 == n;
    assert DaysPrefix(0) == "";
  }

  /** Where the fields of `h:mm:ss` sit when minutes and seconds take two characters each. */
  lemma ColonFields(h: string, m: string, sec: string)
    requires |m| == 2 && |sec| == 2
    ensures var c := h + ":" + m + ":" + sec; var k := |c|;
      k == |h| + 6 && c[k - 6] == ':' && c[k - 3] == ':' &&
      c[..k - 6] == h && c[k - 5..k - 3] == m && c[k - 2..] == sec
  {
  }

  /** A day or more is written with the number of days first, in the plural except for one. */
  lemma ClockDays(n: nat)
    requires n >= 86400
    ensures var days := Decimal(n / 86400); var c := Clock(n);
      c[..|days|] == days &&
      (n / 86400 == 1 ==> c[|days|..|days| + 6] == " day, ") &&
      (n / 86400 > 1 ==> c[|days|..|days| + 7] == " days, ")
  {
    var d := n / 86400;
    var sep := if d == 1 then " day, " else " days, ";
    assert DaysPrefix(d) == Decimal(d) + sep;
    SlicesOfThree(Decimal(d), sep, TimeOfDay(n % 86400));
  }

  /** The first two parts of `a + b + c` are where they were put. */
  lemma SlicesOfThree(a: string, b: string, c: string)
    ensures (a + b + c)[..|a|] == a && (a + b + c)[|a|..|a| + |b|] == b
  {
  }

  // ------------------------------------------------------------ desktop notifications

  const DesktopTitle := "Vaani build"
  const CompletedPrefix := "Completed in "
  const WarningPrefix := "[Warning] Could not generate notification! "

  /** The back end `notify` chooses for `sys.platform`, as its table is written. */
  function PlatformHandlerAsWritten(platform: string): Option<Handler> {
    if platform == "linux" || platform == "linux2" then Some(LinuxHandler)
    else if platform == "win" then Some(WinHandler)
    else if platform == "darwin" then Some(DarwinHandler)
    else None
  }

  /** The table with Windows under the name `sys.platform` has there, `"win32"`. */
  function PlatformHandler(platform: string): (h: Option<Handler>)
    ensures platform == "win32" ==> h == Some(WinHandler)
    ensures platform != "win32" ==> h == PlatformHandlerAsWritten(platform)
  {
    if platform == "win32" then Some(WinHandler) else PlatformHandlerAsWritten(platform)
  }

  /** On Windows the table as written finds no back end, so a build there is never announced. */
  lemma WindowsMissedAsWritten()
    ensures PlatformHandlerAsWritten("win32") == None
    ensures PlatformHandler("win32") == Some(WinHandler)
  {
  }

  /** The notification `notify(title, text)` shows. */
  function NotifyEvents(platform: string, failure: Handler -> Option<string>, title: string,
                        text: string): seq<Event> {
    match PlatformHandler(platform)
    case None => []
    case Some(h) => if failure(h).None? then [Notification(h, title, text)] else []
  }

  /** The warning `notify(title, text)` prints when the back end raises. */
  function NotifyWarnings(platform: string, failure: Handler -> Option<string>, title: string,
                          text: string): seq<string> {
    match PlatformHandler(platform)
    case None => []
    case Some(h) => if failure(h).Some? then [WarningPrefix + failure(h).value] else []
  }

  /**
   * On a platform without a back end nothing happens; otherwise exactly one
   * of two things does: the back end shows the notification, or what it
   * raised is reported on stderr behind the warning prefix.
   */
  lemma NotifyReportsOnce(platform: string, failure: Handler -> Option<string>, title: string, text: string)
    ensures var events, warnings := NotifyEvents(platform, failure, title, text),
      NotifyWarnings(platform, failure, title, text);
      (PlatformHandler(platform).None? ==> events == [] && warnings == []) &&
      (PlatformHandler(platform).Some? ==> |events| + |warnings| == 1) &&
      (events != [] <==> PlatformHandler(platform).Some? && failure(PlatformHandler(platform).value).None?) &&
      (events != [] ==> events == [Notification(PlatformHandler(platform).value, title, text)]) &&
      (warnings != [] ==> warnings[0][..|WarningPrefix|] == WarningPrefix)
  {
  }

  /** `notify(title, text)`: a failing back end is reported, never propagated. */
  method Notify(s: Session, title: string, text: string)
    modifies s
    ensures s.trace == old(s.trace) + NotifyEvents(s.platform, s.handlerFailure, title, text)
    ensures s.err == old(s.err) + NotifyWarnings(s.platform, s.handlerFailure, title, text)
    ensures s.fs == old(s.fs) && s.ctx == old(s.ctx) && s.out == old(s.out)
  {
    var func := PlatformHandler(s.platform);
    if func.Some? {
      var failure := s.handlerFailure(func.value);
      if failure.None? {
        s.trace := s.trace + [Notification(func.value, title, text)];
      } else {
        s.err := s.err + [WarningPrefix + failure.value];
      }
    }
  }

  function DoneText(elapsed: nat): string {
    CompletedPrefix + Clock(elapsed)
  }

  function DoneEvents(platform: string, failure: Handler -> Option<string>, elapsed: nat): seq<Event> {
    if elapsed > 30 then NotifyEvents(platform, failure, DesktopTitle, DoneText(elapsed)) else []
  }

  function DoneWarnings(platform: string, failure: Handler -> Option<string>, elapsed: nat): seq<string> {
    if elapsed > 30 then NotifyWarnings(platform, failure, DesktopTitle, DoneText(elapsed)) else []
  }

  /**
   * Builds of at most 30 seconds are never announced; a longer one is, on a
   * platform with a back end, by a notification titled "Vaani build" that
   * gives the time it took, or by the warning if the back end fails.
   */
  lemma DonePolicy(platform: string, failure: Handler -> Option<string>, elapsed: nat)
    ensures var events, warnings := DoneEvents(platform, failure, elapsed), DoneWarnings(platform, failure, elapsed);
      (events != [] || warnings != [] <==> elapsed > 30 && PlatformHandler(platform).Some?) &&
      (events != [] ==> events == [Notification(PlatformHandler(platform).value, "Vaani build",
                                                "Completed in " + Clock(elapsed))])
  {
    if elapsed > 30 {
      NotifyReportsOnce(platform, failure, DesktopTitle, DoneText(elapsed));
    }
  }

  /** `notify_build_done(elapsed)`. */
  method NotifyBuildDone(s: Session, elapsed: nat)
    modifies s
    ensures s.trace == old(s.trace) + DoneEvents(s.platform, s.handlerFailure, elapsed)
    ensures s.err == old(s.err) + DoneWarnings(s.platform, s.handlerFailure, elapsed)
    ensures s.fs == old(s.fs) && s.ctx == old(s.ctx) && s.out == old(s.out)
  {
    if elapsed > 30 {
      Notify(s, DesktopTitle, DoneText(elapsed));
    }
  }

  // ------------------------------------------------------------ the commands

  /** The bootstrap commands the guard dispatches: none once the context says bootstrapped. */
  function GuardWork(fs: FileSystem, c: Context): seq<Bootstrap>
    requires c.Ready()
  {
    if c.bootstrapped == Some(true) then []
    else GuardPlan(fs, c.mavenDir.value, c.m2repoDir.value, c.gitDir.value)
  }

  /** The Maven runs `maven(repository, goal, …)` starts for context `c`. */
  function MavenRuns(c: Context, environ: map<string, string>, repository: string, goal: string,
                     verbosity: int): seq<Event>
    requires c.Ready()
  {
    Invocations(goal, MavenOptions(c.m2repoDir.value, verbosity), c.gitDir.value,
                Selected(repository, c.repos.value), BuildEnv(environ))
  }

  /** The lines the loop of `maven(repository, goal, verb, …)` prints for context `c`. */
  function MavenLines(c: Context, repository: string, goal: string, verb: string, verbosity: int): seq<string>
    requires c.Ready()
  {
    RepoOutputs(verbosity, verb, MavenArgv(goal, MavenOptions(c.m2repoDir.value, verbosity)),
                Selected(repository, c.repos.value))
  }

  /**
   * The state `maven(repository, goal, verb, verbosity)` leaves, from
   * filesystem `fs0`, context `ctx0` and outputs `trace0`, `out0`,
   * `err0`: the filesystem as it was, the context marked bootstrapped;
   * the guard's dispatches, then the Maven runs, then the notification;
   * the guard's announcements, the sections of the loop and the closing
   * banner with the elapsed time; the notification warning, if any.
   */
  ghost predicate MavenDone(s: Session, fs0: FileSystem, ctx0: Context, trace0: seq<Event>, out0: seq<string>,
                            err0: seq<string>, repository: string, goal: string, verb: string,
                            verbosity: int, elapsed: nat)
    reads s
  {
    ctx0.Ready() &&
    var guard, notify := GuardWork(fs0, ctx0), ShowResult(verbosity);
    s.fs == fs0 && s.ctx == ctx0.(bootstrapped := Some(true)) &&
    s.trace == trace0 + Dispatches(guard) + MavenRuns(ctx0, s.environ, repository, goal, verbosity) +
      (if notify then DoneEvents(s.platform, s.handlerFailure, elapsed) else []) &&
    s.out == out0 + Announcements(guard) + MavenLines(ctx0, repository, goal, verb, verbosity) +
      Header(verbosity, DoneText(elapsed)) &&
    s.err == err0 + (if notify then DoneWarnings(s.platform, s.handlerFailure, elapsed) else [])
  }

  /** The `ensure_bootstrapped` call `maven` starts with: the work of `GuardWork`, then the context marked bootstrapped. */
  method BootstrapFirst(s: Session)
    requires s.Ready()
    modifies s
    ensures s.Ready() && s.ctx == old(s.ctx).(bootstrapped := Some(true))
    ensures s.trace == old(s.trace) + Dispatches(GuardWork(old(s.fs), old(s.ctx)))
    ensures s.out == old(s.out) + Announcements(GuardWork(old(s.fs), old(s.ctx)))
    ensures s.fs == old(s.fs) && s.err == old(s.err)
  {
    ghost var c0, trace0, out0 := s.ctx, s.trace, s.out;
    assert c0.Ready();
    EnsureBootstrapped(s);
    if c0.bootstrapped == Some(true) {
      assert c0.(bootstrapped := Some(true)) == c0;
      assert GuardWork(old(s.fs), c0) == [];
      assert Dispatches([]) == [] && Announcements([]) == [];
      assert trace0 + [] == trace0 && out0 + [] == out0;
    } else {
      assert c0.bootstrapped.value == false;
    }
  }

  /**
   * `maven(repository, goal, verb, verbosity)`, where the loop took
   * `elapsed` whole seconds.
   */
  method Maven(s: Session, repository: string, goal: string, verb: string, verbosity: int, elapsed: nat)
    requires s.Ready()
    modifies s
    ensures MavenDone(s, old(s.fs), old(s.ctx), old(s.trace), old(s.out), old(s.err), repository, goal, verb,
                      verbosity, elapsed)
  {
    ghost var fs0, c0, guard := s.fs, s.ctx, GuardWork(s.fs, s.ctx);
    ghost var trace0, out0, err0 := s.trace, s.out, s.err;
    BootstrapFirst(s);
    var opts := MavenOptions(s.M2repoDir(), verbosity);
    var names := Selected(repository, s.Repos());
    InvokeAll(s, goal, verb, verbosity, opts, s.GitDir(), names, BuildEnv(s.environ));
    assert s.trace == trace0 + Dispatches(guard) + MavenRuns(c0, s.environ, repository, goal, verbosity);
    s.out := s.out + Header(verbosity, DoneText(elapsed));
    assert s.out == out0 + Announcements(guard) + MavenLines(c0, repository, goal, verb, verbosity) +
      Header(verbosity, DoneText(elapsed));
    if ShowResult(verbosity) {
      NotifyBuildDone(s, elapsed);
    }
  }

  /** `build repository`: Maven's `install` goal. */
  method Build(s: Session, repository: string, verbosity: int, elapsed: nat)
    requires s.Ready()
    modifies s
    ensures MavenDone(s, old(s.fs), old(s.ctx), old(s.trace), old(s.out), old(s.err), repository, "install",
                      "Building", verbosity, elapsed)
  {
    Maven(s, repository, "install", "Building", verbosity, elapsed);
  }

  /** `clean repository`: Maven's `clean` goal. */
  method Clean(s: Session, repository: string, verbosity: int, elapsed: nat)
    requires s.Ready()
    modifies s
    ensures MavenDone(s, old(s.fs), old(s.ctx), old(s.trace), old(s.out), old(s.err), repository, "clean",
                      "Cleaning", verbosity, elapsed)
  {
    Maven(s, repository, "clean", "Cleaning", verbosity, elapsed);
  }

  /** The stage an event belongs to in a build: dispatches, then Maven runs, then the notification. */
  function Stage(e: Event): nat {
    match e
    case Dispatch(_) => 0
    case Run(_, _, _) => 1
    case Notification(_, _, _) => 2
    case Fetch(_) => 3
  }

  /** A trace made of dispatches, then runs, then notifications is ordered by stage. */
  lemma StagesInOrder(d: seq<Event>, r: seq<Event>, n: seq<Event>)
    requires forall i :: 0 <= i < |d| ==> d[i].Dispatch?
    requires forall i :: 0 <= i < |r| ==> r[i].Run?
    requires forall i :: 0 <= i < |n| ==> n[i].Notification?
    ensures var t := d + r + n; forall i, j :: 0 <= i < j < |t| ==> Stage(t[i]) <= Stage(t[j])
  {
    var t := d + r + n;
    forall i | 0 <= i < |t|
      ensures Stage(t[i]) == if i < |d| then 0 else if i < |d| + |r| then 1 else 2
    {
      if i < |d| {
        assert t[i] == d[i];
      } else if i < |d| + |r| {
        assert t[i] == r[i - |d|];
      } else {
        assert t[i] == n[i - |d| - |r|];
      }
    }
  }

  /**
   * What `maven` adds to the trace comes in stages: every bootstrap
   * dispatch before the first Maven run, every Maven run before the
   * notification; there is one run per selected repository, all of them
   * with the same command line, and at most one notification.
   */
  lemma MavenTraceStages(fs: FileSystem, c: Context, environ: map<string, string>, platform: string,
                         failure: Handler -> Option<string>, repository: string, goal: string,
                         verbosity: int, elapsed: nat, notify: bool)
    requires c.Ready()
    ensures var guard := GuardWork(fs, c);
      var runs := MavenRuns(c, environ, repository, goal, verbosity);
      var t := Dispatches(guard) + runs + (if notify then DoneEvents(platform, failure, elapsed) else []);
      (forall i, j :: 0 <= i < j < |t| ==> Stage(t[i]) <= Stage(t[j])) &&
      |runs| == |Selected(repository, c.repos.value)| &&
      (forall i :: 0 <= i < |runs| ==> runs[i].Run? && runs[i].argv == ["mvn", goal] + MavenOptions(c.m2repoDir.value, verbosity)) &&
      |t| <= |guard| + |runs| + 1
  {
    var opts := MavenOptions(c.m2repoDir.value, verbosity);
    var d := Dispatches(GuardWork(fs, c));
    var r := MavenRuns(c, environ, repository, goal, verbosity);
    var n := if notify then DoneEvents(platform, failure, elapsed) else [];
    InvocationsShape(goal, opts, c.gitDir.value, Selected(repository, c.repos.value), BuildEnv(environ));
    assert forall i :: 0 <= i < |r| ==> r[i].Run? && r[i].argv == ["mvn", goal] + opts;
    NotifyReportsOnce(platform, failure, DesktopTitle, DoneText(elapsed));
    assert |n| <= 1 && forall i :: 0 <= i < |n| ==> n[i].Notification?;
    assert forall i :: 0 <= i < |d| ==> d[i].Dispatch?;
    StagesInOrder(d, r, n);
  }
}
