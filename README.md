# vaanisdk mach commands, modelled in Dafny

This project models the `mach` commands of the vaanisdk build helper. They
bootstrap and build the openHAB repositories:

- `wipe-all` removes the shared directory and the git checkouts.
- `bootstrap-maven` downloads the Maven 3.3.9 archive, unpacks it and moves
  its top folder into place.
- `bootstrap-m2repo` reads the latest release page, works out the URL of the
  pre-populated local Maven repository archive, downloads it and unpacks it.
- `bootstrap-git` wipes, recreates and clones the repositories of the
  catalogue (or one named repository). Checkouts that are already present
  are skipped unless `--force` is given.
- `bootstrap` runs the three bootstrap commands in turn.
- `build` and `clean` first run the bootstrap guard
  (`ensure_bootstrapped`). They then run `mvn install` or `mvn clean` in
  each selected checkout. A build that took longer than 30 seconds ends with
  a desktop notification.

It also models the helpers these commands share:

- `download`, `download_file`, `download_bytes`, `extract` and `mkdir_p`;
- the verbosity predicates and the banner printing;
- `normalize_env`, `build_env` and `call`;
- the defaults `CommandBase.__init__` fills into the mach context.

The world outside the process is modelled through a `Session` object (module
`Host`):

- The filesystem is a map from paths (component sequences) to files and
  directories. The `os` and `shutil` calls are pure functions on it, in module
  `Files`. A failing call returns the `OSError` it would raise.
- What the process prints goes into `out` and `err`.
- External effects are recorded, in order, in `trace`: HTTP requests, mach
  subcommand dispatches, subprocesses and notifications.
- The network's answers, the archive reader, the release-page pattern match
  and the notification back ends' failures are fixed functions the session
  is given.
- An exception that leaves a command is a `Stopped(abort)` status. This
  covers `sys.exit`, Ctrl-C, `OSError`, a `tarfile` read error and uncaught
  `urllib2` errors.

Modules:

- `Wrappers`: `Option` and `Result`.
- `Files`: the filesystem and the `os` / `shutil` calls.
- `Utf8`: the UTF-8 encoding of RFC 3629, section 3, which `normalize_env`
  applies.
- `Host`: the context, the session and file writers.
- `CommandBase`: command_base.py.
- `Fetcher`: the download and extract helpers of bootstrap_commands.py.
- `BootstrapCommands`: the bootstrap commands.
- `BuildCommands`: build_commands.py.

## Model

| member | source | states |
|---|---|---|
| Files.Join | python/vaani/bootstrap_commands.py:101-102 | `path.join(p, n)` is a one-component extension of `p` ending in `n` |
| Files.ListDir | python/vaani/bootstrap_commands.py:100 | `os.listdir(d)` holds exactly the first components below `d` of the paths under it |
| Files.RemoveTree | python/vaani/bootstrap_commands.py:135 | `shutil.rmtree(root)` removes exactly the paths at or below `root` and changes nothing else |
| Files.Rebase | python/vaani/bootstrap_commands.py:103 | moving a path from under `frm` to under `to` keeps its part below the old root |
| Files.MoveTree | python/vaani/bootstrap_commands.py:103 | a rename carries every path under `frm` to the same place under `to`, keeps every path outside both trees and leaves nothing under `frm` |
| Files.Rename | python/vaani/bootstrap_commands.py:87 | `os.rename` succeeds only on an existing source; renaming a path onto itself changes nothing, and otherwise it moves the tree |
| Files.Remove | python/vaani/bootstrap_commands.py:106 | `os.remove` succeeds exactly on a file and removes only it |
| Files.Rmdir | python/vaani/bootstrap_commands.py:104 | `os.rmdir` succeeds exactly on an empty directory and removes only it |
| Files.MakeDirs | python/vaani/bootstrap_commands.py:186 | `os.makedirs` succeeds exactly when the path is absent and no prefix is a file, and adds just the missing prefixes as directories; an existing path fails with `EEXIST` |
| Files.Graft | python/vaani/bootstrap_commands.py:97 | `extractall(dst)` adds every archive entry below `dst`, overwriting what was there, and keeps everything else |
| Utf8.DecodeEncode | python/vaani/command_base.py:50-54 | UTF-8 encoding as `normalize_env` applies it can be decoded back to the text |
| Utf8.EncodeInjective | python/vaani/command_base.py:50-54 | two different texts never get the same encoding |
| Utf8.DecodeEncodeScalar | python/vaani/command_base.py:50-54 | the lead byte of each encoded character tells the length of its sequence, and the sequence decodes back to the character |
| CommandBase.VerbosityLadder | python/vaani/command_base.py:76-92 | the verbosity thresholds are 1 for headers, progress, results and errors, 2 for help and 3 for debug output, and they are nested |
| CommandBase.Repeat | python/vaani/command_base.py:95 | `"*" * n` is `n` copies of the character |
| CommandBase.Truncate | python/vaani/command_base.py:100 | `title[:78]` is a prefix of the title of at most 78 characters, the title itself when short enough |
| CommandBase.CenterTo78 | python/vaani/command_base.py:103 | `title.center(78)` is 78 characters wide, holds the title at offset `(78 - len) / 2` and spaces elsewhere, with the right margin at most one wider |
| CommandBase.BannerShape | python/vaani/command_base.py:97-111 | the header is quiet below verbosity 1; otherwise it is five lines, a 100-star rule above and below the title line with blank lines around; the title line starts with ten stars and a space, holds the centred cut title, and is 100 wide unless the softspace rule swallows a space; a footer is one rule |
| CommandBase.NormalizeEnv | python/vaani/command_base.py:43-58 | the keys of the result are the encoded keys; each value is the encoded value of the key that maps to it; everything in the result is bytes |
| CommandBase.EveryEntryKept | python/vaani/command_base.py:43-58 | when all keys are text, or all are bytes, no two keys collide, so no entry is lost |
| CommandBase.GetEnvBool | python/vaani/command_base.py:129-133 | `"True"` and `"False"` are read as booleans; anything else, or no value, gives the default |
| CommandBase.BuildEnv | python/vaani/command_base.py:187-201 | the build environment is the process environment with `MAVEN_OPTS` and `MAVEN_SKIP_RC=true` set and every other variable unchanged |
| CommandBase.Call | python/vaani/command_base.py:33-40 | `call` records one subprocess and, when verbose, prints the command line |
| CommandBase.InitCommandBase | python/vaani/command_base.py:142-167 | every context attribute keeps a value it already has and otherwise gets its default; a complete context is left as it was |
| CommandBase.GuardPlan | python/vaani/command_base.py:207-217 | a bootstrap command is dispatched exactly when its directory is missing, in the order maven, m2repo, git |
| CommandBase.GuardAppend | python/vaani/command_base.py:207-217 | the dispatches and announcements of two guard steps are those of each step, in order |
| CommandBase.Guard | python/vaani/command_base.py:207-209 | one guard step announces and dispatches its command only when the directory is missing |
| CommandBase.EnsureBootstrapped | python/vaani/command_base.py:203-219 | a bootstrapped context is left alone; otherwise the missing directories' commands are announced and dispatched in order and the context is marked bootstrapped |
| Fetcher.Decimal | python/vaani/bootstrap_commands.py:39 | `'{}'.format(n)` writes digits only, starting with `0` only for zero |
| Fetcher.DecimalValue | python/vaani/bootstrap_commands.py:39 | the digits written denote the number |
| Fetcher.RangeHeaderRoundTrip | python/vaani/bootstrap_commands.py:39 | the `Range` value `bytes=N-` reads back as an open range from `N` |
| Fetcher.DownloadRequest | python/vaani/bootstrap_commands.py:38-40 | the request goes to the URL and has a `Range` header exactly when resuming, asking for everything from the bytes already there |
| Fetcher.ChunksShape | python/vaani/bootstrap_commands.py:47-50 | reading with `read(8192)` returns the whole body in non-empty chunks of 8192 bytes, except that the last may be shorter |
| Fetcher.ReceivedPrefix | python/vaani/bootstrap_commands.py:49-60 | what arrives before a Ctrl-C is a prefix of the body, and all of it when there is none |
| Fetcher.FailureMessage | python/vaani/bootstrap_commands.py:65 | the HTTP failure line starts with `Download failed (` and the code, and ends with the URL |
| Fetcher.ResumedFailureHidesUrl | python/vaani/bootstrap_commands.py:38-39 | after line 39 replaces `src` by a request object, a resumed download's failure line does not end with the URL |
| Fetcher.HintOnlyFor403 | python/vaani/bootstrap_commands.py:64-68 | the missing-binary hint is printed exactly on HTTP 403 |
| Fetcher.Stream | python/vaani/bootstrap_commands.py:49-60 | the read loop writes the delivered chunks in order, counts their bytes, and is interrupted exactly when Ctrl-C falls within the reads |
| Fetcher.Download | python/vaani/bootstrap_commands.py:30-75 | `download` sends one request, prints the opening line and the failure lines, writes what arrived, flushes on Ctrl-C, and ends with `sys.exit(1)` on HTTP or URL errors and re-raises Ctrl-C |
| Fetcher.PartPath | python/vaani/bootstrap_commands.py:79 | the `.part` path differs from the target and neither lies under the other |
| Fetcher.FetchPart | python/vaani/bootstrap_commands.py:79-86 | an existing `.part` file is resumed from its size and otherwise a fresh one is written; a directory in its place fails; the `.part` file ends up holding the old bytes plus those received |
| Fetcher.RenamePart | python/vaani/bootstrap_commands.py:87 | the rename of the `.part` file succeeds exactly when the target is not a directory, and then installs the data there and removes the `.part` file |
| Fetcher.DownloadFile | python/vaani/bootstrap_commands.py:78-87 | `download_file` succeeds exactly when the body arrives and the rename succeeds, installing the old partial bytes plus the body at the target; otherwise the `.part` file keeps what arrived |
| Fetcher.CommitPart | python/vaani/bootstrap_commands.py:87 | the rename step alone: it succeeds exactly when the target is not a directory |
| Fetcher.ResumedDownloadSize | python/vaani/bootstrap_commands.py:78-87 | a 1024-byte partial file resumed with a 3072-byte answer gives a 4096-byte file |
| Fetcher.DownloadBytes | python/vaani/bootstrap_commands.py:90-93 | `download_bytes` requests from offset 0 and returns the whole body on success |
| Fetcher.LiftChildren | python/vaani/bootstrap_commands.py:99-104 | renaming each entry of `movedir` up into `dst` and then removing `movedir` moves every path under it to the same place under `dst` and keeps everything else |
| Fetcher.Extract | python/vaani/bootstrap_commands.py:96-106 | `extract` fails with nothing changed on a missing or unreadable archive; without `movedir` it grafts the entries under `dst` and removes the archive; with one, every path below `movedir` reappears at the same place under `dst` and nothing is left below `movedir` |
| Fetcher.MkdirP | python/vaani/bootstrap_commands.py:108-115 | `mkdir_p` accepts an existing directory, fails on an existing non-directory, and otherwise creates the directory and its missing parents and nothing else |
| Fetcher.MkdirPIdempotent | python/vaani/bootstrap_commands.py:108-115 | a second `mkdir_p` of the same path changes nothing |
| BootstrapCommands.Wipe | python/vaani/bootstrap_commands.py:134-137 | `if path.isdir(d): shutil.rmtree(d)` removes the tree of `d` only when it is a directory |
| BootstrapCommands.WipeAllClears | python/vaani/bootstrap_commands.py:133-138 | after wiping, neither directory remains, nothing is added and nothing outside the directories is removed |
| BootstrapCommands.WipeAll | python/vaani/bootstrap_commands.py:133-138 | `wipe-all` wipes the shared and git directories and prints the closing line |
| BootstrapCommands.ClonesNeeded | python/vaani/bootstrap_commands.py:217-231 | the repositories that get cloned are at most those selected |
| BootstrapCommands.ClonesNeededMembers | python/vaani/bootstrap_commands.py:217-229 | a repository is cloned exactly when it is selected and not skipped, that is, when `--force` is given or its checkout is missing |
| BootstrapCommands.ForceClonesAll | python/vaani/bootstrap_commands.py:219 | with `--force` every selected repository is cloned, in order |
| BootstrapCommands.NothingMissingNothingCloned | python/vaani/bootstrap_commands.py:219 | without `--force`, when every checkout is present nothing is cloned |
| BootstrapCommands.PrepareAllEffect | python/vaani/bootstrap_commands.py:226-229 | wiping and recreating the checkouts succeeds exactly when no file blocks the git directory or a checkout; then each checkout is an empty fresh directory or lies under one, and nothing outside them is lost |
| BootstrapCommands.FailureStops | python/vaani/bootstrap_commands.py:226-229 | once one checkout fails, later repositories change nothing |
| BootstrapCommands.ClonesAppend | python/vaani/bootstrap_commands.py:217-231 | the clone decision is made per repository |
| BootstrapCommands.RepoLinesNoHint | python/vaani/bootstrap_commands.py:220-225 | the per-repository lines never contain the closing `--force` hint |
| BootstrapCommands.ForceHintShown | python/vaani/bootstrap_commands.py:220-233 | the closing `--force` hint appears exactly when several repositories were selected, help is shown and one was skipped |
| BootstrapCommands.GitStep | python/vaani/bootstrap_commands.py:218-231 | one repository is skipped with its message, or it is wiped, recreated and cloned from the mozilla GitHub account in the git directory; the step fails only with an `OSError` |
| BootstrapCommands.CloneAll | python/vaani/bootstrap_commands.py:217-231 | the loop succeeds exactly when nothing blocks the checkouts; then the checkouts are prepared, one clone is run per needed repository in order, and the skip messages are printed |
| BootstrapCommands.BootstrapGit | python/vaani/bootstrap_commands.py:210-234 | `bootstrap-git` works the loop over the catalogue for `all` or the named repository, between its banner and footer |
| BootstrapCommands.UnpackedFolder | python/vaani/bootstrap_commands.py:165-166 | after extracting and renaming `apache-maven-3.3.9`, the Maven directory holds every entry of that folder |
| BootstrapCommands.MavenUnpack | python/vaani/bootstrap_commands.py:165-166 | an unreadable archive fails with nothing changed; success puts the archive's Maven folder at the Maven directory |
| BootstrapCommands.MavenInstall | python/vaani/bootstrap_commands.py:155-166 | the download goes to `maven.tar.gz` in the shared directory from the fixed Apache URL; staging and download failures stop it with their cause; success leaves the archive's folder in place |
| BootstrapCommands.BootstrapMaven | python/vaani/bootstrap_commands.py:147-167 | `bootstrap-maven` skips with its message when the directory exists and no `--force` is given; otherwise it stages, downloads and unpacks between banner and footer; a staging failure, a directory in place of the `.part` file or a download that does not complete stops it after the banner, with no footer, with the download's own output and exit status |
| BootstrapCommands.ReadPage | python/vaani/bootstrap_commands.py:188 | reading the release page gives its body, or the Ctrl-C, HTTP or URL error that escapes |
| BootstrapCommands.M2Url | python/vaani/bootstrap_commands.py:189-192 | the archive URL is `https://github.com` plus the matched path, or the fixed 0.1.0t9 URL when nothing matches |
| BootstrapCommands.GraftHolds | python/vaani/bootstrap_commands.py:199 | after extracting and removing the archive, every entry is in place under the repository directory and everything outside it is kept |
| BootstrapCommands.ReadLatest | python/vaani/bootstrap_commands.py:188 | the release page is fetched with one plain request |
| BootstrapCommands.M2Unpack | python/vaani/bootstrap_commands.py:198-199 | an unreadable archive fails with nothing changed; success leaves every entry under the repository directory |
| BootstrapCommands.M2Fetch | python/vaani/bootstrap_commands.py:188-199 | a failing page read stops before any download; otherwise it downloads from the derived URL, prints the URL when it came from the page, and unpacks |
| BootstrapCommands.M2Install | python/vaani/bootstrap_commands.py:184-199 | the repository directory is wiped and recreated first; a failure there stops it before any request |
| BootstrapCommands.BootstrapM2repo | python/vaani/bootstrap_commands.py:176-200 | `bootstrap-m2repo` skips with its message when the directory exists and no `--force` is given; otherwise it prepares, fetches and unpacks between banner and footer; a staging failure, an error escaping the release-page read, a directory in place of the `.part` file or a download that does not complete stops it after the banner, with no footer |
| BootstrapCommands.Bootstrap | python/vaani/bootstrap_commands.py:243-246 | `bootstrap` fails with an `OSError` when a file blocks a checkout it has to make; without `--force` on a complete tree it changes no file, runs nothing, and prints the git skip lines and then the Maven and repository skip messages inside banners at verbosity 2 |
| BuildCommands.MavenOptions | python/vaani/build_commands.py:130-132 | Maven gets the local repository option, plus `-q` exactly at verbosity 0 |
| BuildCommands.InvocationsShape | python/vaani/build_commands.py:138-141 | there is one `mvn <goal> <opts>` run per repository, in order, each in its checkout under the git directory with the build environment |
| BuildCommands.Selection | python/vaani/build_commands.py:133-141 | `all` runs Maven once per catalogue repository in catalogue order; any other name runs it once, in that checkout |
| BuildCommands.SectionShape | python/vaani/build_commands.py:139-142 | one repository's section is its banner, the command line above verbosity 2, and the footer rule |
| BuildCommands.RepoSections | python/vaani/build_commands.py:138-142 | the loop prints one equally long section per repository, in order |
| BuildCommands.RepoOutputsShape | python/vaani/build_commands.py:138-142 | the loop prints nothing at verbosity 0 or less; otherwise the `i`th section carries the banner `<verb> <repo>`, followed above verbosity 2 by the command line |
| BuildCommands.InvokeAll | python/vaani/build_commands.py:138-142 | the loop starts exactly the planned Maven runs and prints exactly the planned sections |
| BuildCommands.TwoDigits | python/vaani/build_commands.py:144 | minutes and seconds are two digits that read back as the number |
| BuildCommands.ClockReadsBack | python/vaani/build_commands.py:144 | under a day, `str(timedelta(seconds=n))` is `H:MM:SS`; its fields read back as `n`, and the hours have no leading zero |
| BuildCommands.ClockDays | python/vaani/build_commands.py:144 | from a day on, the clock starts with the days, then ` day, ` for one and ` days, ` for more |
| BuildCommands.PlatformHandler | python/vaani/build_commands.py:91-97 | the back-end table, with Windows under `win32` and otherwise as written |
| BuildCommands.WindowsMissedAsWritten | python/vaani/build_commands.py:91-97 | the table as written has no back end for `win32` |
| BuildCommands.NotifyReportsOnce | python/vaani/build_commands.py:97-104 | without a back end nothing happens; with one, exactly one thing happens: the notification is shown, or the back end's message is printed behind the warning prefix |
| BuildCommands.Notify | python/vaani/build_commands.py:87-104 | `notify` shows the notification or prints the warning to stderr, and never propagates the failure |
| BuildCommands.DonePolicy | python/vaani/build_commands.py:80-84 | only builds longer than 30 seconds are announced, under the title `Vaani build`, with the text `Completed in ` and the elapsed time |
| BuildCommands.NotifyBuildDone | python/vaani/build_commands.py:80-84 | `notify_build_done` notifies for builds over 30 seconds and does nothing for others |
| BuildCommands.Maven | python/vaani/build_commands.py:128-146 | `maven` runs the guard, then the Maven runs with their sections, then prints the closing banner with the time, then notifies when results are shown; the model's filesystem is untouched, since the guard's dispatched bootstrap commands are recorded, not run, and the context ends bootstrapped |
| BuildCommands.Build | python/vaani/build_commands.py:119-126 | `build` is `maven` with goal `install` and verb `Building` |
| BuildCommands.Clean | python/vaani/build_commands.py:110-117 | `clean` is `maven` with goal `clean` and verb `Cleaning` |
| BuildCommands.MavenTraceStages | python/vaani/build_commands.py:128-146 | all bootstrap dispatches come before the first Maven run and all runs before the notification; there is one run per selected repository, all with the same command line, and at most one notification |

## Left out

- Files: the filesystem is a map from paths to entries with no invariant that parents exist. Errors that appear only when a parent directory is missing, such as `open` of a `.part` file in a missing directory, are not modelled.
- Files: file sizes, permissions, `errno` values other than those the commands test, and symbolic links are not modelled.
- Fetcher.Download: the output is that of a dumb terminal. On a terminal the source also prints a percentage progress line and a closing newline (floating point, and the `TERM` / `isatty` test of line 35); the model does not.
- Fetcher.Download: the `Content-Length` header is taken already parsed. A malformed header, which raises `ValueError` in the source, is not modelled.
- The network, the `tarfile` reader, the release-page regular expression and the notification back ends are fixed functions the session is given, not modelled internals.
- Dispatching a mach subcommand (`Registrar.dispatch`) is recorded as an event, not executed.
- The exit codes of subprocesses are recorded nowhere: the source ignores them.
- The desktop back ends `notify_linux`, `notify_win` and `notify_darwin` are opaque: only whether they raise, and their message, is modelled.
- BuildCommands.Maven: the elapsed time is a whole number of seconds given as a parameter, since the source reads the clock. A fractional part would add microseconds to the printed time and would let 30.5 seconds pass the `> 30` test.
- BuildCommands.Maven: verbosity is an integer. On the command line the source receives it as a string, which Python 2 compares with integers by type.
- The `env` command is not modelled: it only prints environment variables and branches on the platform.
- CommandBase.BuildEnv: the win32 re-encoding of `PATH` to ASCII is not modelled.
- `cd`, `check_call`, `BuildNotFound` and the `.vaanibuild` configuration reading in command_base.py are not modelled. No modelled command uses them.
- BootstrapCommands.ClonesNeeded: states only the bound on its length here. Membership and the forced case are stated by ClonesNeededMembers and ForceClonesAll.
- BootstrapCommands.CloneAll: on failure it states only that the cause is an `OSError` and that nothing blocked means success. It does not state the filesystem, trace and output left after the failure.
- BootstrapCommands.BootstrapGit: on failure it states only that the cause is an `OSError`, as in CloneAll.
- BootstrapCommands.MavenInstall: after a completed download, it does not separate the rename, extract and move failures from each other. It states what success leaves behind.
- BootstrapCommands.BootstrapMaven: as MavenInstall, the failures after a completed download are not told apart. The failures before and during the download are stated.
- BootstrapCommands.M2Fetch: as MavenInstall, the failures after a completed download are not told apart.
- BootstrapCommands.M2Install: as M2Fetch.
- BootstrapCommands.BootstrapM2repo: as M2Fetch. The failures before and during the download, including an error escaping the release-page read, are stated.
- BootstrapCommands.Bootstrap: states the blocked-checkout failure and the idempotent run on a complete tree. It does not restate the full effect of each of its three steps, which their own contracts give.
- Utf8: only Unicode scalar values are encoded. Python 2's `unicode.encode('utf-8')`, which `normalize_env` calls, also encodes lone surrogates (code points D800 to DFFF) as three bytes; text holding them is not modelled.
- BuildCommands.Notify: on `sys.platform == "win32"` the table as written (build_commands.py:91-97) has no back end, so the source does nothing. The model uses the corrected table, PlatformHandler, and shows the Windows notification or prints its warning. PlatformHandlerAsWritten and WindowsMissedAsWritten state the behaviour as written (see Findings).
- BuildCommands.NotifyReportsOnce: uses the corrected table, as Notify does; on `win32` the source does nothing.
- BuildCommands.DonePolicy: uses the corrected table, as Notify does; on `win32` the source never announces a build.
- BuildCommands.NotifyBuildDone: uses the corrected table, as Notify does; on `win32` the source never notifies.
- BuildCommands.Maven: uses the corrected table, as Notify does; on `win32` the source gives no closing notification.
- BuildCommands.MavenTraceStages: uses the corrected table, as Notify does.
- BuildCommands.Build: as Maven, on `win32`.
- BuildCommands.Clean: as Maven, on `win32`.
- Fetcher.Download: when a resumed download ends in an HTTP error, the source prints the `urllib2.Request` object in place of the URL (bootstrap_commands.py:39 and 65). The model prints the corrected line, FailureMessage, which names the URL. FailureMessageAsWritten and ResumedFailureHidesUrl state the behaviour as written (see Findings).
- Fetcher.DownloadFile: as Download, the failure line of a resumed download names the URL.
- BootstrapCommands.MavenInstall: as Download, the failure line of a resumed download names the URL.
- BootstrapCommands.BootstrapMaven: as Download, the failure line of a resumed download names the URL.
- BootstrapCommands.M2Fetch: as Download, the failure line of a resumed download names the URL.
- BootstrapCommands.M2Install: as Download, the failure line of a resumed download names the URL.
- BootstrapCommands.BootstrapM2repo: as Download, the failure line of a resumed download names the URL.
- Fetcher.Extract: the move of `movedir`'s contents is stated only when `movedir` is not `dst` or above it, and its failures are not told apart. No modelled command passes `movedir`.

## Findings

| source | as written | input that shows it | evidently intended | confidence | as-written member | corrected member |
|---|---|---|---|---|---|---|
| python/vaani/build_commands.py:91-97 | the back-end table lists Windows under the key `"win"` | `sys.platform == "win32"`, its value on every Windows | Windows builds flash the console window | high, not executed | BuildCommands.PlatformHandlerAsWritten (shown by BuildCommands.WindowsMissedAsWritten) | BuildCommands.PlatformHandler |
| python/vaani/bootstrap_commands.py:38-39, 65 | a resumed download rebinds `src` to a `urllib2.Request`, so the HTTP failure line prints that object instead of the URL | a `.part` file of 1024 bytes and an HTTP 416 answer | the failure line names the URL | high, not executed | Fetcher.FailureMessageAsWritten (shown by Fetcher.ResumedFailureHidesUrl) | Fetcher.FailureMessage |
