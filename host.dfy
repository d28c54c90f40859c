/**
 * The running process as the commands see it: the mach context they share,
 * the filesystem, what they write to stdout and stderr, the trace of external effects (HTTP
 * requests, subprocesses, command dispatches, desktop notifications) and the
 * outside behaviour the model takes as given (the network, the archive
 * reader, the release-page pattern match, the notification back ends).
 */
module Host {
  import opened Wrappers
  import opened Files

  /** An HTTP GET as `urllib2` sends it, with the value of its `Range` header if it has one. */
  datatype Request = Request(url: string, range: Option<string>)

  /**
   * What `urllib2.urlopen` gives back. A body comes with its parsed
   * `Content-Length` header, if the server sent one, and with the index of
   * the `read` during which the user pressed Ctrl-C, if they did.
   */
  datatype Reply =
    | Body(contentLength: Option<nat>, body: Bytes, interruptAt: Option<nat>)
    | HttpError(code: nat, reason: string)
    | UrlError

  /** The three desktop-notification back ends of build_commands.py. */
  datatype Handler = LinuxHandler | WinHandler | DarwinHandler

  /** An external effect, in the order the process caused it. */
  datatype Event =
    | Fetch(request: Request)                                  // urllib2.urlopen
    | Run(argv: seq<string>, cwd: Path, env: map<string, string>)  // subprocess.call
    | Dispatch(command: string)                                // Registrar.dispatch of a mach command
    | Notification(handler: Handler, title: string, text: string)  // a notification shown

  /** A repository of the catalogue and the GitHub account that owns it upstream. */
  datatype Repo = Repo(name: string, owner: string)

  /**
   * The mach context object: its attributes, each absent (`None`) until
   * something sets it.
   */
  datatype Context = Context(
    topdir: Path,
    bootstrapped: Option<bool>,
    sharedDir: Option<Path>,
    mavenDir: Option<Path>,
    m2repoDir: Option<Path>,
    gitDir: Option<Path>,
    wsDir: Option<Path>,
    repos: Option<seq<Repo>>)
  {
    /** Every attribute is set, as `CommandBase.__init__` leaves them. */
    predicate Ready() {
      bootstrapped.Some? && sharedDir.Some? && mavenDir.Some? && m2repoDir.Some? &&
      gitDir.Some? && wsDir.Some? && repos.Some? && UniqueNames(repos.value)
    }
  }

  /** The catalogue is an ordered dictionary keyed by name: no name occurs twice. */
  predicate UniqueNames(repos: seq<Repo>) {
    forall i, j :: 0 <= i < j < |repos| ==> repos[i].name != repos[j].name
  }

  /** Why a command stopped early: the exception that left it. */
  datatype Abort =
    | SystemExit(code: int)       // sys.exit
    | KeyboardInterrupt           // Ctrl-C, re-raised
    | OsFailure(error: OsError)   // OSError or IOError from the filesystem
    | ReadError                   // tarfile could not read the archive
    | HttpFailure(code: int)      // urllib2.HTTPError nobody catches
    | UrlFailure                  // urllib2.URLError nobody catches

  datatype Status = Ok | Stopped(abort: Abort)

  /** A Python file object or `StringIO` a download writes into. */
  class Writer {
    var content: Bytes        // what the file or buffer holds
    var writes: seq<Bytes>    // the arguments of the `write` calls, in order
    var flushed: bool         // nothing written is still buffered

    constructor (initial: Bytes)
      ensures content == initial && writes == [] && flushed
    {
      content := initial;
      writes := [];
      flushed := true;
    }

    method Write(chunk: Bytes)
      modifies this
      ensures content == old(content) + chunk && writes == old(writes) + [chunk] && !flushed
    {
      content := content + chunk;
      writes := writes + [chunk];
      flushed := false;
    }

    method Flush()
      modifies this
      ensures content == old(content) && writes == old(writes) && flushed
    {
      flushed := true;
    }
  }

  /** One CLI session: the process, its mach context and the world around it. */
  class Session {
    var fs: FileSystem
    var ctx: Context
    var trace: seq<Event>
    var out: seq<string>   // lines written to stdout
    var err: seq<string>   // lines written to stderr

    const environ: map<string, string>               // os.environ
    const platform: string                           // sys.platform
    const net: Request -> Reply                      // how the network answers
    const releaseLink: Bytes -> Option<string>       // group 1 of the release-page re.search
    const untar: Bytes -> Option<map<Path, Entry>>   // the entries of an archive; None if tarfile rejects it
    const handlerFailure: Handler -> Option<string>  // the message a back end raises, if it fails

    constructor (fs: FileSystem, ctx: Context, environ: map<string, string>, platform: string,
                 net: Request -> Reply, releaseLink: Bytes -> Option<string>,
                 untar: Bytes -> Option<map<Path, Entry>>, handlerFailure: Handler -> Option<string>)
      ensures this.fs == fs && this.ctx == ctx && trace == [] && out == [] && err == []
      ensures this.environ == environ && this.platform == platform && this.net == net
      ensures this.releaseLink == releaseLink && this.untar == untar && this.handlerFailure == handlerFailure
    {
      this.fs := fs;
      this.ctx := ctx;
      trace, out, err := [], [], [];
      this.environ := environ;
      this.platform := platform;
      this.net := net;
      this.releaseLink := releaseLink;
      this.untar := untar;
      this.handlerFailure := handlerFailure;
    }

    predicate Ready()
      reads this
    {
      ctx.Ready()
    }

    function SharedDir(): Path reads this requires Ready() { ctx.sharedDir.value }
    function MavenDir(): Path reads this requires Ready() { ctx.mavenDir.value }
    function M2repoDir(): Path reads this requires Ready() { ctx.m2repoDir.value }
    function GitDir(): Path reads this requires Ready() { ctx.gitDir.value }
    function Repos(): seq<Repo> reads this requires Ready() { ctx.repos.value }
  }
}
