/**
 * The download-and-unpack helpers of bootstrap_commands.py: streaming an
 * HTTP body into a writer, the `.part` sidecar that lets an interrupted
 * download resume, unpacking an archive (optionally lifting the contents of
 * one directory of it up a level), and `mkdir_p`.
 */
module Fetcher {
  import opened Wrappers
  import opened Files
  import opened Host

  // ------------------------------------------------------------ the Range header

  function Digit(d: nat): (c: char)
    requires d < 10
    ensures '0' <= c <= '9' && c as int - 48 == d
  {
    (48 + d) as char
  }

  predicate AllDigits(s: string) {
    forall i :: 0 <= i < |s| ==> '0' <= s[i] <= '9'
  }

  /** `'{}'.format(n)` for a natural number: its decimal digits, without a leading zero. */
  function Decimal(n: nat): (s: string)
    ensures |s| >= 1 && AllDigits(s)
    ensures s[0] == '0' <==> n == 0
    decreases n
  {
    if n < 10 then [Digit(n)] else Decimal(n / 10) + [Digit(n % 10)]
  }

  /** The number a string of decimal digits denotes. */
  function DigitsValue(s: string): nat
    requires AllDigits(s)
    decreases |s|
  {
    if s == [] then 0 else 10 * DigitsValue(s[..|s| - 1]) + (s[|s| - 1] as int - 48)
  }

  /** The digits `Decimal` writes denote the number written. */
  lemma {:induction false} DecimalValue(n: nat)
    ensures DigitsValue(Decimal(n)) == n
  {
    if n >= 10 {
      var s := Decimal(n);
      assert s[..|s| - 1] == Decimal(n / 10);
      DecimalValue(n / 10);
    }
  }

  /** The `Range` value asking for everything from byte `first` on. */
  function RangeHeader(first: nat): string {
    "bytes=" + Decimal(first) + "-"
  }

  /**
   * How a server reads a `Range` value of the form `bytes=<first>-`, a
   * byte-range-spec without a last-byte-pos (section 2.1 of RFC 7233): the
   * first position asked for, or None for a value of any other form.
   */
  function OpenRangeStart(h: string): Option<nat> {
    if |h| >= 8 && h[..6] == "bytes=" && h[|h| - 1] == '-' && AllDigits(h[6..|h| - 1])
    then Some(DigitsValue(h[6..|h| - 1]))
    else None
  }

  lemma RangeHeaderRoundTrip(first: nat)
    ensures OpenRangeStart(RangeHeader(first)) == Some(first)
  {
    var h := RangeHeader(first);
    assert h[..6] == "bytes=";
    assert h[6..|h| - 1] == Decimal(first);
    DecimalValue(first);
  }

  /** The request `download` opens: plain from offset 0, otherwise asking for the bytes from `startByte` on. */
  function DownloadRequest(src: string, startByte: nat): (r: Request)
    ensures r.url == src
    ensures r.range.Some? <==> startByte > 0
    ensures r.range.Some? ==> OpenRangeStart(r.range.value) == Some(startByte)
  {
    RangeHeaderRoundTrip(startByte);
    Request(src, if startByte > 0 then Some(RangeHeader(startByte)) else None)
  }

  // ------------------------------------------------------------ chunks

  const ChunkSize: nat := 8192

  function Min(a: nat, b: nat): nat { if a < b then a else b }

  /** `b''.join(chunks)`. */
  function Flatten(chunks: seq<Bytes>): Bytes {
    if chunks == [] then [] else chunks[0] + Flatten(chunks[1..])
  }

  lemma {:induction false} FlattenSnoc(chunks: seq<Bytes>, c: Bytes)
    ensures Flatten(chunks + [c]) == Flatten(chunks) + c
  {
    if chunks != [] {
      assert (chunks + [c])[1..] == chunks[1..] + [c];
      FlattenSnoc(chunks[1..], c);
    }
  }

  lemma {:induction false} FlattenPrefix(chunks: seq<Bytes>, k: nat)
    requires k <= |chunks|
    ensures Flatten(chunks[..k]) <= Flatten(chunks)
  {
    if k > 0 {
      assert chunks[..k][1..] == chunks[1..][..k - 1];
      FlattenPrefix(chunks[1..], k - 1);
    }
  }

  /** The successive non-empty results of `resp.read(8192)` on a body. */
  function Chunks(body: Bytes): seq<Bytes>
    decreases |body|
  {
    if body == [] then [] else
      var n := Min(ChunkSize, |body|);
      [body[..n]] + Chunks(body[n..])
  }

  /** Every chunk but the last is full, none is empty, and together they are the body. */
  lemma {:induction false} ChunksShape(body: Bytes)
    ensures Flatten(Chunks(body)) == body
    ensures forall i :: 0 <= i < |Chunks(body)| ==> 1 <= |Chunks(body)[i]| <= ChunkSize
    ensures forall i :: 0 <= i < |Chunks(body)| - 1 ==> |Chunks(body)[i]| == ChunkSize
    decreases |body|
  {
    if body != [] {
      var n := Min(ChunkSize, |body|);
      var rest := Chunks(body[n..]);
      ChunksShape(body[n..]);
      assert Chunks(body)[1..] == rest;
      assert body[..n] + body[n..] == body;
    }
  }

  /** Reading a chunk at `pos` leaves the chunks of the rest of the body. */
  lemma ChunksStep(body: Bytes, pos: nat)
    requires pos < |body|
    ensures Chunks(body[pos..]) == [body[pos..pos + Min(ChunkSize, |body| - pos)]] + Chunks(body[pos + Min(ChunkSize, |body| - pos)..])
  {
    var b, n := body[pos..], Min(ChunkSize, |body| - pos);
    assert b[..n] == body[pos..pos + n];
    assert b[n..] == body[pos + n..];
  }

  /** `pos` bytes of `data` have been read, as its first `calls` chunks. */
  ghost predicate ReadSoFar(data: Bytes, pos: nat, calls: nat) {
    pos <= |data| && calls <= |Chunks(data)| &&
    Chunks(data[pos..]) == Chunks(data)[calls..] &&
    Flatten(Chunks(data)[..calls]) == data[..pos]
  }

  /** One more read returns the next chunk. */
  lemma StreamStep(data: Bytes, pos: nat, calls: nat)
    requires ReadSoFar(data, pos, calls) && pos < |data|
    ensures var n := Min(ChunkSize, |data| - pos);
      n > 0 && calls < |Chunks(data)| && ReadSoFar(data, pos + n, calls + 1) &&
      Chunks(data)[..calls + 1] == Chunks(data)[..calls] + [data[pos..pos + n]] &&
      data[..pos + n] == data[..pos] + data[pos..pos + n]
  {
    var chunks, n := Chunks(data), Min(ChunkSize, |data| - pos);
    var chunk := data[pos..pos + n];
    ChunksStep(data, pos);
    assert chunks[calls..] == [chunk] + Chunks(data[pos + n..]);
    assert chunks[..calls + 1] == chunks[..calls] + [chunk];
    FlattenSnoc(chunks[..calls], chunk);
    assert data[..pos + n] == data[..pos] + chunk;
    assert chunks[calls + 1..] == chunks[calls..][1..];
  }

  /** The empty read comes once every chunk has been read; the writer then holds the whole body. */
  lemma StreamEnd(data: Bytes, calls: nat, interruptAt: Option<nat>)
    requires ReadSoFar(data, |data|, calls)
    requires interruptAt.Some? ==> interruptAt.value > calls
    ensures calls == |Chunks(data)| && !(interruptAt.Some? && interruptAt.value <= |Chunks(data)|)
    ensures Chunks(data)[..calls] == DeliveredChunks(data, interruptAt) && Flatten(DeliveredChunks(data, interruptAt)) == data
  {
    assert data[|data|..] == [];
    assert Chunks(data)[..calls] == Chunks(data);
  }

  /** Ctrl-C during read number `calls`: the writer holds the chunks before it. */
  lemma StreamCut(data: Bytes, pos: nat, calls: nat, interruptAt: Option<nat>)
    requires ReadSoFar(data, pos, calls) && interruptAt == Some(calls)
    ensures interruptAt.value <= |Chunks(data)|
    ensures Chunks(data)[..calls] == DeliveredChunks(data, interruptAt) && Flatten(DeliveredChunks(data, interruptAt)) == data[..pos]
  {
  }

  /** The user pressed Ctrl-C during one of the reads of the body, the last, empty one included. */
  predicate Interrupted(reply: Reply)
    requires reply.Body?
  {
    reply.interruptAt.Some? && reply.interruptAt.value <= |Chunks(reply.body)|
  }

  /** The chunks of `body` read before Ctrl-C, if it arrives during the read numbered `interruptAt`. */
  function DeliveredChunks(body: Bytes, interruptAt: Option<nat>): seq<Bytes> {
    if interruptAt.Some? && interruptAt.value <= |Chunks(body)| then Chunks(body)[..interruptAt.value] else Chunks(body)
  }

  predicate Completes(reply: Reply) {
    reply.Body? && !Interrupted(reply)
  }

  /** The chunks `download` hands to its writer. */
  function Delivered(reply: Reply): seq<Bytes> {
    if reply.Body? then DeliveredChunks(reply.body, reply.interruptAt) else []
  }

  /** The bytes the writer has received when `download` ends. */
  function Received(reply: Reply): Bytes {
    Flatten(Delivered(reply))
  }

  /** What the writer receives is a prefix of the body, all of it when the download completes. */
  lemma ReceivedPrefix(reply: Reply)
    requires reply.Body?
    ensures Received(reply) <= reply.body
    ensures Completes(reply) ==> Received(reply) == reply.body
  {
    ChunksShape(reply.body);
    if Interrupted(reply) {
      FlattenPrefix(Chunks(reply.body), reply.interruptAt.value);
    }
  }

  // ------------------------------------------------------------ download

  function Opening(desc: string, startByte: nat): string {
    if startByte > 0 then "Resuming download of " + desc + "..." else "Downloading " + desc + "..."
  }

  const NoBinaryHint := "No maven compiler binary " + "available for this platform. " +
                        "Please see https://github.com/mozilla/vaanisdk/#prerequisites"

  const OfflineHint := "Error downloading; " + "are you connected to the internet?"

  predicate EndsWith(s: string, suffix: string) {
    |suffix| <= |s| && s[|s| - |suffix|..] == suffix
  }

  /** The message for an HTTP error: its code, its reason and the URL that failed. */
  function FailureMessage(code: nat, reason: string, src: string): (m: string)
    ensures |m| > 17 && m[..17] == "Download failed ("
    ensures var d := Decimal(code); |m| > 17 + |d| && m[17..17 + |d|] == d && m[17 + |d|] == ')'
    ensures EndsWith(m, src)
  {
    var m := "Download failed (" + Decimal(code) + "): " + reason + " - " + src;
    assert m[17..17 + |Decimal(code)|] == Decimal(code);
    assert m[17 + |Decimal(code)|] == ')';
    assert m[|m| - |src|..] == src;
    m
  }

  /** How Python 2 prints a `urllib2.Request` (the object's address is left out). */
  const RequestRepr := "<urllib2.Request instance>"

  /** The message as line 65 builds it: after line 39 `src` names the Request object when resuming. */
  function FailureMessageAsWritten(code: nat, reason: string, src: string, startByte: nat): string {
    "Download failed (" + Decimal(code) + "): " + reason + " - " + (if startByte > 0 then RequestRepr else src)
  }

  /** A resumed download that fails does not name its URL. */
  lemma ResumedFailureHidesUrl()
    ensures !EndsWith(FailureMessageAsWritten(416, "Requested Range Not Satisfiable", "http://example.org/a.tar.gz", 1024),
                      "http://example.org/a.tar.gz")
  {
    var m := FailureMessageAsWritten(416, "Requested Range Not Satisfiable", "http://example.org/a.tar.gz", 1024);
    assert m[|m| - 1] == '>';
  }

  /** What `download` prints, given how the server answered. */
  function DownloadOutput(desc: string, src: string, startByte: nat, reply: Reply): seq<string> {
    [Opening(desc, startByte)] + ReplyOutput(src, reply)
  }

  /** What `download` prints after its opening line, given the server's reply. */
  function ReplyOutput(src: string, reply: Reply): seq<string> {
    match reply
    case Body(_, _, _) => []
    case HttpError(code, reason) => [FailureMessage(code, reason, src)] + (if code == 403 then [NoBinaryHint] else [])
    case UrlError => [OfflineHint]
  }

  /** How `download` ends, given how the server answered. */
  function DownloadStatus(reply: Reply): Status {
    if Completes(reply) then Ok
    else if reply.Body? then Stopped(KeyboardInterrupt)
    else Stopped(SystemExit(1))
  }

  /** The platform hint is printed exactly for an HTTP 403. */
  lemma HintOnlyFor403(desc: string, src: string, startByte: nat, reply: Reply)
    ensures NoBinaryHint in DownloadOutput(desc, src, startByte, reply) <==> reply.HttpError? && reply.code == 403
  {
    assert NoBinaryHint[0] == 'N';
    assert Opening(desc, startByte)[0] != 'N';
    if reply.HttpError? {
      assert FailureMessage(reply.code, reply.reason, src)[0] == 'D';
    }
    assert OfflineHint[0] == 'E';
  }

  /**
   * The `while True` loop of `download`: read at most 8192 bytes at a time
   * and write each chunk, until a read comes back empty or Ctrl-C arrives
   * during the read numbered `interruptAt`, which flushes the writer.
   */
  method Stream(w: Writer, data: Bytes, interruptAt: Option<nat>) returns (interrupted: bool, count: nat)
    modifies w
    ensures interrupted <==> interruptAt.Some? && interruptAt.value <= |Chunks(data)|
    ensures w.writes == old(w.writes) + DeliveredChunks(data, interruptAt)
    ensures w.content == old(w.content) + Flatten(DeliveredChunks(data, interruptAt))
    ensures count == |Flatten(DeliveredChunks(data, interruptAt))|
    ensures interrupted ==> w.flushed
  {
    var pos, calls := 0, 0;
    count := 0;
    assert data[0..] == data && data[..0] == [] && Chunks(data)[0..] == Chunks(data);
    while true
      invariant ReadSoFar(data, pos, calls)
      invariant w.writes == old(w.writes) + Chunks(data)[..calls]
      invariant w.content == old(w.content) + data[..pos]
      invariant count == pos
      invariant interruptAt.Some? ==> interruptAt.value >= calls
      decreases |data| - pos
    {
      if interruptAt == Some(calls) {
        StreamCut(data, pos, calls, interruptAt);
        w.Flush();
        return true, count;
      }
      var n := Min(ChunkSize, |data| - pos);
      var chunk := data[pos..pos + n];
      if chunk == [] {
        break;
      }
      StreamStep(data, pos, calls);
      AppendAssoc(old(w.writes), Chunks(data)[..calls], [chunk]);
      AppendAssoc(old(w.content), data[..pos], chunk);
      count := count + |chunk|;
      w.Write(chunk);
      pos, calls := pos + n, calls + 1;
    }
    StreamEnd(data, calls, interruptAt);
    return false, count;
  }

  /** `download(desc, src, writer, start_byte)`. */
  method Download(s: Session, desc: string, src: string, w: Writer, startByte: nat)
      returns (status: Status, recved: nat, fsize: Option<nat>)
    modifies s, w
    ensures s.fs == old(s.fs) && s.ctx == old(s.ctx) && s.err == old(s.err)
    ensures s.trace == old(s.trace) + [Fetch(DownloadRequest(src, startByte))]
    ensures var reply := s.net(DownloadRequest(src, startByte));
      status == DownloadStatus(reply) && s.out == old(s.out) + DownloadOutput(desc, src, startByte, reply)
    ensures var reply := s.net(DownloadRequest(src, startByte));
      w.writes == old(w.writes) + Delivered(reply) && w.content == old(w.content) + Received(reply)
    ensures var reply := s.net(DownloadRequest(src, startByte));
      Completes(reply) ==>
        recved == startByte + |reply.body| &&
        fsize == if reply.contentLength.Some? then Some(reply.contentLength.value + startByte) else None
    ensures var reply := s.net(DownloadRequest(src, startByte));
      reply.Body? && Interrupted(reply) ==> w.flushed
  {
    s.out := s.out + [Opening(desc, startByte)];
    var request := DownloadRequest(src, startByte);
    s.trace := s.trace + [Fetch(request)];
    status, recved, fsize := Receive(s, src, w, startByte, s.net(request));
    AppendAssoc(old(s.out), [Opening(desc, startByte)], ReplyOutput(src, s.net(request)));
  }

  /** The `try` body of `download` after `urlopen`, and its `except` clauses, for the server's reply. */
  method Receive(s: Session, src: string, w: Writer, startByte: nat, reply: Reply)
      returns (status: Status, recved: nat, fsize: Option<nat>)
    modifies s, w
    ensures s.fs == old(s.fs) && s.ctx == old(s.ctx) && s.err == old(s.err) && s.trace == old(s.trace)
    ensures status == DownloadStatus(reply) && s.out == old(s.out) + ReplyOutput(src, reply)
    ensures w.writes == old(w.writes) + Delivered(reply) && w.content == old(w.content) + Received(reply)
    ensures Completes(reply) ==>
      recved == startByte + |reply.body| &&
      fsize == if reply.contentLength.Some? then Some(reply.contentLength.value + startByte) else None
    ensures reply.Body? && Interrupted(reply) ==> w.flushed
  {
    recved, fsize := startByte, None;
    match reply {
      case HttpError(code, reason) =>
        s.out := s.out + [FailureMessage(code, reason, src)] + (if code == 403 then [NoBinaryHint] else []);
        return Stopped(SystemExit(1)), recved, fsize;
      case UrlError =>
        s.out := s.out + [OfflineHint];
        return Stopped(SystemExit(1)), recved, fsize;
      case Body(contentLength, data, interruptAt) =>
        if contentLength.Some? {
          fsize := Some(contentLength.value + startByte);
        }
        ChunksShape(data);
        var interrupted, count := Stream(w, data, interruptAt);
        recved := recved + count;
        if interrupted {
          return Stopped(KeyboardInterrupt), recved, fsize;
        }
        return Ok, recved, fsize;
    }
  }

  // ------------------------------------------------------------ the .part protocol

  /** `dst + ".part"`: where a download of `dst` goes until it is complete. */
  function PartPath(dst: Path): (tmp: Path)
    ensures tmp != dst
    ensures dst != [] ==> !(tmp <= dst) && !(dst <= tmp)
  {
    if dst == [] then [".part"]
    else
      var last := dst[|dst| - 1] + ".part";
      var tmp := dst[..|dst| - 1] + [last];
      assert tmp[|dst| - 1] != dst[|dst| - 1] by {
        assert |tmp[|dst| - 1]| == |dst[|dst| - 1]| + 5;
      }
      tmp
  }

  /** What an earlier, unfinished download of `dst` left in its `.part` file. */
  function PartData(fs: FileSystem, dst: Path): Bytes {
    if IsFile(fs, PartPath(dst)) then fs[PartPath(dst)].data else []
  }

  /**
   * The `try`/`except os.error` of `download_file`: a download appended to
   * the `.part` file when one exists, otherwise written to a new one. Whatever
   * the outcome, the bytes received are in the `.part` file afterwards.
   */
  method FetchPart(s: Session, desc: string, src: string, dst: Path) returns (status: Status)
    modifies s
    ensures s.ctx == old(s.ctx) && s.err == old(s.err)
    ensures IsDir(old(s.fs), PartPath(dst)) ==>
      status == Stopped(OsFailure(IsADirectory)) &&
      s.fs == old(s.fs) && s.trace == old(s.trace) && s.out == old(s.out)
    ensures var start := |PartData(old(s.fs), dst)|; var reply := s.net(DownloadRequest(src, start));
      !IsDir(old(s.fs), PartPath(dst)) ==>
        status == DownloadStatus(reply) &&
        s.trace == old(s.trace) + [Fetch(DownloadRequest(src, start))] &&
        s.out == old(s.out) + DownloadOutput(desc, src, start, reply) &&
        s.fs == old(s.fs)[PartPath(dst) := File(PartData(old(s.fs), dst) + Received(reply))]
  {
    var tmp := PartPath(dst);
    if IsDir(s.fs, tmp) {
      // os.path.getsize succeeds on a directory, then open(tmp, 'ab') raises EISDIR
      return Stopped(OsFailure(IsADirectory));
    }
    var prior := PartData(s.fs, dst);
    var w := new Writer(prior);
    var recved, fsize;
    status, recved, fsize := Download(s, desc, src, w, |prior|);
    s.fs := s.fs[tmp := File(w.content)];
  }

  /**
   * `dst` holds `data`, its `.part` file is gone, and outside the tree at
   * `dst` (and at the `.part` path) `after` is `before`.
   */
  ghost predicate Installed(before: FileSystem, after: FileSystem, dst: Path, data: Bytes) {
    dst in after && after[dst] == File(data) && PartPath(dst) !in after &&
    (forall q :: q in before && !(PartPath(dst) <= q) && !(dst <= q) ==> q in after && after[q] == before[q]) &&
    (forall q :: q in after && !(dst <= q) ==> q in before && after[q] == before[q])
  }

  /** `os.rename(dst + ".part", dst)` once the `.part` file holds `data`: it fails only on a directory or the empty path. */
  lemma RenamePart(fs: FileSystem, dst: Path, data: Bytes)
    ensures var r := Rename(fs[PartPath(dst) := File(data)], PartPath(dst), dst);
      (r.Success? <==> dst != [] && !IsDir(fs, dst)) &&
      (r.Success? ==> Installed(fs, r.value, dst, data))
  {
    var r := Rename(fs[PartPath(dst) := File(data)], PartPath(dst), dst);
    RenamePartOutcome(fs, dst, data);
    if r.Success? {
      RenamePartInstalls(fs, dst, data, r.value);
    }
  }

  lemma RenamePartOutcome(fs: FileSystem, dst: Path, data: Bytes)
    ensures Rename(fs[PartPath(dst) := File(data)], PartPath(dst), dst).Success? <==> dst != [] && !IsDir(fs, dst)
  {
  }

  lemma RenamePartInstalls(fs: FileSystem, dst: Path, data: Bytes, r: FileSystem)
    requires Rename(fs[PartPath(dst) := File(data)], PartPath(dst), dst) == Success(r)
    ensures Installed(fs, r, dst, data)
  {
    var tmp := PartPath(dst);
    assert Rebase(tmp, tmp, dst) == dst;
  }

  /** `download_file(desc, src, dst)`: the `.part` download, then `os.rename` to `dst` once it completes. */
  method DownloadFile(s: Session, desc: string, src: string, dst: Path) returns (status: Status)
    modifies s
    ensures s.ctx == old(s.ctx) && s.err == old(s.err)
    ensures IsDir(old(s.fs), PartPath(dst)) ==>
      status == Stopped(OsFailure(IsADirectory)) &&
      s.fs == old(s.fs) && s.trace == old(s.trace) && s.out == old(s.out)
    ensures var start := |PartData(old(s.fs), dst)|; var reply := s.net(DownloadRequest(src, start));
      !IsDir(old(s.fs), PartPath(dst)) ==>
        s.trace == old(s.trace) + [Fetch(DownloadRequest(src, start))] &&
        s.out == old(s.out) + DownloadOutput(desc, src, start, reply) &&
        (status.Ok? <==> Completes(reply) && dst != [] && !IsDir(old(s.fs), dst)) &&
        (!Completes(reply) ==> status == DownloadStatus(reply)) &&
        (!status.Ok? ==> s.fs == old(s.fs)[PartPath(dst) := File(PartData(old(s.fs), dst) + Received(reply))])
    ensures var start := |PartData(old(s.fs), dst)|; var reply := s.net(DownloadRequest(src, start));
      status.Ok? ==> Completes(reply) && Installed(old(s.fs), s.fs, dst, PartData(old(s.fs), dst) + reply.body)
  {
    ghost var fs0 := s.fs;
    status := FetchPart(s, desc, src, dst);
    if status.Ok? {
      ghost var reply := s.net(DownloadRequest(src, |PartData(fs0, dst)|));
      ReceivedPrefix(reply);
      status := CommitPart(s, dst, fs0, PartData(fs0, dst) + Received(reply));
    }
  }

  /** The `os.rename(tmp, dst)` that ends a completed download. */
  method CommitPart(s: Session, dst: Path, ghost before: FileSystem, ghost data: Bytes) returns (status: Status)
    requires s.fs == before[PartPath(dst) := File(data)]
    modifies s
    ensures s.ctx == old(s.ctx) && s.err == old(s.err) && s.trace == old(s.trace) && s.out == old(s.out)
    ensures status.Ok? <==> dst != [] && !IsDir(before, dst)
    ensures status.Ok? ==> Installed(before, s.fs, dst, data)
    ensures !status.Ok? ==> s.fs == old(s.fs)
  {
    RenamePart(before, dst, data);
    match Rename(s.fs, PartPath(dst), dst) {
      case Failure(e) => status := Stopped(OsFailure(e));
      case Success(fs') => s.fs := fs'; status := Ok;
    }
  }

  /** A 1024-byte `.part` file and a 3072-byte answer to the range request make a 4096-byte file. */
  method ResumedDownloadSize() returns (size: nat)
    ensures size == 4096
  {
    var dst: Path := ["", "shared", "maven.tar.gz"];
    var part: Bytes := seq(1024, _ => 0);
    var rest: Bytes := seq(3072, _ => 0);
    var ctx := Context([""], None, None, None, None, None, None, None);
    var s := new Session(map[PartPath(dst) := File(part)], ctx, map[], "linux",
                         _ => Body(Some(3072), rest, None), _ => None, _ => None, _ => None);
    var status := DownloadFile(s, "Maven", "http://example.org/maven.tar.gz", dst);
    size := |s.fs[dst].data|;
  }

  /** `download_bytes(desc, src)`: the whole body, read into a fresh buffer from offset 0. */
  method DownloadBytes(s: Session, desc: string, src: string) returns (status: Status, content: Bytes)
    modifies s
    ensures s.fs == old(s.fs) && s.ctx == old(s.ctx) && s.err == old(s.err)
    ensures s.trace == old(s.trace) + [Fetch(Request(src, None))]
    ensures var reply := s.net(Request(src, None));
      status == DownloadStatus(reply) && s.out == old(s.out) + DownloadOutput(desc, src, 0, reply)
    ensures var reply := s.net(Request(src, None));
      status.Ok? ==> content == reply.body
  {
    var w := new Writer([]);
    var recved, fsize;
    status, recved, fsize := Download(s, desc, src, w, 0);
    content := w.content;
    ghost var reply := s.net(Request(src, None));
    if reply.Body? {
      ReceivedPrefix(reply);
    }
  }

  // ------------------------------------------------------------ extract

  /** `q` lies in the tree of `dst/<name>` for one of `names`. */
  predicate Displaced(q: Path, dst: Path, names: set<string>) {
    dst < q && q[|dst|] in names
  }

  // The parts of the loop invariant of `extract`'s renaming loop, over the
  // filesystem `g` extraction produced, the directory `m` whose children move
  // into `dst`, the names `done` already moved and `todo` still to move.

  /** The trees already moved are at `dst/<name>`. */
  ghost predicate Moved(g: FileSystem, fs: FileSystem, m: Path, dst: Path, done: set<string>) {
    forall p :: p in g && m < p && p[|m|] in done ==> Rebase(p, m, dst) in fs && fs[Rebase(p, m, dst)] == g[p]
  }

  /** The trees still to move are where extraction put them. */
  ghost predicate Pending(g: FileSystem, fs: FileSystem, m: Path, todo: set<string>) {
    forall p :: p in g && m < p && p[|m|] in todo ==> p in fs && fs[p] == g[p]
  }

  /** Nothing else is below `m`. */
  ghost predicate Confined(fs: FileSystem, m: Path, todo: set<string>) {
    forall q :: q in fs && m < q ==> q[|m|] in todo
  }

  /** Outside `m`'s children and the trees moved into, nothing has changed. */
  ghost predicate Untouched(g: FileSystem, fs: FileSystem, m: Path, dst: Path, done: set<string>) {
    forall q :: q in g && !(m < q) && !Displaced(q, dst, done) ==> q in fs && fs[q] == g[q]
  }

  /** No tree moved into lies above `m`. */
  ghost predicate Clear(m: Path, dst: Path, done: set<string>) {
    forall f :: f in done ==> !(dst + [f] <= m)
  }

  ghost predicate FlattenInv(g: FileSystem, fs: FileSystem, m: Path, dst: Path, names: set<string>, todo: set<string>) {
    todo <= names &&
    Moved(g, fs, m, dst, names - todo) && Pending(g, fs, m, todo) && Confined(fs, m, todo) &&
    Untouched(g, fs, m, dst, names - todo) && Clear(m, dst, names - todo)
  }

  // Facts about paths the renaming loop relies on, each stated so that it
  // holds outright.

  /** `m/f` is a prefix of `p` just when `p` lies below `m` through the child `f`. */
  lemma ChildPrefix(m: Path, f: string, p: Path)
    ensures m + [f] <= p <==> m < p && p[|m|] == f
  {
    if m < p && p[|m|] == f {
      assert m + [f] == p[..|m| + 1];
    }
  }

  /** A tree `dst/f` that reaches below `m`, when `m` is not inside `dst`, lies above `m`. */
  lemma TargetAboveChild(m: Path, dst: Path, f: string, p: Path)
    requires m <= p && !(m <= dst)
    ensures dst + [f] <= p ==> dst + [f] <= m
  {
    if dst + [f] <= p {
      PrefixesComparable(m, dst + [f], p);
      PrefixesComparable(m, dst, p);
    }
  }

  /** A path below `m` and through `dst/x`, when `m` is not inside `dst`, has `dst/x` above `m`. */
  lemma BelowBoth(m: Path, dst: Path, r: Path)
    requires dst < r && !(m <= dst)
    ensures m <= r ==> dst + [r[|dst|]] <= m
  {
    if m <= r {
      PrefixesComparable(m, dst, r);
      ChildPrefix(dst, r[|dst|], m);
    }
  }

  /** Renaming `m/f` to `dst/f` puts what was below `m/f` where rebasing from `m` to `dst` puts it. */
  lemma RebaseChild(p: Path, m: Path, dst: Path, f: string)
    requires m < p && p[|m|] == f
    ensures m + [f] <= p && Rebase(p, m + [f], dst + [f]) == Rebase(p, m, dst)
  {
    ChildPrefix(m, f, p);
    assert p[|m|..] == [f] + p[|m| + 1..];
  }

  /** What a successful `os.rename(m/f, dst/f)` tells about the two paths and the result. */
  ghost predicate RenamedChild(fs: FileSystem, fs': FileSystem, m: Path, dst: Path, f: string) {
    !(m + [f] <= dst + [f]) && !(dst + [f] <= m + [f]) && !(dst + [f] <= m) &&
    fs' == MoveTree(fs, m + [f], dst + [f])
  }

  lemma StepMoved(g: FileSystem, fs: FileSystem, fs': FileSystem, m: Path, dst: Path,
                  done: set<string>, todo: set<string>, f: string)
    requires !(m <= dst) && f in todo && f !in done && RenamedChild(fs, fs', m, dst, f)
    requires Moved(g, fs, m, dst, done) && Pending(g, fs, m, todo) && Clear(m, dst, done)
    ensures Moved(g, fs', m, dst, done + {f})
  {
    var frm, to := m + [f], dst + [f];
    forall p | p in g && m < p && p[|m|] in done + {f}
      ensures Rebase(p, m, dst) in fs' && fs'[Rebase(p, m, dst)] == g[p]
    {
      var r := Rebase(p, m, dst);
      assert r[|dst|] == p[|m|];
      if p[|m|] == f {
        RebaseChild(p, m, dst, f);
      } else {
        ChildPrefix(dst, f, r);
        BelowBoth(m, dst, r);
      }
    }
  }

  lemma StepPending(g: FileSystem, fs: FileSystem, fs': FileSystem, m: Path, dst: Path, todo: set<string>, f: string)
    requires !(m <= dst) && RenamedChild(fs, fs', m, dst, f)
    requires Pending(g, fs, m, todo)
    ensures Pending(g, fs', m, todo - {f})
  {
    forall p | p in g && m < p && p[|m|] in todo - {f}
      ensures p in fs' && fs'[p] == g[p]
    {
      ChildPrefix(m, f, p);
      TargetAboveChild(m, dst, f, p);
    }
  }

  lemma StepConfined(fs: FileSystem, fs': FileSystem, m: Path, dst: Path, todo: set<string>, f: string)
    requires !(m <= dst) && RenamedChild(fs, fs', m, dst, f)
    requires Confined(fs, m, todo)
    ensures Confined(fs', m, todo - {f})
  {
    forall q | q in fs' && m < q
      ensures q[|m|] in todo - {f}
    {
      ChildPrefix(m, f, q);
      TargetAboveChild(m, dst, f, q);
    }
  }

  lemma StepUntouched(g: FileSystem, fs: FileSystem, fs': FileSystem, m: Path, dst: Path, done: set<string>, f: string)
    requires RenamedChild(fs, fs', m, dst, f)
    requires Untouched(g, fs, m, dst, done)
    ensures Untouched(g, fs', m, dst, done + {f})
  {
    forall q | q in g && !(m < q) && !Displaced(q, dst, done + {f})
      ensures q in fs' && fs'[q] == g[q]
    {
      ChildPrefix(m, f, q);
      ChildPrefix(dst, f, q);
    }
  }

  /** A prefix as long as the path is the path itself. */
  lemma PrefixSameLength(a: Path, b: Path)
    ensures a <= b && |a| == |b| ==> a == b
  {
    if a <= b && |a| == |b| {
      assert b[..|b|] == b;
    }
  }

  /** `m + [x] == dst + [x]` only when `m == dst`. */
  lemma AppendCancel(m: Path, dst: Path, x: string)
    ensures m + [x] == dst + [x] ==> m == dst
  {
    if m + [x] == dst + [x] {
      assert m == (m + [x])[..|m|];
    }
  }

  /** One `os.rename(movedir/f, dst/f)` keeps `FlattenInv`. */
  /** Renaming `m/f` to `dst/f`, when `m` is not `dst` or above it, moves one child tree. */
  lemma ChildRenamed(fs: FileSystem, fs': FileSystem, m: Path, dst: Path, f: string)
    requires !(m <= dst)
    requires Rename(fs, m + [f], dst + [f]) == Success(fs')
    ensures RenamedChild(fs, fs', m, dst, f)
  {
    AppendCancel(m, dst, f);
    assert dst + [f] <= m ==> dst + [f] <= m + [f];
  }

  lemma FlattenStep(g: FileSystem, fs: FileSystem, fs': FileSystem, m: Path, dst: Path,
                    names: set<string>, todo: set<string>, f: string)
    requires !(m <= dst)
    requires FlattenInv(g, fs, m, dst, names, todo)
    requires f in todo
    requires RenamedChild(fs, fs', m, dst, f)
    ensures FlattenInv(g, fs', m, dst, names, todo - {f})
  {
    var done := names - todo;
    assert names - (todo - {f}) == done + {f};
    StepMoved(g, fs, fs', m, dst, done, todo, f);
    StepPending(g, fs, fs', m, dst, todo, f);
    StepConfined(fs, fs', m, dst, todo, f);
    StepUntouched(g, fs, fs', m, dst, done, f);
  }

  /**
   * Once every child is moved, `movedir` is an empty directory, and after
   * `os.rmdir` the moved trees are at `dst`, nothing is left below `movedir`,
   * and everything else is as extraction left it.
   */
  lemma FlattenDone(g: FileSystem, fs: FileSystem, m: Path, dst: Path, names: set<string>)
    requires !(m <= dst) && IsDir(g, m) && names == ListDir(g, m)
    requires FlattenInv(g, fs, m, dst, names, {})
    ensures IsDir(fs, m) && ListDir(fs, m) == {}
    ensures forall p :: p in g && m < p ==> Rebase(p, m, dst) in fs - {m} && (fs - {m})[Rebase(p, m, dst)] == g[p]
    ensures forall q :: q in fs - {m} ==> !(m <= q)
    ensures forall q :: q in g && !(m <= q) && !Displaced(q, dst, names) ==> q in fs - {m} && (fs - {m})[q] == g[q]
  {
    assert names - {} == names;
    if dst < m {
      ChildPrefix(dst, m[|dst|], m);
    }
    assert !Displaced(m, dst, names);
    forall p | p in g && m < p
      ensures Rebase(p, m, dst) != m
    {
      var r := Rebase(p, m, dst);
      assert r[|dst|] == p[|m|];
    }
    forall q | q in fs - {m} ensures !(m <= q) {
      PrefixSameLength(m, q);
    }
  }

  /** Before the first rename, all the children of `m` are still to move. */
  lemma FlattenStart(g: FileSystem, m: Path, dst: Path)
    ensures FlattenInv(g, g, m, dst, ListDir(g, m), ListDir(g, m))
  {
    var names := ListDir(g, m);
    assert names - names == {};
  }

  /** The `for f in os.listdir(movedir)` loop of `extract`: every child of `m` renamed into `dst`. */
  method MoveChildren(s: Session, m: Path, dst: Path) returns (status: Status)
    modifies s
    ensures s.ctx == old(s.ctx) && s.trace == old(s.trace) && s.out == old(s.out) && s.err == old(s.err)
    ensures status.Ok? && !(m <= dst) ==> FlattenInv(old(s.fs), s.fs, m, dst, ListDir(old(s.fs), m), {})
  {
    ghost var g := s.fs;
    var names := ListDir(s.fs, m);
    var todo := names;
    FlattenStart(g, m, dst);
    while todo != {}
      invariant todo <= names
      invariant !(m <= dst) ==> FlattenInv(g, s.fs, m, dst, names, todo)
      invariant s.ctx == old(s.ctx) && s.trace == old(s.trace) && s.out == old(s.out) && s.err == old(s.err)
      decreases todo
    {
      var f :| f in todo;
      var r := Rename(s.fs, m + [f], dst + [f]);
      if r.Failure? {
        return Stopped(OsFailure(r.error));
      }
      if !(m <= dst) {
        ChildRenamed(s.fs, r.value, m, dst, f);
        FlattenStep(g, s.fs, r.value, m, dst, names, todo, f);
      }
      s.fs := r.value;
      todo := todo - {f};
    }
    return Ok;
  }

  /**
   * The `if movedir:` block of `extract`: each child of `m` is renamed to
   * the same name in `dst`, then `m` itself is removed.
   */
  method LiftChildren(s: Session, m: Path, dst: Path) returns (status: Status)
    modifies s
    ensures s.ctx == old(s.ctx) && s.trace == old(s.trace) && s.out == old(s.out) && s.err == old(s.err)
    ensures !IsDir(old(s.fs), m) ==>
      status == Stopped(OsFailure(if m in old(s.fs) then NotADirectory else NoEntry)) && s.fs == old(s.fs)
    ensures status.Ok? && !(m <= dst) ==>
      (forall p :: p in old(s.fs) && m < p ==> Rebase(p, m, dst) in s.fs && s.fs[Rebase(p, m, dst)] == old(s.fs)[p]) &&
      (forall q :: q in s.fs ==> !(m <= q)) &&
      (forall q :: q in old(s.fs) && !(m <= q) && !Displaced(q, dst, ListDir(old(s.fs), m)) ==>
         q in s.fs && s.fs[q] == old(s.fs)[q])
  {
    if !IsDir(s.fs, m) {
      return Stopped(OsFailure(if m in s.fs then NotADirectory else NoEntry));
    }
    ghost var g := s.fs;
    ghost var names := ListDir(s.fs, m);
    status := MoveChildren(s, m, dst);
    if !status.Ok? {
      return;
    }
    if !(m <= dst) {
      FlattenDone(g, s.fs, m, dst, names);
    }
    var r := Rmdir(s.fs, m);
    if r.Failure? {
      return Stopped(OsFailure(r.error));
    }
    s.fs := r.value;
    return Ok;
  }

  /** The entries of the archive at `src`, if `src` is a file `tarfile` can read. */
  function ArchiveEntries(s: Session, fs: FileSystem, src: Path): Option<map<Path, Entry>>
    reads s
  {
    if IsFile(fs, src) then s.untar(fs[src].data) else None
  }

  /** `extract(src, dst, movedir)`. */
  method Extract(s: Session, src: Path, dst: Path, movedir: Option<Path>) returns (status: Status)
    modifies s
    ensures s.ctx == old(s.ctx) && s.trace == old(s.trace) && s.out == old(s.out) && s.err == old(s.err)
    ensures !IsFile(old(s.fs), src) ==>
      status == Stopped(OsFailure(if src in old(s.fs) then IsADirectory else NoEntry)) && s.fs == old(s.fs)
    ensures IsFile(old(s.fs), src) && ArchiveEntries(s, old(s.fs), src).None? ==>
      status == Stopped(ReadError) && s.fs == old(s.fs)
    ensures status.Ok? ==> ArchiveEntries(s, old(s.fs), src).Some? && src !in s.fs
    ensures ArchiveEntries(s, old(s.fs), src).Some? && (movedir.None? || movedir.value == []) ==>
      var g := Graft(old(s.fs), dst, ArchiveEntries(s, old(s.fs), src).value);
      (status.Ok? <==> IsFile(g, src)) && (status.Ok? ==> s.fs == g - {src})
    ensures status.Ok? && movedir.Some? && movedir.value != [] && !(movedir.value <= dst) ==>
      var g := Graft(old(s.fs), dst, ArchiveEntries(s, old(s.fs), src).value);
      var m := movedir.value;
      (forall p :: p in g && m < p && Rebase(p, m, dst) != src ==>
         Rebase(p, m, dst) in s.fs && s.fs[Rebase(p, m, dst)] == g[p]) &&
      (forall q :: q in s.fs ==> !(m <= q)) &&
      (forall q :: q in g && !(m <= q) && !Displaced(q, dst, ListDir(g, m)) && q != src ==>
         q in s.fs && s.fs[q] == g[q])
  {
    if src !in s.fs || s.fs[src].Dir? {
      return Stopped(OsFailure(if src in s.fs then IsADirectory else NoEntry));
    }
    var entries := s.untar(s.fs[src].data);
    if entries.None? {
      return Stopped(ReadError);
    }
    s.fs := Graft(s.fs, dst, entries.value);
    if movedir.Some? && movedir.value != [] {
      status := LiftChildren(s, movedir.value, dst);
      if !status.Ok? {
        return;
      }
    }
    var r := Remove(s.fs, src);
    if r.Failure? {
      return Stopped(OsFailure(r.error));
    }
    s.fs := r.value;
    return Ok;
  }

  // ------------------------------------------------------------ mkdir_p

  /** `mkdir_p(p)`: `os.makedirs`, with an existing directory accepted. */
  function MkdirP(fs: FileSystem, p: Path): (r: Result<FileSystem, OsError>)
    ensures p == [] ==> r == Failure(NoEntry)
    ensures p != [] && IsDir(fs, p) ==> r == Success(fs)
    ensures p != [] && p in fs && !IsDir(fs, p) ==> r == Failure(AlreadyExists)
    ensures p !in fs ==> (r.Success? <==> p != [] && forall q :: q <= p && q != [] ==> !IsFile(fs, q))
    ensures r.Success? ==>
      IsDir(r.value, p) &&
      (forall q :: q in fs ==> q in r.value && r.value[q] == fs[q]) &&
      (forall q :: q in r.value && q !in fs ==> q <= p && r.value[q] == Dir)
  {
    match MakeDirs(fs, p)
    case Success(fs') => Success(fs')
    case Failure(e) => if e == AlreadyExists && IsDir(fs, p) then Success(fs) else Failure(e)
  }

  /** A second `mkdir_p` of the same path changes nothing. */
  lemma MkdirPIdempotent(fs: FileSystem, p: Path)
    requires MkdirP(fs, p).Success?
    ensures MkdirP(MkdirP(fs, p).value, p) == MkdirP(fs, p)
  {
  }
}
