/**
  Storage access on the SD card: the translation between the web server's
  paths (`/a/b`) and the card's (`D:\a\b`), the loops that move data between
  streams and the card, the stack of deferred writes drained whenever the
  card is taken, the recursive listing, the byte-region check and the
  conditional-GET decision.

  The card is not a real file system here. What a call reads from it (a
  file's content, its modification time, the directory tree) is an input;
  what a call does to it is recorded, in order, in the `io` journal of the
  FileManager object.
 */
module FileManager {
  import opened Wrappers
  import opened Text
  import opened StringExtension
  import SdManager

  /** The drive the card is mounted as. */
  const RootPath := "D:"
  /** The size of the transfer buffers. */
  const ChunkSize := 65536

  /* ---------------------------------------------------------------------- */
  /* Paths                                                                  */
  /* ---------------------------------------------------------------------- */

  /** Path.IsPathRooted: a leading separator, or a drive letter and colon. */
  predicate IsPathRooted(p: string)
  {
    (|p| >= 1 && (p[0] == '\\' || p[0] == '/')) || (|p| >= 2 && p[1] == ':')
  }

  /**
    Path.Combine(path1, path2): a rooted `path2` replaces `path1`; otherwise
    the two are joined with one separator.
   */
  function Combine(path1: string, path2: string): string
  {
    if path2 == [] then path1
    else if path1 == [] || IsPathRooted(path2) then path2
    else if path1[|path1| - 1] in {'\\', '/', ':'} then path1 + path2
    else path1 + "\\" + path2
  }

  /** The web path with its slashes trimmed and the inner ones turned into backslashes. */
  function SdRelative(path: string): string
  {
    CharsReplaced(Trim(path, {'/'}), '/', '\\')
  }

  /** PathToSd as the firmware writes it: Path.Combine of the drive root and the relative path. */
  function PathToSdAsWritten(path: string): (r: string)
    ensures IsPathRooted(SdRelative(path)) ==> r == SdRelative(path)
  {
    Combine(RootPath + "\\", SdRelative(path))
  }

  /** PathToSd as intended: the relative path appended to the drive root. */
  function PathToSd(path: string): (r: string)
    ensures |r| >= 3 && r[..3] == "D:\\"
  {
    RootPath + "\\" + SdRelative(path)
  }

  /** SdToPath: drop the drive name, turn backslashes into slashes. */
  function SdToPath(path: string): (r: string)
    requires |path| >= |RootPath|
    ensures |r| == |path| - |RootPath| && '\\' !in r
  {
    CharsReplaced(path[|RootPath|..], '\\', '/')
  }

  /** A character absent from a string is absent from its trimmed form. */
  lemma TrimKeepsAbsent(s: string, cs: set<char>, c: char)
    requires c !in s
    ensures c !in Trim(s, cs)
  {
    var t := TrimStart(s, cs);
    assert t == s[|s| - |t|..];
    assert Trim(s, cs) == t[..|Trim(s, cs)|];
  }

  /** Every path maps into the card's root directory, and no slash is left. */
  lemma PathToSdUnderRoot(path: string)
    ensures |PathToSd(path)| >= 3 && PathToSd(path)[..3] == "D:\\"
    ensures '/' !in PathToSd(path)
  {
    CharsReplacedRemoves(Trim(path, {'/'}), '/', '\\');
  }

  /** For a path with no backslash, SdToPath undoes PathToSd up to the surrounding slashes. */
  lemma PathRoundTrip(path: string)
    requires '\\' !in path
    ensures SdToPath(PathToSd(path)) == "/" + Trim(path, {'/'})
  {
    var t := Trim(path, {'/'});
    TrimKeepsAbsent(path, {'/'}, '\\');
    assert PathToSd(path)[2..] == "\\" + CharsReplaced(t, '/', '\\');
    assert CharsReplaced("\\" + CharsReplaced(t, '/', '\\'), '\\', '/')
      == "/" + CharsReplaced(CharsReplaced(t, '/', '\\'), '\\', '/');
    CharsReplacedBack(t, '/', '\\');
  }

  /** The firmware's PathToSd agrees with the intended one unless the relative part is rooted. */
  lemma AsWrittenAgrees(path: string)
    requires !IsPathRooted(SdRelative(path))
    ensures PathToSdAsWritten(path) == PathToSd(path)
  {
  }

  /** When the relative part is rooted, the firmware's PathToSd returns it as is, outside D:\. */
  lemma AsWrittenRooted(path: string)
    requires IsPathRooted(SdRelative(path))
    ensures PathToSdAsWritten(path) == SdRelative(path)
    ensures PathToSdAsWritten(path) != PathToSd(path)
  {
  }

  /**
    A web path whose first segment is a drive name escapes the card: the
    firmware maps "/I:/dummyFile" to the internal flash file I:\dummyFile
    (and "/D:/x" to D:\x, which SdToPath turns into "/x").
   */
  lemma AsWrittenEscapesRoot(drive: char, name: string)
    requires drive != '/' && name != [] && '/' !in name
    ensures PathToSdAsWritten("/" + [drive, ':'] + "/" + name) == [drive, ':', '\\'] + name
    ensures PathToSdAsWritten("/" + [drive, ':'] + "/" + name) != PathToSd("/" + [drive, ':'] + "/" + name)
  {
    var path := "/" + [drive, ':'] + "/" + name;
    DriveRelative(drive, name);
    AsWrittenRooted(path);
  }

  /** The relative part of "/X:/name" is the rooted X:\name. */
  lemma DriveRelative(drive: char, name: string)
    requires drive != '/' && name != [] && '/' !in name
    ensures SdRelative("/" + [drive, ':'] + "/" + name) == [drive, ':', '\\'] + name
  {
    var path := "/" + [drive, ':'] + "/" + name;
    var t := [drive, ':'] + "/" + name;
    assert path[1..] == t;
    assert TrimStart(t, {'/'}) == t;
    assert TrimStart(path, {'/'}) == t;
    assert t[|t| - 1] == name[|name| - 1];
    assert TrimEnd(t, {'/'}) == t;
    var rel := CharsReplaced(t, '/', '\\');
    assert rel == [drive, ':', '\\'] + name;
  }

  /** MathMin. */
  function MathMin(left: int, right: int): (m: int)
    ensures m <= left && m <= right
    ensures m == left || m == right
  {
    if left < right then left else right
  }

  /* ---------------------------------------------------------------------- */
  /* Streams                                                                */
  /* ---------------------------------------------------------------------- */

  /**
    A readable stream (an HTTP request body): the bytes not yet read. Read
    delivers at least one byte when asked for some and any are left, but may
    deliver fewer than asked; how many is up to the network.
   */
  class InputStream {
    var pending: seq<bv8>

    constructor (data: seq<bv8>)
      ensures pending == data
    {
      pending := data;
    }

    /** Stream.Read(buffer, offset, count). */
    method Read(buffer: array<bv8>, offset: int, count: int) returns (n: int)
      requires 0 <= offset && 0 <= count && offset + count <= buffer.Length
      modifies this, buffer
      ensures 0 <= n <= count && n <= |old(pending)|
      ensures count > 0 && old(pending) != [] ==> n > 0
      ensures buffer[..] == old(buffer[..offset]) + old(pending)[..n] + old(buffer[offset + n..])
      ensures pending == old(pending)[n..]
    {
      var most := MathMin(count, |pending|);
      assert 0 <= most <= most && (most > 0 ==> most > 0);
      n :| 0 <= n <= most && (most > 0 ==> n > 0);
      ghost var before := buffer[..];
      ghost var want := before[..offset] + pending[..n] + before[offset + n..];
      forall j | 0 <= j < n {
        buffer[offset + j] := pending[j];
      }
      assert |want| == buffer.Length;
      assert forall j | 0 <= j < buffer.Length :: buffer[j] == want[j];
      pending := pending[n..];
    }
  }

  /** How many bytes FillBuffer delivers: as many as fit, or all that are left. */
  function Filled(bufLen: int, available: nat): nat
  {
    if bufLen <= 0 then 0 else MathMin(bufLen, available)
  }

  /**
    FillBuffer: read into `buffer` until min(buffer length, maxRead) bytes have
    arrived or the stream is exhausted. It returns fewer only if the stream ran
    out, and the bytes sit at the start of the buffer in stream order.
   */
  method FillBuffer(buffer: array<bv8>, stream: InputStream, maxRead: int) returns (pos: int)
    modifies buffer, stream
    ensures pos == Filled(MathMin(buffer.Length, maxRead), |old(stream.pending)|)
    ensures buffer[..pos] == old(stream.pending)[..pos]
    ensures buffer[pos..] == old(buffer[pos..])
    ensures stream.pending == old(stream.pending)[pos..]
  {
    var bufLen := MathMin(buffer.Length, maxRead);
    var read := -1;
    pos := 0;
    while pos < bufLen && read != 0
      invariant 0 <= pos <= |old(stream.pending)|
      invariant bufLen > 0 ==> pos <= bufLen
      invariant bufLen <= 0 ==> pos == 0
      invariant read == 0 ==> stream.pending == []
      invariant buffer[..pos] == old(stream.pending)[..pos]
      invariant buffer[pos..] == old(buffer[pos..])
      invariant stream.pending == old(stream.pending)[pos..]
      decreases bufLen - pos, if read == 0 then 0 else 1
    {
      ghost var before := buffer[..];
      read := stream.Read(buffer, pos, MathMin(bufLen, bufLen - pos));
      assert buffer[..pos] == before[..pos];
      assert buffer[pos..pos + read] == old(stream.pending)[pos..pos + read];
      assert buffer[pos + read..] == before[pos + read..];
      pos := pos + read;
    }
  }

  /* ---------------------------------------------------------------------- */
  /* The card's journal                                                     */
  /* ---------------------------------------------------------------------- */

  /** What the FileManager does to the card, in order. */
  datatype IoEvent =
    | Wrote(path: string, bytes: seq<bv8>)                 // WriteFileInternal: a file created with this content
    | Created(path: string)                                // File.Create
    | WroteAt(path: string, position: int, bytes: seq<bv8>) // WriteInternal: bytes written at an offset
    | WifiIniNotified                                      // the WifiIniUpdated event

  /** The write a queued (path, content) entry turns into: the content, UTF-8 encoded, as the file at PathToSd(path). */
  function WriteOf(entry: (string, string)): IoEvent
  {
    Wrote(PathToSd(entry.0), Utf8(entry.1))
  }

  /** The writes a sequence of (path, content) entries turns into, in order. */
  function Writes(entries: seq<(string, string)>): (d: seq<IoEvent>)
    ensures |d| == |entries|
  {
    seq(|entries|, i requires 0 <= i < |entries| => WriteOf(entries[i]))
  }

  /** Writing one more entry appends its write. */
  lemma WritesSnoc(entries: seq<(string, string)>, entry: (string, string))
    ensures Writes(entries + [entry]) == Writes(entries) + [WriteOf(entry)]
  {
    var all := entries + [entry];
    assert forall i | 0 <= i < |entries| :: all[i] == entries[i];
    assert all[|entries|] == entry;
  }

  /**
    The entries the first `k` pops of draining the stack `q` (top at the end)
    write, in order. The `k`-th entry popped is written only when the card is
    mounted and its FileStream opens (`fileOpens[k]`). A failed open is caught
    and logged, and the popped entry is lost.
   */
  function DrainedPops(q: seq<(string, string)>, mounted: bool, fileOpens: seq<bool>, k: int): (written: seq<(string, string)>)
    requires |fileOpens| == |q| && 0 <= k <= |q|
    ensures |written| <= k
    decreases k
  {
    if k == 0 then []
    else
      DrainedPops(q, mounted, fileOpens, k - 1)
      + (if mounted && fileOpens[k - 1] then [q[|q| - k]] else [])
  }

  /** The writes draining the whole stack `q` performs. */
  function Drained(q: seq<(string, string)>, mounted: bool, fileOpens: seq<bool>): (d: seq<IoEvent>)
    requires |fileOpens| == |q|
    ensures |d| <= |q|
  {
    Writes(DrainedPops(q, mounted, fileOpens, |q|))
  }

  /** Popping one more entry adds it to the written ones exactly when the card is mounted and its file opens. */
  lemma DrainedStep(q: seq<(string, string)>, mounted: bool, fileOpens: seq<bool>, k: int)
    requires |fileOpens| == |q| && 0 <= k < |q|
    ensures DrainedPops(q, mounted, fileOpens, k + 1)
      == DrainedPops(q, mounted, fileOpens, k) + (if mounted && fileOpens[k] then [q[|q| - 1 - k]] else [])
  {
  }

  /** With every open succeeding on a mounted card, the first `k` pops write the top `k` entries, top first. */
  lemma {:induction false} AllOpenedPops(q: seq<(string, string)>, fileOpens: seq<bool>, k: int)
    requires |fileOpens| == |q| && 0 <= k <= |q| && forall j | 0 <= j < |fileOpens| :: fileOpens[j]
    ensures var written := DrainedPops(q, true, fileOpens, k);
      |written| == k && forall i | 0 <= i < k :: written[i] == q[|q| - 1 - i]
    decreases k
  {
    if k > 0 {
      AllOpenedPops(q, fileOpens, k - 1);
    }
  }

  /** When every open succeeds on a mounted card, each entry is written once, the top first. */
  lemma DrainedAllOpened(q: seq<(string, string)>, fileOpens: seq<bool>)
    requires |fileOpens| == |q| && forall k | 0 <= k < |fileOpens| :: fileOpens[k]
    ensures var d := Drained(q, true, fileOpens);
      |d| == |q| && forall i | 0 <= i < |q| :: d[i] == WriteOf(q[|q| - 1 - i])
  {
    AllOpenedPops(q, fileOpens, |q|);
  }

  /** After a failed mount the first `k` pops write nothing: every popped entry is lost. */
  lemma {:induction false} UnmountedPops(q: seq<(string, string)>, fileOpens: seq<bool>, k: int)
    requires |fileOpens| == |q| && 0 <= k <= |q|
    ensures DrainedPops(q, false, fileOpens, k) == []
    decreases k
  {
    if k > 0 {
      UnmountedPops(q, fileOpens, k - 1);
    }
  }

  /** After a failed mount nothing is written, though the whole stack is emptied. */
  lemma DrainedUnmounted(q: seq<(string, string)>, fileOpens: seq<bool>)
    requires |fileOpens| == |q|
    ensures Drained(q, false, fileOpens) == []
  {
    UnmountedPops(q, fileOpens, |q|);
  }

  /**
    Because the last write to a path is the one that stays, the entry queued
    FIRST for a path is what ends up on the card: two addresses queued for
    ipAddress.txt before the card is next taken leave the older one.
   */
  lemma OldestQueuedWrittenLast(q: seq<(string, string)>, older: (string, string), newer: (string, string),
                                 fileOpens: seq<bool>)
    requires |fileOpens| == |q| + 2 && forall k | 0 <= k < |fileOpens| :: fileOpens[k]
    ensures var d := Drained([older] + q + [newer], true, fileOpens);
      d[0] == WriteOf(newer) && d[|d| - 1] == WriteOf(older)
  {
    var all := [older] + q + [newer];
    DrainedAllOpened(all, fileOpens);
    assert all[0] == older && all[|all| - 1] == newer;
  }

  /** (int)ContentLength64: the low 32 bits, as a signed value. */
  function Int32(x: int): int
  {
    (x + 0x8000_0000) % 0x1_0000_0000 - 0x8000_0000
  }

  /** How many bytes the upload loop takes from a request body of `available` bytes. */
  function Uploaded(contentLength64: int, available: nat): nat
  {
    var fileSize := Int32(contentLength64);
    if fileSize <= 0 then 0 else MathMin(fileSize, available)
  }

  /**
    `events` write `data` to `path` in chunks at consecutive offsets from
    `offset`, each chunk between 1 and ChunkSize bytes.
   */
  predicate ChunksFrom(events: seq<IoEvent>, path: string, offset: int, data: seq<bv8>)
    decreases |events|
  {
    if events == [] then data == []
    else
      var e := events[0];
      e.WroteAt? && e.path == path && e.position == offset
      && 0 < |e.bytes| <= ChunkSize && |e.bytes| <= |data| && data[..|e.bytes|] == e.bytes
      && ChunksFrom(events[1..], path, offset + |e.bytes|, data[|e.bytes|..])
  }

  /** One more chunk after `data` extends the upload by that chunk. */
  lemma {:induction false} ChunksSnoc(events: seq<IoEvent>, path: string, offset: int, data: seq<bv8>, chunk: seq<bv8>)
    requires ChunksFrom(events, path, offset, data)
    requires 0 < |chunk| <= ChunkSize
    ensures ChunksFrom(events + [WroteAt(path, offset + |data|, chunk)], path, offset, data + chunk)
    decreases |events|
  {
    var next := WroteAt(path, offset + |data|, chunk);
    if events == [] {
      assert ([next] + [])[1..] == [];
      assert (data + chunk)[|chunk|..] == [];
    } else {
      var n := |events[0].bytes|;
      ChunksSnoc(events[1..], path, offset + n, data[n..], chunk);
      assert (events + [next])[1..] == events[1..] + [next];
      assert (data + chunk)[n..] == data[n..] + chunk;
      assert (data + chunk)[..n] == data[..n];
    }
  }

  /** No chunk of an upload reaches past its end: writes stay within [offset, offset + |data|). */
  lemma {:induction false} ChunksWithin(events: seq<IoEvent>, path: string, offset: int, data: seq<bv8>)
    requires ChunksFrom(events, path, offset, data)
    ensures forall i | 0 <= i < |events| ::
      events[i].WroteAt? && offset <= events[i].position
      && events[i].position + |events[i].bytes| <= offset + |data|
    decreases |events|
  {
    if events != [] {
      var n := |events[0].bytes|;
      ChunksWithin(events[1..], path, offset + n, data[n..]);
      forall i | 1 <= i < |events|
        ensures events[i] == events[1..][i - 1]
      {
      }
    }
  }

  /** An upload never writes past (int)ContentLength64, and no chunk exceeds the 64 KiB buffer. */
  lemma UploadBounded(contentLength64: int, available: nat, events: seq<IoEvent>, path: string, data: seq<bv8>)
    requires ChunksFrom(events, path, 0, data)
    requires |data| == Uploaded(contentLength64, available)
    ensures |data| <= available
    ensures forall i | 0 <= i < |events| ::
      events[i].WroteAt? && 0 <= events[i].position
      && events[i].position + |events[i].bytes| <= Int32(contentLength64)
      && |events[i].bytes| <= ChunkSize
  {
    ChunksWithin(events, path, 0, data);
    ChunksSized(events, path, 0, data);
  }

  lemma {:induction false} ChunksSized(events: seq<IoEvent>, path: string, offset: int, data: seq<bv8>)
    requires ChunksFrom(events, path, offset, data)
    ensures forall i | 0 <= i < |events| :: events[i].WroteAt? && 0 < |events[i].bytes| <= ChunkSize
    decreases |events|
  {
    if events != [] {
      var n := |events[0].bytes|;
      ChunksSized(events[1..], path, offset + n, data[n..]);
      forall i | 1 <= i < |events|
        ensures events[i] == events[1..][i - 1]
      {
      }
    }
  }

  /** A Content-Length below 2 GiB is taken as is; one of exactly 4 GiB wraps to 0 and uploads nothing. */
  lemma Int32Cast(contentLength64: int, available: nat)
    ensures 0 <= contentLength64 < 0x8000_0000 ==> Int32(contentLength64) == contentLength64
    ensures Int32(0x1_0000_0000) == 0 && Uploaded(0x1_0000_0000, available) == 0
    ensures Uploaded(-1, available) == 0
  {
  }

  /** The upload path whose update must be reported to the Wi-Fi manager. */
  predicate IsWifiIni(path: string)
    ensures IsWifiIni(path) ==> |path| >= |"wifi.ini"|
  {
    Trim(ToLower(path), {'/'}) == "wifi.ini"
  }

  /**
    The settings file is "wifi.ini" in any letter case with nothing around it but slashes,
    so a wifi.ini inside a subdirectory does not count.
   */
  lemma WifiIniShape(path: string)
    requires IsWifiIni(path)
    ensures exists i | 0 <= i <= |path| - 8 :: WifiIniAt(path, i)
  {
    var s := ToLower(path);
    var ts := TrimStart(s, {'/'});
    var i := |s| - |ts|;
    assert TrimEnd(ts, {'/'}) == "wifi.ini";
    assert ts[..8] == "wifi.ini";
    assert s[i..i + 8] == ts[..8];
    forall k | 0 <= k < i ensures path[k] == '/' {
      assert s[k] == '/';
    }
    forall k | i + 8 <= k < |path| ensures path[k] == '/' {
      assert ts[k - i] == s[k];
    }
    assert WifiIniAt(path, i);
  }

  /** "wifi.ini", in any letter case, starts at `i` and only slashes surround it. */
  predicate WifiIniAt(path: string, i: int)
    requires 0 <= i <= |path| - 8
  {
    ToLower(path)[i..i + 8] == "wifi.ini"
    && (forall k | 0 <= k < i :: path[k] == '/') && (forall k | i + 8 <= k < |path| :: path[k] == '/')
  }

  /* ---------------------------------------------------------------------- */
  /* Reading files                                                          */
  /* ---------------------------------------------------------------------- */

  /** A file on the card as a read sees it. */
  datatype FileInfo = FileInfo(content: seq<bv8>, lastModified: int)

  /** The bytes a read of up to `count` bytes at `position` returns. */
  function ReadAt(content: seq<bv8>, position: nat, count: nat): (r: seq<bv8>)
    ensures |r| <= count
    ensures r == [] || (position + |r| <= |content| && r == content[position..position + |r|])
    ensures position < |content| && count > 0 ==> |r| > 0
  {
    if position >= |content| then [] else content[position..position + MathMin(count, |content| - position)]
  }

  /** The response built for a GET of a file: status, Content-Length and Last-Modified headers, body. */
  datatype HttpResponse = HttpResponse(status: int, contentLength: Option<int>, lastModified: Option<int>, body: seq<bv8>)

  /** The request carries an If-Modified-Since header that is not empty and parses as a date. */
  predicate HasIfModified(ifModifiedSince: Option<string>, parseDate: string -> Option<int>)
  {
    ifModifiedSince.Some? && ifModifiedSince.value != "" && parseDate(ifModifiedSince.value).Some?
  }

  /** The status of a GET of a file modified at `lastModified`. */
  function ConditionalStatus(ifModifiedSince: Option<string>, parseDate: string -> Option<int>, lastModified: int): (status: int)
    ensures status == 200 || status == 304
  {
    if HasIfModified(ifModifiedSince, parseDate) && lastModified <= parseDate(ifModifiedSince.value).value then 304 else 200
  }

  /**
    WriteFileToHttpResponse's response. A missing file makes GetLengthInternal
    throw; the exception is logged and the response keeps its defaults
    (status 200, no length, no body).
   */
  function FileResponse(file: Option<FileInfo>, ifModifiedSince: Option<string>, parseDate: string -> Option<int>, sendFile: bool): HttpResponse
  {
    if file.None? then HttpResponse(200, None, None, [])
    else
      var status := ConditionalStatus(ifModifiedSince, parseDate, file.value.lastModified);
      HttpResponse(status, Some(|file.value.content|), Some(file.value.lastModified),
                   if status == 200 && sendFile then file.value.content else [])
  }

  /** 304 exactly when the header is present, parses, and the file is not newer than its date. */
  lemma NotModifiedIff(ifModifiedSince: Option<string>, parseDate: string -> Option<int>, f: FileInfo, sendFile: bool)
    ensures var r := FileResponse(Some(f), ifModifiedSince, parseDate, sendFile);
      (r.status == 304 <==>
        ifModifiedSince.Some? && ifModifiedSince.value != "" && parseDate(ifModifiedSince.value).Some?
        && f.lastModified <= parseDate(ifModifiedSince.value).value)
      && (r.status != 304 ==> r.status == 200)
  {
  }

  /** The body is the whole file when the status is 200 and the file is wanted, and empty otherwise. */
  lemma BodyOnlyWhenSent(file: Option<FileInfo>, ifModifiedSince: Option<string>, parseDate: string -> Option<int>, sendFile: bool)
    ensures var r := FileResponse(file, ifModifiedSince, parseDate, sendFile);
      (r.body != [] ==> r.status == 200 && sendFile)
      && (file.Some? && r.status == 200 && sendFile ==> r.body == file.value.content)
      && (file.Some? ==> r.contentLength == Some(|file.value.content|))
  {
  }

  /** A file that was not modified since a date is not modified since any later date either. */
  lemma NotModifiedLater(ifModifiedSince: Option<string>, parseDate: string -> Option<int>, lastModified: int, earlier: int)
    requires ConditionalStatus(ifModifiedSince, parseDate, lastModified) == 304
    requires earlier <= lastModified
    ensures ConditionalStatus(ifModifiedSince, parseDate, earlier) == 304
  {
  }

  /** No If-Modified-Since header, or one that does not parse, gives 200. */
  lemma NoConditionIsOk(ifModifiedSince: Option<string>, parseDate: string -> Option<int>, lastModified: int)
    requires ifModifiedSince.None? || parseDate(ifModifiedSince.value).None?
    ensures ConditionalStatus(ifModifiedSince, parseDate, lastModified) == 200
  {
  }

  /** The zero-filled buffer's content after reading `n` bytes of `content` at `address` into it. */
  function PaddedWindow(content: seq<bv8>, address: nat, n: nat): (w: seq<bv8>)
    ensures |w| == n
  {
    seq(n, i requires 0 <= i < n => if address + i < |content| then content[address + i] else 0)
  }

  /**
    What CheckFileValue answers: false when the file cannot be opened or the
    seek fails, otherwise whether the zero-filled buffer, after one Read of
    up to |value| bytes at `address`, equals `value`.
   */
  predicate ValueMatchesAsWritten(file: Option<seq<bv8>>, address: int, value: seq<bv8>)
  {
    file.Some? && 0 <= address && PaddedWindow(file.value, address, |value|) == value
  }

  /** What CheckFileValue is for: the file holds `value` at `address`. */
  predicate ValueMatches(file: Option<seq<bv8>>, address: int, value: seq<bv8>)
  {
    file.Some? && 0 <= address && address + |value| <= |file.value|
    && file.value[address..address + |value|] == value
  }

  /** When the region lies inside the file, the firmware's answer is the intended one. */
  lemma ValueMatchesInRange(content: seq<bv8>, address: int, value: seq<bv8>)
    requires 0 <= address && address + |value| <= |content|
    ensures ValueMatchesAsWritten(Some(content), address, value) <==> ValueMatches(Some(content), address, value)
  {
    if ValueMatchesAsWritten(Some(content), address, value) {
      assert content[address..address + |value|] == value;
    }
  }

  /** Past the end of the file the firmware compares against zeros: an empty file "holds" [0] at offset 0. */
  lemma ShortFileMatchesZeros(content: seq<bv8>, address: int)
    requires 0 <= address && address >= |content|
    ensures ValueMatchesAsWritten(Some(content), address, [0])
    ensures !ValueMatches(Some(content), address, [0])
  {
    assert PaddedWindow(content, address, 1) == [0];
  }

  /** FileStream.Read into `buffer`: the bytes of the file from `address` on, as many as fit or remain. */
  method ReadInto(buffer: array<bv8>, content: seq<bv8>, address: nat) returns (n: nat)
    modifies buffer
    ensures n == |ReadAt(content, address, buffer.Length)|
    ensures buffer[..n] == ReadAt(content, address, buffer.Length)
    ensures buffer[n..] == old(buffer[n..])
  {
    var bytes := ReadAt(content, address, buffer.Length);
    n := |bytes|;
    forall j | 0 <= j < n {
      buffer[j] := bytes[j];
    }
  }

  /** The comparison loop of CheckFileValue. */
  method SameBytes(buffer: array<bv8>, value: seq<bv8>) returns (same: bool)
    requires buffer.Length == |value|
    ensures same <==> buffer[..] == value
  {
    for i := 0 to |value|
      invariant buffer[..i] == value[..i]
    {
      if value[i] != buffer[i] {
        return false;
      }
    }
    assert buffer[..] == buffer[..|value|];
    return true;
  }

  /* ---------------------------------------------------------------------- */
  /* Recursive listing                                                      */
  /* ---------------------------------------------------------------------- */

  /** A directory tree on the card. */
  datatype Node = File(name: string) | Dir(name: string, children: seq<Node>)

  /** The full path of the entry `name` inside the directory `dir`. */
  function EntryPath(dir: string, name: string): string
  {
    if dir != [] && dir[|dir| - 1] == '\\' then dir + name else dir + "\\" + name
  }

  /** Directory.GetFiles: the full paths of the files among `children`, in order. */
  function FilesOf(dir: string, children: seq<Node>): seq<string>
    decreases |children|
  {
    if children == [] then []
    else (if children[0].File? then [EntryPath(dir, children[0].name)] else [])
         + FilesOf(dir, children[1..])
  }

  /** Directory.GetDirectories: the subdirectories among `children`, with their full paths, in order. */
  function DirsOf(dir: string, children: seq<Node>): seq<(string, Node)>
    decreases |children|
  {
    if children == [] then []
    else (if children[0].Dir? then [(EntryPath(dir, children[0].name), children[0])] else [])
         + DirsOf(dir, children[1..])
  }

  /** The files whose path ends with `ext`, in order. */
  function Matching(files: seq<string>, ext: string): seq<string>
    decreases |files|
  {
    if files == [] then []
    else (if EndsWith(files[0], ext) then [files[0]] else []) + Matching(files[1..], ext)
  }

  function Size(n: Node): nat
  {
    match n
    case File(_) => 1
    case Dir(_, children) => 1 + SizeAll(children)
  }

  function SizeAll(children: seq<Node>): nat
    decreases children
  {
    if children == [] then 0 else Size(children[0]) + SizeAll(children[1..])
  }

  /** The size of everything still on the directory stack. */
  function Pending(stack: seq<(string, Node)>): nat
    decreases |stack|
  {
    if stack == [] then 0 else Size(stack[0].1) + Pending(stack[1..])
  }

  lemma {:induction false} DirsSmaller(dir: string, children: seq<Node>)
    ensures Pending(DirsOf(dir, children)) <= SizeAll(children)
    decreases |children|
  {
    if children != [] {
      DirsSmaller(dir, children[1..]);
      var head := if children[0].Dir? then [(EntryPath(dir, children[0].name), children[0])] else [];
      PendingAppend(head, DirsOf(dir, children[1..]));
    }
  }

  lemma {:induction false} PendingAppend(a: seq<(string, Node)>, b: seq<(string, Node)>)
    ensures Pending(a + b) == Pending(a) + Pending(b)
    decreases |a|
  {
    if a == [] {
      assert a + b == b;
    } else {
      assert (a + b)[0] == a[0];
      assert (a + b)[1..] == a[1..] + b;
      PendingAppend(a[1..], b);
    }
  }

  /** The matching files below the directory `n` at `dir`, directory by directory in tree order. */
  function Listed(dir: string, n: Node, ext: string): seq<string>
    decreases Size(n), 0
  {
    match n
    case File(_) => []
    case Dir(_, children) =>
      DirsSmaller(dir, children);
      Matching(FilesOf(dir, children), ext) + ListedAll(DirsOf(dir, children), ext)
  }

  /** The matching files below each directory of `stack`. */
  function ListedAll(stack: seq<(string, Node)>, ext: string): seq<string>
    decreases Pending(stack), 1
  {
    if stack == [] then [] else Listed(stack[0].0, stack[0].1, ext) + ListedAll(stack[1..], ext)
  }

  lemma {:induction false} ListedAllAppend(a: seq<(string, Node)>, b: seq<(string, Node)>, ext: string)
    ensures ListedAll(a + b, ext) == ListedAll(a, ext) + ListedAll(b, ext)
    decreases |a|
  {
    if a == [] {
      assert a + b == b;
    } else {
      assert (a + b)[0] == a[0];
      assert (a + b)[1..] == a[1..] + b;
      ListedAllAppend(a[1..], b, ext);
    }
  }

  /** Every directory in the list is a directory node. */
  predicate AllDirs(stack: seq<(string, Node)>)
  {
    forall i | 0 <= i < |stack| :: stack[i].1.Dir?
  }

  lemma {:induction false} DirsOfAreDirs(dir: string, children: seq<Node>)
    ensures AllDirs(DirsOf(dir, children))
    decreases |children|
  {
    if children != [] {
      DirsOfAreDirs(dir, children[1..]);
    }
  }

  /**
    Visiting the directory on top of the stack trades it for its matching
    files and its subdirectories, and shrinks what is left to visit.
   */
  lemma VisitStep(results: seq<string>, rest: seq<(string, Node)>, dir: string, node: Node, ext: string)
    requires node.Dir?
    ensures var dirs := DirsOf(dir, node.children);
      multiset(ListedAll(rest + [(dir, node)], ext))
        == multiset(Matching(FilesOf(dir, node.children), ext)) + multiset(ListedAll(rest + dirs, ext))
      && Pending(rest + dirs) < Pending(rest + [(dir, node)])
      && AllDirs(dirs)
    ensures multiset(results + Matching(FilesOf(dir, node.children), ext))
        + multiset(ListedAll(rest + DirsOf(dir, node.children), ext))
      == multiset(results) + multiset(ListedAll(rest + [(dir, node)], ext))
  {
    var dirs := DirsOf(dir, node.children);
    ListedAllAppend(rest, [(dir, node)], ext);
    assert ListedAll([(dir, node)], ext) == Listed(dir, node, ext) + ListedAll([], ext);
    ListedAllAppend(rest, dirs, ext);
    PendingAppend(rest, [(dir, node)]);
    assert Pending([(dir, node)]) == Size(node) + Pending([]);
    PendingAppend(rest, dirs);
    DirsSmaller(dir, node.children);
    DirsOfAreDirs(dir, node.children);
  }

  lemma SplitLast<T>(s: seq<T>)
    requires s != []
    ensures s == s[..|s| - 1] + [s[|s| - 1]]
  {
  }

  /** The first loop over Directory.GetFiles: append the files whose path ends with `extension`. */
  method AddMatching(results: seq<string>, files: seq<string>, extension: string) returns (r: seq<string>)
    ensures r == results + Matching(files, extension)
  {
    r := results;
    for j := 0 to |files|
      invariant r == results + Matching(files[..j], extension)
    {
      MatchingSnoc(files[..j], files[j], extension);
      assert files[..j + 1] == files[..j] + [files[j]];
      if EndsWith(files[j], extension) {
        r := r + [files[j]];
      }
    }
    assert files[..|files|] == files;
  }

  /** The second loop, over Directory.GetDirectories: push every subdirectory. */
  method PushAll(stack: seq<(string, Node)>, dirs: seq<(string, Node)>) returns (r: seq<(string, Node)>)
    ensures r == stack + dirs
  {
    r := stack;
    for j := 0 to |dirs|
      invariant r == stack + dirs[..j]
    {
      assert dirs[..j + 1] == dirs[..j] + [dirs[j]];
      r := r + [dirs[j]];
    }
    assert dirs[..|dirs|] == dirs;
  }

  /**
    ListFilesRecursiveInternal: a stack of directories to visit, starting with
    the root; each popped directory contributes its matching files, then its
    subdirectories are pushed. A root that is missing or not a directory makes
    Directory.GetFiles throw (None). The result holds exactly the entries of
    Listed, each as often, in a different order.
   */
  method ListFilesRecursiveInternal(rootPath: string, root: Option<Node>, extension: string) returns (r: Option<seq<string>>)
    ensures r.None? <==> (root.None? || root.value.File?)
    ensures r.Some? ==> multiset(r.value) == multiset(Listed(rootPath, root.value, extension))
  {
    if root.None? || root.value.File? {
      return None;
    }
    var results: seq<string> := [];
    var directories := [(rootPath, root.value)];
    assert ListedAll(directories, extension) == Listed(rootPath, root.value, extension) + ListedAll([], extension);
    while |directories| > 0
      invariant AllDirs(directories)
      invariant multiset(results) + multiset(ListedAll(directories, extension))
        == multiset(Listed(rootPath, root.value, extension))
      decreases Pending(directories)
    {
      var rest := directories[..|directories| - 1];
      var top := directories[|directories| - 1];
      var currentDir := top.0;
      var node := top.1;
      SplitLast(directories);
      VisitStep(results, rest, currentDir, node, extension);
      results := AddMatching(results, FilesOf(currentDir, node.children), extension);
      directories := PushAll(rest, DirsOf(currentDir, node.children));
    }
    return Some(results);
  }

  lemma {:induction false} MatchingSnoc(files: seq<string>, f: string, ext: string)
    ensures Matching(files + [f], ext) == Matching(files, ext) + (if EndsWith(f, ext) then [f] else [])
    decreases |files|
  {
    if files == [] {
      assert [f][1..] == [];
    } else {
      assert (files + [f])[1..] == files[1..] + [f];
      MatchingSnoc(files[1..], f, ext);
    }
  }

  /** `x` is the full path of a file somewhere below the directory `n` at `dir`. */
  predicate InTree(dir: string, n: Node, x: string)
    decreases n
  {
    n.Dir? && exists i | 0 <= i < |n.children| ::
      (n.children[i].File? && EntryPath(dir, n.children[i].name) == x)
      || (n.children[i].Dir? && InTree(EntryPath(dir, n.children[i].name), n.children[i], x))
  }

  lemma {:induction false} FilesOfMembers(dir: string, children: seq<Node>, x: string)
    ensures x in FilesOf(dir, children) <==>
      exists i | 0 <= i < |children| :: children[i].File? && EntryPath(dir, children[i].name) == x
    decreases |children|
  {
    if children != [] {
      FilesOfMembers(dir, children[1..], x);
      if exists i | 0 <= i < |children[1..]| :: children[1..][i].File? && EntryPath(dir, children[1..][i].name) == x {
        var i :| 0 <= i < |children[1..]| && children[1..][i].File? && EntryPath(dir, children[1..][i].name) == x;
        assert children[i + 1] == children[1..][i];
      }
      if exists i | 0 <= i < |children| :: children[i].File? && EntryPath(dir, children[i].name) == x {
        var i :| 0 <= i < |children| && children[i].File? && EntryPath(dir, children[i].name) == x;
        if i > 0 {
          assert children[1..][i - 1] == children[i];
        }
      }
    }
  }

  lemma {:induction false} MatchingMembers(files: seq<string>, ext: string, x: string)
    ensures x in Matching(files, ext) <==> x in files && EndsWith(x, ext)
    decreases |files|
  {
    if files != [] {
      MatchingMembers(files[1..], ext, x);
      assert files == [files[0]] + files[1..];
    }
  }

  lemma {:induction false} ListedBelow(dir: string, children: seq<Node>, ext: string, x: string)
    ensures x in ListedAll(DirsOf(dir, children), ext) <==>
      exists i | 0 <= i < |children| ::
        children[i].Dir? && x in Listed(EntryPath(dir, children[i].name), children[i], ext)
    decreases |children|
  {
    if children != [] {
      var head := if children[0].Dir? then [(EntryPath(dir, children[0].name), children[0])] else [];
      ListedAllAppend(head, DirsOf(dir, children[1..]), ext);
      if children[0].Dir? {
        assert ListedAll(head, ext) == Listed(EntryPath(dir, children[0].name), children[0], ext) + ListedAll([], ext);
      }
      ListedBelow(dir, children[1..], ext, x);
      if exists i | 0 <= i < |children[1..]| ::
        children[1..][i].Dir? && x in Listed(EntryPath(dir, children[1..][i].name), children[1..][i], ext)
      {
        var i :| 0 <= i < |children[1..]| &&
          children[1..][i].Dir? && x in Listed(EntryPath(dir, children[1..][i].name), children[1..][i], ext);
        assert children[i + 1] == children[1..][i];
      }
      if exists i | 0 <= i < |children| ::
        children[i].Dir? && x in Listed(EntryPath(dir, children[i].name), children[i], ext)
      {
        var i :| 0 <= i < |children| &&
          children[i].Dir? && x in Listed(EntryPath(dir, children[i].name), children[i], ext);
        if i > 0 {
          assert children[1..][i - 1] == children[i];
        }
      }
    }
  }

  /** The listing holds exactly the files of the tree whose path ends with the extension. */
  lemma {:induction false} ListedIff(dir: string, n: Node, ext: string, x: string)
    ensures x in Listed(dir, n, ext) <==> InTree(dir, n, x) && EndsWith(x, ext)
    decreases n
  {
    if n.Dir? {
      var ch := n.children;
      MatchingMembers(FilesOf(dir, ch), ext, x);
      FilesOfMembers(dir, ch, x);
      ListedBelow(dir, ch, ext, x);
      forall i | 0 <= i < |ch| && ch[i].Dir?
        ensures x in Listed(EntryPath(dir, ch[i].name), ch[i], ext)
          <==> InTree(EntryPath(dir, ch[i].name), ch[i], x) && EndsWith(x, ext)
      {
        ListedIff(EntryPath(dir, ch[i].name), ch[i], ext, x);
      }
    }
  }

  /** Every file path below `dir` extends `dir`. */
  lemma {:induction false} InTreeLonger(dir: string, n: Node, x: string)
    requires InTree(dir, n, x)
    ensures |x| >= |dir|
    decreases n
  {
    var i :| 0 <= i < |n.children| &&
      ((n.children[i].File? && EntryPath(dir, n.children[i].name) == x)
      || (n.children[i].Dir? && InTree(EntryPath(dir, n.children[i].name), n.children[i], x)));
    if n.children[i].Dir? && InTree(EntryPath(dir, n.children[i].name), n.children[i], x) {
      InTreeLonger(EntryPath(dir, n.children[i].name), n.children[i], x);
    }
  }

  /** Card paths turned back into web paths. */
  function WebPaths(paths: seq<string>): (r: seq<string>)
    requires forall i | 0 <= i < |paths| :: |paths[i]| >= |RootPath|
    ensures |r| == |paths|
  {
    seq(|paths|, i requires 0 <= i < |paths| => SdToPath(paths[i]))
  }

  /* ---------------------------------------------------------------------- */
  /* The FileManager object                                                 */
  /* ---------------------------------------------------------------------- */

  /**
    The FileManager: the arbiter it goes through, the stack of deferred
    writes (top at the end), and the journal of what it did to the card.
    Every card operation takes the card (GrabSD, which first drains the
    stack) and soft-releases it when done.
   */
  class FileManager {
    const sd: SdManager.SdManager
    var writeQueue: seq<(string, string)>
    var io: seq<IoEvent>

    constructor (sdManager: SdManager.SdManager)
      ensures sd == sdManager && writeQueue == [] && io == []
    {
      sd := sdManager;
      writeQueue := [];
      io := [];
    }

    /** The arbiter's wait for the card ends: the card is held, or one of the polls finds it free. */
    predicate CanGrab(polls: seq<SdManager.Sample>)
      reads this, sd
    {
      sd.isSdGrabbed || exists i | 0 <= i < |polls| :: SdManager.IsSdAvailable(polls[i])
    }

    /** QueueWrite: defer a text file write until the card is next taken. */
    method QueueWrite(path: string, content: string)
      modifies this
      ensures writeQueue == old(writeQueue) + [(path, content)]
      ensures io == old(io)
    {
      writeQueue := writeQueue + [(path, content)];
    }

    /**
      WriteFileInternal: create the file and write the text, UTF-8 encoded.
      `opens` is whether the FileStream opens; when it throws (the card is not
      mounted, or the directory is missing), the exception is caught and
      nothing is written.
     */
    method WriteFileInternal(path: string, content: string, opens: bool)
      modifies this
      ensures io == old(io) + (if opens then [WriteOf((path, content))] else [])
      ensures writeQueue == old(writeQueue)
    {
      if opens {
        io := io + [Wrote(PathToSd(path), Utf8(content))];
      }
    }

    /**
      GrabSD: take the card, then pop and write every deferred write.
      `fileOpens[k]` is whether the FileStream of the `k`-th entry popped
      opens on a mounted card; on an unmounted one no open succeeds.
     */
    method GrabSD(polls: seq<SdManager.Sample>, mountSucceeds: bool, fileOpens: seq<bool>)
      requires CanGrab(polls) && |fileOpens| == |writeQueue|
      modifies this, sd
      ensures sd.State() == SdManager.Grab(old(sd.State()), mountSucceeds)
      ensures writeQueue == []
      ensures io == old(io) + Drained(old(writeQueue), SdManager.Grab(old(sd.State()), mountSucceeds).mounted, fileOpens)
    {
      var _ := sd.GrabSD(polls, mountSucceeds);
      DrainQueue(sd.mounted, fileOpens);
    }

    /** The loop of GrabSD: pop every entry, top first, and write it when its file opens. */
    method DrainQueue(mounted: bool, fileOpens: seq<bool>)
      requires |fileOpens| == |writeQueue|
      modifies this
      ensures writeQueue == []
      ensures io == old(io) + Drained(old(writeQueue), mounted, fileOpens)
    {
      ghost var queued := writeQueue;
      while |writeQueue| > 0
        invariant |fileOpens| == |queued| && |writeQueue| <= |queued| && writeQueue == queued[..|writeQueue|]
        invariant io == old(io) + Writes(DrainedPops(queued, mounted, fileOpens, |queued| - |writeQueue|))
        decreases |writeQueue|
      {
        PopAndWrite(queued, mounted, fileOpens, old(io));
      }
    }

    /**
      One turn of the drain: pop the top entry of the stack `queued[..m]` and
      write it when the card is mounted and its file opens; the journal then
      holds the writes of one more pop.
     */
    method PopAndWrite(ghost queued: seq<(string, string)>, mounted: bool, fileOpens: seq<bool>,
                       ghost start: seq<IoEvent>)
      requires |fileOpens| == |queued| && 0 < |writeQueue| <= |queued| && writeQueue == queued[..|writeQueue|]
      requires io == start + Writes(DrainedPops(queued, mounted, fileOpens, |queued| - |writeQueue|))
      modifies this
      ensures |writeQueue| == |old(writeQueue)| - 1 && writeQueue == queued[..|writeQueue|]
      ensures io == start + Writes(DrainedPops(queued, mounted, fileOpens, |queued| - |writeQueue|))
    {
      var m := |writeQueue|;
      var k := |fileOpens| - m;
      var queuedItem := writeQueue[m - 1];
      var opens := mounted && fileOpens[k];
      ghost var before := DrainedPops(queued, mounted, fileOpens, k);
      ghost var after := DrainedPops(queued, mounted, fileOpens, k + 1);
      assert (queuedItem.0, queuedItem.1) == queuedItem == queued[|queued| - 1 - k];
      DrainedStep(queued, mounted, fileOpens, k);
      if opens {
        WritesSnoc(before, queuedItem);
        assert Writes(after) == Writes(before) + [WriteOf(queuedItem)];
      } else {
        assert after == before;
      }
      writeQueue := writeQueue[..m - 1];
      assert writeQueue == queued[..m - 1];
      WriteFileInternal(queuedItem.0, queuedItem.1, opens);
      assert io == start + Writes(after);
    }

    /** ReleaseSD. */
    method ReleaseSD(instantRelease: bool)
      requires sd.pinsReady
      modifies sd
      ensures sd.State() == SdManager.Release(old(sd.State()), instantRelease)
    {
      sd.ReleaseSD(instantRelease);
    }

    /**
      WriteFileToSdCard: the upload of a request body to `path`, at most
      (int)ContentLength64 bytes, in chunks of at most 64 KiB at consecutive
      offsets, after creating the file; a wifi.ini upload is announced once
      the loop is over. `chunks` are the chunk writes. `createSucceeds` is
      whether File.Create returns normally on a mounted card; on an unmounted
      one it throws. When it throws (its directory is missing, say), the
      exception is caught and logged, so after the drain nothing is written,
      the body is not read and nothing is announced.
     */
    method WriteFileToSdCard(path: string, request: InputStream, contentLength64: int,
                             polls: seq<SdManager.Sample>, mountSucceeds: bool, fileOpens: seq<bool>,
                             createSucceeds: bool)
      returns (ghost chunks: seq<IoEvent>)
      requires CanGrab(polls) && |fileOpens| == |writeQueue|
      modifies this, sd, request
      ensures sd.State() == SdManager.Release(SdManager.Grab(old(sd.State()), mountSucceeds), false)
      ensures writeQueue == []
      ensures var created := createSucceeds && SdManager.Grab(old(sd.State()), mountSucceeds).mounted;
        created ==>
        var n := Uploaded(contentLength64, |old(request.pending)|);
        ChunksFrom(chunks, PathToSd(path), 0, old(request.pending)[..n])
        && request.pending == old(request.pending)[n..]
      ensures var created := createSucceeds && SdManager.Grab(old(sd.State()), mountSucceeds).mounted;
        !created ==> chunks == [] && request.pending == old(request.pending)
      ensures var mounted := SdManager.Grab(old(sd.State()), mountSucceeds).mounted;
        createSucceeds && mounted ==>
        io == old(io) + Drained(old(writeQueue), mounted, fileOpens) + [Created(PathToSd(path))] + chunks
              + (if IsWifiIni(path) then [WifiIniNotified] else [])
      ensures var mounted := SdManager.Grab(old(sd.State()), mountSucceeds).mounted;
        !(createSucceeds && mounted) ==> io == old(io) + Drained(old(writeQueue), mounted, fileOpens)
    {
      var wifiUpdate := Trim(ToLower(path), {'/'}) == "wifi.ini";
      var sdPath := PathToSd(path);
      GrabSD(polls, mountSucceeds, fileOpens);

      if !(createSucceeds && sd.mounted) {
        chunks := [];
        ReleaseSD(false);
        return;
      }
      io := io + [Created(sdPath)];
      chunks := UploadChunks(sdPath, request, Int32(contentLength64));

      if wifiUpdate {
        io := io + [WifiIniNotified];
      }
      ReleaseSD(false);
    }

    /**
      The loop of WriteFileToSdCard: fill the 64 KiB buffer from the request
      body, at most what is left of `fileSize`, and write it at `position`,
      until `fileSize` bytes are written or the body is exhausted.
     */
    method UploadChunks(sdPath: string, request: InputStream, fileSize: int) returns (ghost chunks: seq<IoEvent>)
      modifies this, request
      ensures var n := if fileSize <= 0 then 0 else MathMin(fileSize, |old(request.pending)|);
        ChunksFrom(chunks, sdPath, 0, old(request.pending)[..n])
        && request.pending == old(request.pending)[n..]
      ensures io == old(io) + chunks
      ensures writeQueue == old(writeQueue)
    {
      var buf := new bv8[ChunkSize];
      var position := 0;
      chunks := [];
      var exhausted := false;
      while position < fileSize && !exhausted
        invariant 0 <= position <= |old(request.pending)|
        invariant fileSize > 0 ==> position <= fileSize
        invariant fileSize <= 0 ==> position == 0
        invariant exhausted ==> request.pending == []
        invariant request.pending == old(request.pending)[position..]
        invariant io == old(io) + chunks
        invariant ChunksFrom(chunks, sdPath, 0, old(request.pending)[..position])
        invariant writeQueue == old(writeQueue)
        decreases fileSize - position, if exhausted then 0 else 1
      {
        var read := FillBuffer(buf, request, MathMin(ChunkSize, fileSize - position));
        if read == 0 {
          exhausted := true;
        } else {
          ChunksSnoc(chunks, sdPath, 0, old(request.pending)[..position], buf[..read]);
          assert old(request.pending)[..position] + buf[..read] == old(request.pending)[..position + read];
          io := io + [WroteAt(sdPath, position, buf[..read])];
          chunks := chunks + [WroteAt(sdPath, position, buf[..read])];
          position := position + read;
        }
      }
    }

    /**
      WriteFileToHttpResponse: answer a GET of `path`; `file` is what the card
      holds there, `parseDate` is DateTime.TryParse. The body is read from
      the card 64 KiB at a time until a read returns nothing.
     */
    method WriteFileToHttpResponse(path: string, file: Option<FileInfo>, ifModifiedSince: Option<string>,
                                   parseDate: string -> Option<int>, sendFile: bool,
                                   polls: seq<SdManager.Sample>, mountSucceeds: bool, fileOpens: seq<bool>)
      returns (response: HttpResponse)
      requires CanGrab(polls) && |fileOpens| == |writeQueue|
      modifies this, sd
      ensures response == FileResponse(file, ifModifiedSince, parseDate, sendFile)
      ensures sd.State() == SdManager.Release(SdManager.Grab(old(sd.State()), mountSucceeds), false)
      ensures writeQueue == []
      ensures io == old(io) + Drained(old(writeQueue), SdManager.Grab(old(sd.State()), mountSucceeds).mounted, fileOpens)
    {
      GrabSD(polls, mountSucceeds, fileOpens);
      if file.None? {
        ReleaseSD(false);
        return HttpResponse(200, None, None, []);
      }
      var content := file.value.content;
      var lastModified := file.value.lastModified;
      var hasIfModified := ifModifiedSince.Some? && ifModifiedSince.value != ""
                           && parseDate(ifModifiedSince.value).Some?;
      if hasIfModified && lastModified <= parseDate(ifModifiedSince.value).value {
        ReleaseSD(false);
        return HttpResponse(304, Some(|content|), Some(lastModified), []);
      }
      if !sendFile {
        ReleaseSD(false);
        return HttpResponse(200, Some(|content|), Some(lastModified), []);
      }
      var body: seq<bv8> := [];
      var pos := 0;
      var read := ReadAt(content, pos, ChunkSize);
      while |read| != 0
        invariant 0 <= pos <= |content| && body == content[..pos]
        invariant read == ReadAt(content, pos, ChunkSize)
        decreases |content| - pos
      {
        assert content[..pos + |read|] == content[..pos] + read;
        body := body + read;
        pos := pos + |read|;
        read := ReadAt(content, pos, ChunkSize);
      }
      assert pos == |content|;
      ReleaseSD(false);
      return HttpResponse(200, Some(|content|), Some(lastModified), body);
    }

    /**
      CheckFileValue as the firmware writes it: read |value| bytes at
      `address` into a zero-filled buffer, ignoring how many arrived, and
      compare. A missing file or a negative address throws: false.
     */
    method CheckFileValue(path: string, file: Option<seq<bv8>>, address: int, value: seq<bv8>,
                          polls: seq<SdManager.Sample>, mountSucceeds: bool, fileOpens: seq<bool>)
      returns (r: bool)
      requires CanGrab(polls) && |fileOpens| == |writeQueue|
      modifies this, sd
      ensures r == ValueMatchesAsWritten(file, address, value)
      ensures sd.State() == SdManager.Release(SdManager.Grab(old(sd.State()), mountSucceeds), false)
      ensures writeQueue == []
      ensures io == old(io) + Drained(old(writeQueue), SdManager.Grab(old(sd.State()), mountSucceeds).mounted, fileOpens)
    {
      GrabSD(polls, mountSucceeds, fileOpens);
      var readBuf := new bv8[|value|](_ => 0);
      if file.None? || address < 0 {
        ReleaseSD(false);
        return false;
      }
      var n := ReadInto(readBuf, file.value, address);
      PaddedAfterRead(file.value, address, readBuf[..], n);
      r := SameBytes(readBuf, value);
      ReleaseSD(false);
    }

    /** CheckFileValue as intended: a region that does not lie inside the file does not hold the value. */
    method CheckFileValueExact(path: string, file: Option<seq<bv8>>, address: int, value: seq<bv8>,
                               polls: seq<SdManager.Sample>, mountSucceeds: bool, fileOpens: seq<bool>)
      returns (r: bool)
      requires CanGrab(polls) && |fileOpens| == |writeQueue|
      modifies this, sd
      ensures r == ValueMatches(file, address, value)
      ensures sd.State() == SdManager.Release(SdManager.Grab(old(sd.State()), mountSucceeds), false)
      ensures writeQueue == []
      ensures io == old(io) + Drained(old(writeQueue), SdManager.Grab(old(sd.State()), mountSucceeds).mounted, fileOpens)
    {
      GrabSD(polls, mountSucceeds, fileOpens);
      var readBuf := new bv8[|value|](_ => 0);
      if file.None? || address < 0 {
        ReleaseSD(false);
        return false;
      }
      if address + |value| > |file.value| {
        ReleaseSD(false);
        return false;
      }
      var n := ReadInto(readBuf, file.value, address);
      assert readBuf[..] == readBuf[..n];
      r := SameBytes(readBuf, value);
      ReleaseSD(false);
    }

    /**
      ListFilesRecursive: the files below `path` ending with `extension`, as
      web paths. `root` is what the card holds at PathToSd(path); `found` is
      the listing before the paths are rewritten in place.
     */
    method ListFilesRecursive(path: string, root: Option<Node>, extension: string,
                              polls: seq<SdManager.Sample>, mountSucceeds: bool, fileOpens: seq<bool>)
      returns (r: Option<seq<string>>, ghost found: seq<string>)
      requires CanGrab(polls) && |fileOpens| == |writeQueue|
      modifies this, sd
      ensures r.None? <==> (root.None? || root.value.File?)
      ensures r.Some? ==>
        multiset(found) == multiset(Listed(PathToSd(path), root.value, extension))
        && (forall i | 0 <= i < |found| :: |found[i]| >= |RootPath|)
        && r.value == WebPaths(found)
      ensures sd.State() == SdManager.Release(SdManager.Grab(old(sd.State()), mountSucceeds), false)
      ensures writeQueue == []
      ensures io == old(io) + Drained(old(writeQueue), SdManager.Grab(old(sd.State()), mountSucceeds).mounted, fileOpens)
    {
      var sdPath := PathToSd(path);
      GrabSD(polls, mountSucceeds, fileOpens);
      var internal := ListFilesRecursiveInternal(sdPath, root, extension);
      if internal.None? {
        ReleaseSD(false);
        return None, [];
      }
      var list := internal.value;
      found := list;
      PathToSdUnderRoot(path);
      ListedLonger(sdPath, root.value, extension, list);
      var results := ToWebPaths(list);
      ReleaseSD(false);
      return Some(results), found;
    }
  }

  /** Any arrangement of a listing below `dir` holds paths extending `dir`. */
  lemma ListedLonger(dir: string, n: Node, ext: string, found: seq<string>)
    requires multiset(found) == multiset(Listed(dir, n, ext))
    ensures forall i | 0 <= i < |found| :: |found[i]| >= |dir|
  {
    forall i | 0 <= i < |found|
      ensures |found[i]| >= |dir|
    {
      assert found[i] in multiset(Listed(dir, n, ext));
      ListedIff(dir, n, ext, found[i]);
      InTreeLonger(dir, n, found[i]);
    }
  }

  /** The listing methods' last step: rewrite every result in place with SdToPath. */
  method ToWebPaths(list: seq<string>) returns (r: seq<string>)
    requires forall i | 0 <= i < |list| :: |list[i]| >= |RootPath|
    ensures r == WebPaths(list)
  {
    var results := new string[|list|](i requires 0 <= i < |list| => list[i]);
    for i := 0 to results.Length
      invariant forall j | 0 <= j < results.Length ::
        results[j] == if j < i then SdToPath(list[j]) else list[j]
    {
      results[i] := SdToPath(results[i]);
    }
    r := results[..];
  }

  /** The zero-filled buffer after a read of `n` bytes at `address` holds the padded window. */
  lemma PaddedAfterRead(content: seq<bv8>, address: nat, buf: seq<bv8>, n: nat)
    requires n == |ReadAt(content, address, |buf|)|
    requires buf[..n] == ReadAt(content, address, |buf|)
    requires forall j | n <= j < |buf| :: buf[j] == 0
    ensures buf == PaddedWindow(content, address, |buf|)
  {
    var w := ReadAt(content, address, |buf|);
    forall j | 0 <= j < |buf|
      ensures buf[j] == PaddedWindow(content, address, |buf|)[j]
    {
      if j < n {
        assert buf[j] == w[j];
      }
    }
  }
}
