/**
  The WebDAV server: which handler a request method reaches, the status
  each handler answers with and the storage call it makes, the advisory lock
  table, and the PROPFIND response elements.

  The card is seen through the questions the handlers ask the FileManager
  (does a file or a directory exist, what does a directory list) and the
  storage calls they make are returned as an action rather than performed.
  URL decoding, Uri parsing and DateTime.TryParse are parameters; the XML
  text of the responses is reduced to the elements it lists.
 */
module WebDav {
  import opened Wrappers
  import FileManager

  /** The largest LOCK or PROPPATCH body the server reads. */
  const MaxBody := 65536

  /** The request methods with a handler. */
  const Methods: set<string> :=
    {"GET", "HEAD", "DELETE", "PUT", "MKCOL", "LOCK", "UNLOCK", "PROPFIND", "PROPPATCH", "MOVE", "OPTIONS"}

  /** The Allow header OPTIONS sends, in its order. */
  const Allowed: seq<string> :=
    ["OPTIONS", "GET", "HEAD", "PUT", "LOCK", "UNLOCK", "PROPFIND", "PROPPATCH", "DELETE", "MKCOL", "MOVE"]

  /**
    What a handler sees of a request: the method, the decoded path, the
    Destination, Depth and If-Modified-Since headers (None when absent) and
    ContentLength64.
   */
  datatype Request = Request(
    httpMethod: string,
    path: string,
    destination: Option<string>,
    depth: Option<string>,
    ifModifiedSince: Option<string>,
    contentLength: int)

  /**
    The card as the handlers see it, through the FileManager: files (with
    what a GET reads) and directories by card path, and what ListDirectories
    and ListFiles return for a web path.
   */
  datatype Card = Card(
    files: map<string, FileManager.FileInfo>,
    dirs: set<string>,
    subdirs: string -> seq<string>,
    filesIn: string -> seq<string>)

  /**
    The library calls the handlers rely on: DateTime.TryParse, the decoded
    absolute path of a Destination URI, and FileManager.GetDirectoryName.
   */
  datatype Env = Env(
    parseDate: string -> Option<int>,
    destinationPath: string -> string,
    parentDir: string -> string)

  predicate FileExists(card: Card, path: string)
  {
    FileManager.PathToSd(path) in card.files
  }

  predicate DirectoryExists(card: Card, path: string)
  {
    FileManager.PathToSd(path) in card.dirs
  }

  /** One response element of a PROPFIND answer, with the lock token it reports. */
  datatype PropEntry = PropEntry(path: string, isDirectory: bool, lockToken: Option<string>)

  /** The storage call a handler makes, or the body it sends. */
  datatype Action =
    | NoAction
    | MoveFile(from: string, to: string)
    | MoveDirectory(from: string, to: string)
    | CreateDirectory(path: string)
    | DeleteFile(path: string)
    | DeleteDirectory(path: string)
    | Upload(path: string)
    | Serve(response: FileManager.HttpResponse)
    | Multistatus(entries: seq<PropEntry>)
    | PropPatchAck(path: string)
    | LockGranted(path: string, token: string)
    | Capabilities(allow: seq<string>)

  /** The status of the response, the Content-Length set by the handler (None if it sets none), and the action. */
  datatype Reply = Reply(status: int, contentLength: Option<int>, action: Action)

  /** SendEmptyResponse. */
  function Empty(status: int): Reply
  {
    Reply(status, Some(0), NoAction)
  }

  /** MOVE. */
  function Move(req: Request, card: Card, env: Env): (r: Reply)
    ensures r.status in {204, 400, 403, 404, 409} && r.contentLength == Some(0)
  {
    if req.destination.None? || req.destination.value == "" then Empty(400)
    else
      var destination := env.destinationPath(req.destination.value);
      if req.path == destination then Empty(403)
      else if !DirectoryExists(card, env.parentDir(destination)) then Empty(409)
      else if FileExists(card, req.path) then Reply(204, Some(0), MoveFile(req.path, destination))
      else if DirectoryExists(card, req.path) then Reply(204, Some(0), MoveDirectory(req.path, destination))
      else Empty(404)
  }

  /** MKCOL. */
  function MkCol(req: Request, card: Card): (r: Reply)
    ensures r.status in {201, 409} && r.contentLength == Some(0)
  {
    if DirectoryExists(card, req.path) then Empty(409)
    else Reply(201, Some(0), CreateDirectory(req.path))
  }

  /** DELETE. */
  function Delete(req: Request, card: Card): (r: Reply)
    ensures r.status in {204, 404} && r.contentLength == Some(0)
  {
    if FileExists(card, req.path) then Reply(204, Some(0), DeleteFile(req.path))
    else if DirectoryExists(card, req.path) then Reply(204, Some(0), DeleteDirectory(req.path))
    else Empty(404)
  }

  /**
    PUT: the status is decided before the upload and is sent whatever the
    upload then does (WriteFileToSdCard catches its own exceptions).
   */
  function Put(req: Request, card: Card): (r: Reply)
    ensures r.status in {201, 204} && r.action == Upload(req.path)
  {
    Reply(if FileExists(card, req.path) then 204 else 201, None, Upload(req.path))
  }

  /** GET, and HEAD with `headMode`: the FileManager answers for an existing file. */
  function Get(req: Request, card: Card, env: Env, headMode: bool): (r: Reply)
    ensures r.status in {200, 304, 404}
  {
    if FileExists(card, req.path) then
      var response := FileManager.FileResponse(
        Some(card.files[FileManager.PathToSd(req.path)]), req.ifModifiedSince, env.parseDate, !headMode);
      Reply(response.status, response.contentLength, Serve(response))
    else Empty(404)
  }

  /** PROPPATCH: nothing can be set, so the answer only echoes the path, unless the body is too large. */
  function PropPatch(req: Request): (r: Reply)
    ensures r.status in {200, 413} && r.contentLength.None?
  {
    if req.contentLength > MaxBody then Reply(413, None, NoAction)
    else Reply(200, None, PropPatchAck(req.path))
  }

  /** The handlers that do not touch the lock table, and the 405 for unknown methods. */
  function Dispatch(req: Request, card: Card, env: Env): (r: Reply)
    ensures req.httpMethod !in Methods ==> r == Empty(405)
  {
    match req.httpMethod
    case "GET" => Get(req, card, env, false)
    case "HEAD" => Get(req, card, env, true)
    case "DELETE" => Delete(req, card)
    case "PUT" => Put(req, card)
    case "MKCOL" => MkCol(req, card)
    case "PROPPATCH" => PropPatch(req)
    case "MOVE" => Move(req, card, env)
    case "OPTIONS" => Reply(200, None, Capabilities(Allowed))
    case _ => Empty(405)
  }

  /** Depth "1" or "infinity" asks for the children too. */
  predicate IncludeChildren(depth: Option<string>)
  {
    depth == Some("1") || depth == Some("infinity")
  }

  /** The response element for `path`, reporting its lock if it has one. */
  function EntryFor(locks: map<string, string>, path: string, isDirectory: bool): PropEntry
  {
    PropEntry(path, isDirectory, if path in locks then Some(locks[path]) else None)
  }

  /** The response elements for a list of paths. */
  function EntriesFor(locks: map<string, string>, paths: seq<string>, isDirectory: bool): (es: seq<PropEntry>)
    ensures |es| == |paths|
  {
    seq(|paths|, i requires 0 <= i < |paths| => EntryFor(locks, paths[i], isDirectory))
  }

  /** The PROPFIND answer. */
  function PropFindReply(locks: map<string, string>, req: Request, card: Card): Reply
  {
    if DirectoryExists(card, req.path) then
      var own := [EntryFor(locks, req.path, true)];
      if IncludeChildren(req.depth) then
        Reply(207, None, Multistatus(own + EntriesFor(locks, card.subdirs(req.path), true)
                                         + EntriesFor(locks, card.filesIn(req.path), false)))
      else Reply(207, None, Multistatus(own))
    else if FileExists(card, req.path) then Reply(207, None, Multistatus([EntryFor(locks, req.path, false)]))
    else Empty(404)
  }

  /** OPTIONS advertises exactly the methods that have a handler. */
  lemma AllowedAreHandled(m: string)
    ensures m in Allowed <==> m in Methods
  {
  }

  /** A method other than LOCK, UNLOCK and PROPFIND is refused with 405 exactly when it has no handler. */
  lemma NotAllowedIff(req: Request, card: Card, env: Env)
    requires req.httpMethod !in {"LOCK", "UNLOCK", "PROPFIND"}
    ensures Dispatch(req, card, env).status == 405 <==> req.httpMethod !in Methods
    ensures req.httpMethod !in Methods ==> Dispatch(req, card, env) == Reply(405, Some(0), NoAction)
  {
    if req.httpMethod in {"GET", "HEAD"} {
      if FileExists(card, req.path) {
        var f := card.files[FileManager.PathToSd(req.path)];
        FileManager.NotModifiedIff(req.ifModifiedSince, env.parseDate, f, req.httpMethod == "GET");
      }
    }
  }

  /** HEAD answers as GET does, with the same status and length, but sends no body. */
  lemma HeadIsGetWithoutBody(req: Request, card: Card, env: Env)
    ensures var get := Get(req, card, env, false);
      var head := Get(req, card, env, true);
      head.status == get.status && head.contentLength == get.contentLength
      && (head.action.Serve? <==> get.action.Serve?)
      && (head.action.Serve? ==>
            head.action.response.body == [] && head.action.response.lastModified == get.action.response.lastModified)
  {
    if FileExists(card, req.path) {
      var f := Some(card.files[FileManager.PathToSd(req.path)]);
      FileManager.BodyOnlyWhenSent(f, req.ifModifiedSince, env.parseDate, false);
    }
  }

  /** GET of an existing file is served whole by the FileManager unless it is not modified. */
  lemma GetServesFile(req: Request, card: Card, env: Env)
    requires FileExists(card, req.path)
    ensures var r := Get(req, card, env, false);
      var f := card.files[FileManager.PathToSd(req.path)];
      r.action.Serve? && r.contentLength == Some(|f.content|)
      && (r.status == 200 ==> r.action.response.body == f.content)
      && (r.status != 200 ==> r.status == 304 && r.action.response.body == [])
  {
    var f := card.files[FileManager.PathToSd(req.path)];
    FileManager.BodyOnlyWhenSent(Some(f), req.ifModifiedSince, env.parseDate, true);
    FileManager.NotModifiedIff(req.ifModifiedSince, env.parseDate, f, true);
  }

  /** GET of anything that is not a file is 404 with an empty body. */
  lemma GetMissing(req: Request, card: Card, env: Env, headMode: bool)
    requires !FileExists(card, req.path)
    ensures Get(req, card, env, headMode) == Reply(404, Some(0), NoAction)
  {
  }

  /**
    MOVE acts exactly when it answers 204; it moves an existing file, or else
    an existing directory, from the request path to a different destination
    whose parent directory exists; every other answer is an error status.
   */
  lemma MoveActsOnlyOnSuccess(req: Request, card: Card, env: Env)
    ensures var r := Move(req, card, env);
      (r.action != NoAction <==> r.status == 204)
      && r.status in {204, 400, 403, 404, 409}
      && (r.action.MoveFile? ==>
            r.action.from == req.path && r.action.from != r.action.to
            && FileExists(card, req.path) && DirectoryExists(card, env.parentDir(r.action.to)))
      && (r.action.MoveDirectory? ==>
            r.action.from == req.path && r.action.from != r.action.to
            && !FileExists(card, req.path) && DirectoryExists(card, req.path)
            && DirectoryExists(card, env.parentDir(r.action.to)))
      && (r.action.MoveFile? || r.action.MoveDirectory? || r.action == NoAction)
  {
  }

  /** The order MOVE checks in: a missing Destination first, then moving onto itself, then a missing parent. */
  lemma MoveErrors(req: Request, card: Card, env: Env)
    ensures var r := Move(req, card, env);
      (r.status == 400 <==> req.destination.None? || req.destination.value == "")
      && (r.status == 403 <==> req.destination.Some? && req.destination.value != ""
                               && req.path == env.destinationPath(req.destination.value))
      && (r.status == 409 <==> req.destination.Some? && req.destination.value != ""
                               && req.path != env.destinationPath(req.destination.value)
                               && !DirectoryExists(card, env.parentDir(env.destinationPath(req.destination.value))))
      && (r.status == 404 ==> !FileExists(card, req.path) && !DirectoryExists(card, req.path))
  {
  }

  /**
    Once the Destination passes the three checks, MOVE moves the file at the
    path, or else the directory at the path, and answers 404 when neither exists.
   */
  lemma MoveOutcome(req: Request, card: Card, env: Env)
    requires req.destination.Some? && req.destination.value != ""
    requires req.path != env.destinationPath(req.destination.value)
    requires DirectoryExists(card, env.parentDir(env.destinationPath(req.destination.value)))
    ensures var d := env.destinationPath(req.destination.value);
      var r := Move(req, card, env);
      (FileExists(card, req.path) ==> r == Reply(204, Some(0), MoveFile(req.path, d)))
      && (!FileExists(card, req.path) && DirectoryExists(card, req.path) ==>
            r == Reply(204, Some(0), MoveDirectory(req.path, d)))
      && (!FileExists(card, req.path) && !DirectoryExists(card, req.path) ==> r == Empty(404))
  {
  }

  /**
    DELETE acts exactly when it answers 204, deletes a file in preference to
    a directory of the same name, and answers 404 exactly when neither exists.
   */
  lemma DeletePrefersFile(req: Request, card: Card)
    ensures var r := Delete(req, card);
      (r.action != NoAction <==> r.status == 204)
      && (r.status == 404 <==> !FileExists(card, req.path) && !DirectoryExists(card, req.path))
      && (FileExists(card, req.path) ==> r.action == DeleteFile(req.path))
      && (!FileExists(card, req.path) && DirectoryExists(card, req.path) ==> r.action == DeleteDirectory(req.path))
      && (r.action.DeleteFile? ==> FileExists(card, req.path) && r.action.path == req.path)
      && (r.action.DeleteDirectory? ==> DirectoryExists(card, req.path) && !FileExists(card, req.path)
                                        && r.action.path == req.path)
  {
  }

  /** MKCOL creates the directory exactly when it does not exist yet; once created, a repeated MKCOL answers 409. */
  lemma MkColTwice(req: Request, card: Card)
    ensures (MkCol(req, card).status == 201) <==> !DirectoryExists(card, req.path)
    ensures MkCol(req, card).status == 201 ==> MkCol(req, card).action == CreateDirectory(req.path)
    ensures var after := card.(dirs := card.dirs + {FileManager.PathToSd(req.path)});
      MkCol(req, after) == Reply(409, Some(0), NoAction)
  {
  }

  /** PUT always uploads; it answers 201 for a new file, and a repeated PUT of the same path answers 204. */
  lemma PutTwice(req: Request, card: Card, written: FileManager.FileInfo)
    ensures Put(req, card).action == Upload(req.path)
    ensures Put(req, card).status == 201 <==> !FileExists(card, req.path)
    ensures Put(req, card).status != 201 ==> Put(req, card).status == 204
    ensures var after := card.(files := card.files[FileManager.PathToSd(req.path) := written]);
      Put(req, after).status == 204
  {
  }

  /** PROPPATCH and LOCK read at most a 64 KiB body; larger ones get 413 and no action. */
  lemma PropPatchBounded(req: Request)
    ensures PropPatch(req).status == 413 <==> req.contentLength > MaxBody
    ensures PropPatch(req).status != 413 ==> PropPatch(req).action == PropPatchAck(req.path)
    ensures PropPatch(req).status == 413 ==> PropPatch(req).action == NoAction
  {
  }

  /**
    PROPFIND lists one element for a file, one for a directory without
    children, and for a directory with Depth 1 or infinity its own element
    followed by one per subdirectory and one per file; a directory is reported
    in preference to a file of the same name; 404 when neither exists.
   */
  lemma PropFindShape(locks: map<string, string>, req: Request, card: Card)
    ensures var r := PropFindReply(locks, req, card);
      (r.status == 404 <==> !DirectoryExists(card, req.path) && !FileExists(card, req.path))
      && (r.status != 404 ==> r.status == 207 && r.action.Multistatus?)
      && (r.status == 404 ==> r == Reply(404, Some(0), NoAction))
      && (r.action.Multistatus? ==>
            var es := r.action.entries;
            |es| >= 1 && es[0].path == req.path && es[0].isDirectory == DirectoryExists(card, req.path)
            && |es| == (if DirectoryExists(card, req.path) && IncludeChildren(req.depth)
                        then 1 + |card.subdirs(req.path)| + |card.filesIn(req.path)| else 1))
  {
  }

  /** With children, the subdirectories come first, marked as directories, then the files, in listing order. */
  lemma PropFindChildren(locks: map<string, string>, req: Request, card: Card, i: int)
    requires DirectoryExists(card, req.path) && IncludeChildren(req.depth)
    ensures var es := PropFindReply(locks, req, card).action.entries;
      var dirs := card.subdirs(req.path);
      var files := card.filesIn(req.path);
      (0 <= i < |dirs| ==> es[1 + i].path == dirs[i] && es[1 + i].isDirectory)
      && (0 <= i < |files| ==> es[1 + |dirs| + i].path == files[i] && !es[1 + |dirs| + i].isDirectory)
  {
  }

  /** Every element reports the lock the table holds for its path, and only that. */
  lemma PropFindReportsLocks(locks: map<string, string>, req: Request, card: Card, i: int)
    requires PropFindReply(locks, req, card).action.Multistatus?
    requires 0 <= i < |PropFindReply(locks, req, card).action.entries|
    ensures var e := PropFindReply(locks, req, card).action.entries[i];
      (e.lockToken.Some? <==> e.path in locks) && (e.path in locks ==> e.lockToken == Some(locks[e.path]))
  {
    var es := PropFindReply(locks, req, card).action.entries;
    if DirectoryExists(card, req.path) && IncludeChildren(req.depth) && i > 0 {
      var dirs := card.subdirs(req.path);
      if i <= |dirs| {
        assert es[i] == EntriesFor(locks, dirs, true)[i - 1];
      } else {
        assert es[i] == EntriesFor(locks, card.filesIn(req.path), false)[i - 1 - |dirs|];
      }
    }
  }

  /** The WebDAV server's state: the advisory lock table, path to lock token. */
  class WebDav {
    var locks: map<string, string>

    constructor ()
      ensures locks == map[]
    {
      locks := map[];
    }

    /** LOCK: grant `token` (a fresh GUID) on the path, replacing any earlier lock. */
    method Lock(req: Request, token: string) returns (reply: Reply)
      modifies this
      ensures req.contentLength > MaxBody ==> reply == Reply(413, None, NoAction) && locks == old(locks)
      ensures req.contentLength <= MaxBody ==>
        reply == Reply(200, None, LockGranted(req.path, token)) && locks == old(locks)[req.path := token]
    {
      if req.contentLength > MaxBody {
        return Reply(413, None, NoAction);
      }
      var path := req.path;
      // The indexer assignment for a locked path and Add for a new one both leave the path mapped to the token.
      locks := locks[path := token];
      return Reply(200, None, LockGranted(path, token));
    }

    /** UNLOCK: forget any lock on the path. */
    method Unlock(req: Request) returns (reply: Reply)
      modifies this
      ensures reply == Reply(204, None, NoAction)
      ensures locks == old(locks) - {req.path}
    {
      var path := req.path;
      if path in locks {
        locks := locks - {path};
      }
      assert path !in old(locks) ==> old(locks) - {path} == old(locks);
      return Reply(204, None, NoAction);
    }

    /** PROPFIND: the path itself, then its subdirectories, then its files, one level deep. */
    method PropFind(req: Request, card: Card) returns (reply: Reply)
      ensures reply == PropFindReply(locks, req, card)
    {
      var path := req.path;
      var includeChildren := req.depth == Some("1") || req.depth == Some("infinity");
      if DirectoryExists(card, path) {
        var entries := [EntryFor(locks, path, true)];
        if includeChildren {
          var dirs := card.subdirs(path);
          for i := 0 to |dirs|
            invariant entries == [EntryFor(locks, path, true)] + EntriesFor(locks, dirs[..i], true)
          {
            entries := entries + [EntryFor(locks, dirs[i], true)];
          }
          assert dirs[..|dirs|] == dirs;
          ghost var withDirs := entries;
          var files := card.filesIn(path);
          for i := 0 to |files|
            invariant entries == withDirs + EntriesFor(locks, files[..i], false)
          {
            entries := entries + [EntryFor(locks, files[i], false)];
          }
          assert files[..|files|] == files;
        }
        return Reply(207, None, Multistatus(entries));
      } else if FileExists(card, path) {
        return Reply(207, None, Multistatus([EntryFor(locks, path, false)]));
      } else {
        return Empty(404);
      }
    }

    /** Route: hand the request to its method's handler; unknown methods get 405. */
    method Route(req: Request, card: Card, env: Env, token: string) returns (reply: Reply)
      modifies this
      ensures req.httpMethod == "LOCK" ==>
        (if req.contentLength > MaxBody then reply == Reply(413, None, NoAction) && locks == old(locks)
         else reply == Reply(200, None, LockGranted(req.path, token)) && locks == old(locks)[req.path := token])
      ensures req.httpMethod == "UNLOCK" ==> reply == Reply(204, None, NoAction) && locks == old(locks) - {req.path}
      ensures req.httpMethod == "PROPFIND" ==> reply == PropFindReply(old(locks), req, card) && locks == old(locks)
      ensures req.httpMethod !in {"LOCK", "UNLOCK", "PROPFIND"} ==>
        reply == Dispatch(req, card, env) && locks == old(locks)
    {
      if req.httpMethod == "LOCK" {
        reply := Lock(req, token);
      } else if req.httpMethod == "UNLOCK" {
        reply := Unlock(req);
      } else if req.httpMethod == "PROPFIND" {
        reply := PropFind(req, card);
      } else {
        reply := Dispatch(req, card, env);
      }
    }
  }

  /** After a LOCK, PROPFIND of the path reports the new token; other paths keep theirs. */
  lemma LockThenPropFind(locks: map<string, string>, req: Request, card: Card, token: string, other: string)
    requires DirectoryExists(card, req.path) || FileExists(card, req.path)
    requires other != req.path
    ensures PropFindReply(locks[req.path := token], req, card).action.entries[0].lockToken == Some(token)
    ensures EntryFor(locks[req.path := token], other, true) == EntryFor(locks, other, true)
  {
  }

  /** UNLOCK undoes a LOCK of the same path, is idempotent, and leaves the other paths' locks alone. */
  lemma LockThenUnlock(locks: map<string, string>, path: string, token: string, other: string)
    requires other != path
    ensures locks[path := token] - {path} == locks - {path}
    ensures (locks - {path}) - {path} == locks - {path}
    ensures path !in locks ==> locks[path := token] - {path} == locks
    ensures (other in locks - {path}) == (other in locks)
    ensures other in locks ==> (locks - {path})[other] == locks[other]
  {
  }
}
