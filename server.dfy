/**
 * `HTTPServer._handle_request` of `server/server.py`: one request read from
 * an accepted connection is answered from the static directory, with the
 * favicon shortcut, the default document, the 200 / 404 / 500 branches and
 * the access-log record written after a response.
 */
module Server {
  import opened Wrappers
  import opened Text
  import opened Codec
  import opened Paths
  import opened Framing
  import opened Transport

  /** What `_log_request` records, less the client address and the clock. */
  datatype AccessLog = AccessLog(verb: string, path: string, status: int, contentLength: int)

  /** The bytes sent in answer to one request (none at all for an empty request) and the access-log record, if one is written. */
  datatype Outcome = Outcome(reply: seq<byte>, log: Option<AccessLog>)

  const NotFoundText: string := "404 Not Found"
  const ErrorText: string := "Internal Server Error"

  /** The document served for `/` and for every path that sanitises to "". */
  const DefaultDocument: string := "index.html"

  const FaviconPath: string := "/favicon.ico"

  function NotFoundBody(): (b: seq<byte>)
    ensures |b| == |NotFoundText|
  {
    AsciiEncode(NotFoundText)
  }

  function ErrorBody(): (b: seq<byte>)
    ensures |b| == |ErrorText|
  {
    AsciiEncode(ErrorText)
  }

  /** The answer of the exception handler: the 500 header block and `Internal Server Error`. */
  function ErrorReply(): seq<byte> {
    EncodedHeaders(500, "") + ErrorBody()
  }

  function NotFoundReply(): seq<byte> {
    EncodedHeaders(404, "") + NotFoundBody()
  }

  /** The 200 header block with the file's content type. */
  function FileHeaders(filePath: string): seq<byte> {
    ContentTypeFramable(Ext(filePath));
    EncodedHeaders(200, ContentType(filePath))
  }

  function FaviconHeaders(): seq<byte> {
    ContentTypeFramable(".ico");
    EncodedHeaders(200, "image/x-icon")
  }

  /** The path relative to the static directory: the sanitised path, or the default document. */
  function DocumentPath(path: string): string {
    if path == "/" || Sanitise(path) == "" then DefaultDocument else Sanitise(path)
  }

  /** `os.path.join(self.static_dir, default_path)`. */
  function FilePath(staticDir: string, path: string): string {
    PathJoin(staticDir, DocumentPath(path))
  }

  /**
   * The whole of `_handle_request` for the bytes `recv` returned, over the
   * file system `fs`: what is sent on the connection and what is logged.
   * Bytes that are not UTF-8 and a malformed request line raise inside the
   * `try`, so they are answered by the 500 handler and nothing is logged.
   */
  function Serve(received: seq<byte>, fs: FileSystem, staticDir: string): Outcome {
    match Utf8Decode(received)
    case None => Outcome(ErrorReply(), None)
    case Some(request) =>
      if request == "" then Outcome([], None)
      else
        match ParseRequest(request)
        case Failure(_) => Outcome(ErrorReply(), None)
        case Success((verb, path)) => Answer(verb, path, fs, staticDir)
  }

  /**
   * The part of `_handle_request` after a request line was parsed: the
   * favicon shortcut, then the file lookup. A file that exists but cannot be
   * read raises in `open`, which is answered by the 500 handler.
   */
  function Answer(verb: string, path: string, fs: FileSystem, staticDir: string): Outcome {
    if path == FaviconPath then
      Outcome(FaviconHeaders(), Some(AccessLog(verb, path, 200, 0)))
    else
      var filePath := FilePath(staticDir, path);
      var status := if Exists(fs, filePath) then 200 else 404;
      if Exists(fs, filePath) && !IsDir(fs, filePath) then
        if fs[filePath].File? then
          var headers := FileHeaders(filePath);
          var response := headers + fs[filePath].content;
          Outcome(response, Some(AccessLog(verb, path, status, |response| - |headers|)))
        else Outcome(ErrorReply(), None)
      else
        var headers := EncodedHeaders(404, "");
        var response := headers + NotFoundBody();
        Outcome(response, Some(AccessLog(verb, path, status, |response| - |headers|)))
  }

  /**
   * `_handle_request` step by step: decode, parse, answer, and `close` on
   * every path.
   */
  method HandleRequest(conn: Connection, received: seq<byte>, fs: FileSystem, staticDir: string)
      returns (log: Option<AccessLog>)
    requires !conn.closed
    modifies conn
    ensures conn.sent == old(conn.sent) + Serve(received, fs, staticDir).reply
    ensures log == Serve(received, fs, staticDir).log
    ensures conn.closed
  {
    log := None;
    var decoded := Utf8Decode(received);
    if decoded.None? {
      conn.SendAll(ErrorReply());
    } else if decoded.value != "" {
      var parsed := ParseRequest(decoded.value);
      if parsed.Failure? {
        conn.SendAll(ErrorReply());
      } else {
        log := Respond(conn, parsed.value.0, parsed.value.1, fs, staticDir);
      }
    }
    conn.Close();
  }

  /**
   * The body of the `try` after parsing: the favicon shortcut, the default
   * document, the lookup, one `sendall` (or `send`) of the response, and the
   * log record.
   */
  method Respond(conn: Connection, verb: string, path: string, fs: FileSystem, staticDir: string)
      returns (log: Option<AccessLog>)
    requires !conn.closed
    modifies conn
    ensures conn.sent == old(conn.sent) + Answer(verb, path, fs, staticDir).reply
    ensures log == Answer(verb, path, fs, staticDir).log
    ensures !conn.closed
  {
    if path == FaviconPath {
      conn.SendAll(FaviconHeaders());
      log := Some(AccessLog(verb, path, 200, 0));
      return;
    }
    var filePath := ResolvePath(staticDir, path);
    var headers: seq<byte>;
    var response: seq<byte>;
    if Exists(fs, filePath) && !IsDir(fs, filePath) {
      headers := FileHeaders(filePath);
      if !fs[filePath].File? {
        conn.SendAll(ErrorReply());
        log := None;
        return;
      }
      response := headers + fs[filePath].content;
    } else {
      headers := EncodedHeaders(404, "");
      response := headers + NotFoundBody();
    }
    conn.SendAll(response);
    var contentLength := |response| - |headers|;
    log := Some(AccessLog(verb, path, if Exists(fs, filePath) then 200 else 404, contentLength));
  }

  /** The traversal guard and the default document, as `_handle_request` reassigns `default_path`. */
  method ResolvePath(staticDir: string, path: string) returns (filePath: string)
    ensures filePath == FilePath(staticDir, path)
  {
    var defaultPath := Sanitise(path);
    if path == "/" || defaultPath == "" {
      defaultPath := DefaultDocument;
    }
    filePath := PathJoin(staticDir, defaultPath);
  }

  // ---------------------------------------------------------------------------
  // Properties
  // ---------------------------------------------------------------------------

  lemma EncodedHeadersNonEmpty(code: int, contentType: string)
    requires IsAscii(contentType)
    ensures |EncodedHeaders(code, contentType)| >= 4
  {
    var lines := HeaderLines(code, contentType);
    assert GenerateHeaders(code, contentType) == Join(lines, CRLF) + CRLFCRLF;
  }

  /** The answer to a parsed request is never empty: it has at least four bytes. */
  lemma AnswerNonEmpty(verb: string, path: string, fs: FileSystem, staticDir: string)
    ensures |Answer(verb, path, fs, staticDir).reply| >= 4
  {
    if path == FaviconPath {
      ContentTypeFramable(".ico");
      EncodedHeadersNonEmpty(200, "image/x-icon");
    } else {
      var filePath := FilePath(staticDir, path);
      if Exists(fs, filePath) && !IsDir(fs, filePath) {
        if fs[filePath].File? {
          ContentTypeFramable(Ext(filePath));
          EncodedHeadersNonEmpty(200, ContentType(filePath));
        } else {
          EncodedHeadersNonEmpty(500, "");
        }
      } else {
        EncodedHeadersNonEmpty(404, "");
      }
    }
  }

  /** Nothing at all is sent exactly when `recv` returned no bytes. */
  lemma SilentExactlyWhenEmpty(received: seq<byte>, fs: FileSystem, staticDir: string)
    ensures Serve(received, fs, staticDir).reply == [] <==> received == []
    ensures received == [] ==> Serve(received, fs, staticDir).log == None
  {
    match Utf8Decode(received)
    case None =>
      EncodedHeadersNonEmpty(500, "");
    case Some(request) =>
      if request != "" {
        match ParseRequest(request)
        case Failure(_) =>
          EncodedHeadersNonEmpty(500, "");
        case Success((verb, path)) =>
          AnswerNonEmpty(verb, path, fs, staticDir);
      }
  }

  /**
   * A request line without exactly three tokens (or bytes that are not
   * UTF-8) is answered with the 500 response, and nothing is logged.
   */
  lemma MalformedIsServerError(received: seq<byte>, fs: FileSystem, staticDir: string)
    requires received != []
    requires match Utf8Decode(received)
      case None => true
      case Some(request) => |Words(RequestLine(request))| != 3
    ensures Serve(received, fs, staticDir) == Outcome(ErrorReply(), None)
  {
  }

  /**
   * A request is logged unless the looked-up file exists but cannot be read;
   * the record names the request's own verb and path, and its status is 200
   * or 404.
   */
  lemma AnswerLog(verb: string, path: string, fs: FileSystem, staticDir: string)
    ensures var o := Answer(verb, path, fs, staticDir);
      o.log.None? <==> path != FaviconPath && FilePath(staticDir, path) in fs && fs[FilePath(staticDir, path)].Unreadable?
    ensures var o := Answer(verb, path, fs, staticDir);
      o.log.Some? ==>
        (o.log.value.verb == verb && o.log.value.path == path
         && (o.log.value.status == 200 || o.log.value.status == 404))
  {
  }

  /** Only a request whose bytes decode and whose request line parses is logged, under its own verb and path. */
  lemma ServeLog(received: seq<byte>, fs: FileSystem, staticDir: string)
    ensures var o := Serve(received, fs, staticDir);
      o.log.Some? ==>
        && Utf8Decode(received).Some?
        && ParseRequest(Utf8Decode(received).value).Success?
        && o.log.value.verb == ParseRequest(Utf8Decode(received).value).value.0
        && o.log.value.path == ParseRequest(Utf8Decode(received).value).value.1
  {
    match Utf8Decode(received)
    case None =>
    case Some(request) =>
      if request != "" {
        match ParseRequest(request)
        case Failure(_) =>
        case Success((verb, path)) =>
          AnswerLog(verb, path, fs, staticDir);
      }
  }

  /**
   * `/favicon.ico` is answered with the 200 header block for `image/x-icon`
   * and no body, logged as 200 with length 0, whatever the file system holds.
   */
  lemma FaviconShortcut(received: seq<byte>, request: string, verb: string,
                        fs: FileSystem, staticDir: string, fs': FileSystem, staticDir': string)
    requires Utf8Decode(received) == Some(request)
    requires ParseRequest(request) == Success((verb, FaviconPath))
    ensures Serve(received, fs, staticDir) == Serve(received, fs', staticDir')
         == Outcome(FaviconHeaders(), Some(AccessLog(verb, FaviconPath, 200, 0)))
  {
  }

  /** `/`, and every path that sanitises to "", is looked up as the default document. */
  lemma RootServesDefaultDocument(staticDir: string, path: string)
    requires path == "/" || Sanitise(path) == ""
    ensures FilePath(staticDir, path) == PathJoin(staticDir, DefaultDocument)
  {
  }

  /** `/`, `//` and `/..` all resolve to the default document. */
  lemma RootLikePaths(staticDir: string)
    ensures FilePath(staticDir, "/") == PathJoin(staticDir, DefaultDocument)
    ensures FilePath(staticDir, "//") == PathJoin(staticDir, DefaultDocument)
    ensures FilePath(staticDir, "/..") == PathJoin(staticDir, DefaultDocument)
  {
    RootsSanitiseToEmpty();
  }

  /**
   * Unless the sanitised path starts with '/', the file looked up lies under
   * the static directory (a '/' follows the directory's name) and its
   * relative part holds no "..".
   */
  lemma LookupContained(staticDir: string, path: string)
    requires Sanitise(path) == [] || Sanitise(path)[0] != '/'
    ensures var p := FilePath(staticDir, path);
      |staticDir| <= |p| && p[..|staticDir|] == staticDir
      && Find(DocumentPath(path), "..") == None
    ensures var p := FilePath(staticDir, path);
      staticDir == [] || staticDir[|staticDir| - 1] == '/' || (|staticDir| < |p| && p[|staticDir|] == '/')
  {
    if path == "/" || Sanitise(path) == "" {
      DefaultDocumentHasNoDotDot();
      assert DocumentPath(path) == DefaultDocument && DefaultDocument[0] != '/';
    } else {
      JoinedPathContained(staticDir, path);
      assert DocumentPath(path) == Sanitise(path);
    }
  }

  lemma DefaultDocumentHasNoDotDot()
    ensures Find(DefaultDocument, "..") == None
  {
    assert NoDotPair(DefaultDocument);
    NoDotPairFind(DefaultDocument);
  }

  /**
   * The traversal guard can be walked around: `/../x` is looked up at the
   * absolute path `/x` (with "..", if any, removed from `x`), whatever the
   * static directory is, because `os.path.join` discards it.
   */
  lemma TraversalEscapesStaticDir(staticDir: string, x: string)
    ensures FilePath(staticDir, "/../" + x) == "/" + RemoveAll(x, "..")
  {
    var path := "/../" + x;
    var s := Sanitise(path);
    SanitisedCanBeAbsolute(x);
    assert s == "/" + RemoveAll(x, "..");
    assert |path| >= 4;
    assert DocumentPath(path) == s;
  }

  /**
   * Only the entry at the looked-up path matters: file systems that agree
   * there (both without it, or both with the same entry) give the same
   * reply and the same log record.
   */
  lemma OnlyLookedUpEntryMatters(verb: string, path: string, fs: FileSystem, fs': FileSystem, staticDir: string)
    requires FilePath(staticDir, path) in fs <==> FilePath(staticDir, path) in fs'
    requires FilePath(staticDir, path) in fs ==> fs[FilePath(staticDir, path)] == fs'[FilePath(staticDir, path)]
    ensures Answer(verb, path, fs, staticDir) == Answer(verb, path, fs', staticDir)
  {
    var filePath := FilePath(staticDir, path);
    assert Exists(fs, filePath) == Exists(fs', filePath);
    if Exists(fs, filePath) {
      assert fs[filePath] == fs'[filePath];
      assert IsDir(fs, filePath) == IsDir(fs', filePath);
    }
  }

  /**
   * A directory at the looked-up path is answered with 404 and the
   * `404 Not Found` body, but logged with status 200, since the logged
   * status only asks whether the path exists.
   */
  lemma DirectoryLoggedAsFound(received: seq<byte>, request: string, verb: string, path: string,
                               fs: FileSystem, staticDir: string)
    requires Utf8Decode(received) == Some(request)
    requires ParseRequest(request) == Success((verb, path)) && path != FaviconPath
    requires IsDir(fs, FilePath(staticDir, path))
    ensures Serve(received, fs, staticDir)
         == Outcome(NotFoundReply(), Some(AccessLog(verb, path, 200, |NotFoundText|)))
  {
    EncodedHeadersNonEmpty(200, "");
  }

  /**
   * Whenever a record is logged, its length is the number of bytes after the
   * first blank line of the reply: the body a client reads.
   */
  lemma LoggedLengthIsBodyLength(received: seq<byte>, fs: FileSystem, staticDir: string)
    requires Serve(received, fs, staticDir).log.Some?
    ensures var o := Serve(received, fs, staticDir);
      match Find(o.reply, HeaderEnd)
      case None => false
      case Some(i) => o.log.value.contentLength == |o.reply| - (i + 4)
  {
    var request := Utf8Decode(received).value;
    var (verb, path) := ParseRequest(request).value;
    assert Serve(received, fs, staticDir) == Answer(verb, path, fs, staticDir);
    var filePath := FilePath(staticDir, path);
    if path == FaviconPath {
      FaviconLengthIsBodyLength(verb, fs, staticDir);
    } else if Exists(fs, filePath) && fs[filePath].File? {
      FileLengthIsBodyLength(verb, path, fs, staticDir);
    } else if !Exists(fs, filePath) || IsDir(fs, filePath) {
      NotFoundLengthIsBodyLength(verb, path, fs, staticDir);
    }
  }

  lemma FaviconLengthIsBodyLength(verb: string, fs: FileSystem, staticDir: string)
    ensures var o := Answer(verb, FaviconPath, fs, staticDir);
      o.log.Some? &&
      match Find(o.reply, HeaderEnd)
      case None => false
      case Some(i) => o.log.value.contentLength == |o.reply| - (i + 4)
  {
    ContentTypeFramable(".ico");
    BodyFollowsHeaderBlock(200, "image/x-icon", []);
    assert FaviconHeaders() + [] == FaviconHeaders();
  }

  lemma FileLengthIsBodyLength(verb: string, path: string, fs: FileSystem, staticDir: string)
    requires path != FaviconPath
    requires Exists(fs, FilePath(staticDir, path)) && fs[FilePath(staticDir, path)].File?
    ensures var o := Answer(verb, path, fs, staticDir);
      o.log.Some? &&
      match Find(o.reply, HeaderEnd)
      case None => false
      case Some(i) => o.log.value.contentLength == |o.reply| - (i + 4)
  {
    var filePath := FilePath(staticDir, path);
    FileAnswer(verb, path, fs, staticDir);
    FileHeadersEnd(filePath, fs[filePath].content);
  }

  lemma NotFoundLengthIsBodyLength(verb: string, path: string, fs: FileSystem, staticDir: string)
    requires path != FaviconPath
    requires !Exists(fs, FilePath(staticDir, path)) || IsDir(fs, FilePath(staticDir, path))
    ensures var o := Answer(verb, path, fs, staticDir);
      o.log.Some? &&
      match Find(o.reply, HeaderEnd)
      case None => false
      case Some(i) => o.log.value.contentLength == |o.reply| - (i + 4)
  {
    BodyFollowsHeaderBlock(404, "", NotFoundBody());
  }

  /** A readable file is answered with its header block and content, and its length logged. */
  lemma FileAnswer(verb: string, path: string, fs: FileSystem, staticDir: string)
    requires path != FaviconPath
    requires Exists(fs, FilePath(staticDir, path)) && fs[FilePath(staticDir, path)].File?
    ensures var filePath := FilePath(staticDir, path);
      var body := fs[filePath].content;
      Answer(verb, path, fs, staticDir)
      == Outcome(FileHeaders(filePath) + body, Some(AccessLog(verb, path, 200, |body|)))
  {
  }

  lemma FileHeadersEnd(filePath: string, body: seq<byte>)
    ensures Find(FileHeaders(filePath) + body, HeaderEnd) == Some(|FileHeaders(filePath)| - 4)
  {
    var ct := ContentType(filePath);
    ContentTypeFramable(Ext(filePath));
    assert IsAscii(ct) && Lacks(ct, '\r');
    BodyFollowsHeaderBlock(200, ct, body);
    assert FileHeaders(filePath) == EncodedHeaders(200, ct);
  }

  /** In a header block followed by a body, the body is everything after the first CRLF CRLF. */
  lemma BodyFollowsHeaderBlock(code: int, contentType: string, body: seq<byte>)
    requires IsAscii(contentType) && Lacks(contentType, '\r')
    ensures var reply := EncodedHeaders(code, contentType) + body;
      Find(reply, HeaderEnd) == Some(|reply| - |body| - 4)
  {
    HeaderBlockEnd(code, contentType, body);
  }
}
