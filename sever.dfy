/**
 * `HTTPServer._handle_request` of `server/sever.py`, the variant handler.
 * It shares the header, request-line and content-type helpers with
 * `server/server.py` (modelled once, in `Framing`), but resolves paths
 * differently: the sanitised path is joined to the static directory and, if
 * that names a directory, `index.html` is appended. There is no favicon
 * shortcut, no special case for `/`, and nothing is logged per request.
 */
module ServerVariant {
  import opened Wrappers
  import opened Text
  import opened Codec
  import opened Paths
  import opened Framing
  import opened Transport
  import Server

  /** The file looked up for `path`: the joined sanitised path, or its `index.html` when it is a directory. */
  function ResolvedPath(fs: FileSystem, staticDir: string, path: string): string {
    var joined := PathJoin(staticDir, Sanitise(path));
    if IsDir(fs, joined) then PathJoin(joined, Server.DefaultDocument) else joined
  }

  /** What the variant handler sends for the bytes `recv` returned. */
  function Serve(received: seq<byte>, fs: FileSystem, staticDir: string): seq<byte> {
    match Utf8Decode(received)
    case None => Server.ErrorReply()
    case Some(request) =>
      if request == "" then []
      else
        match ParseRequest(request)
        case Failure(_) => Server.ErrorReply()
        case Success((_, path)) => Answer(fs, staticDir, path)
  }

  /** The answer to a parsed request: the file, 404, or 500 when the file cannot be read. */
  function Answer(fs: FileSystem, staticDir: string, path: string): seq<byte> {
    var filePath := ResolvedPath(fs, staticDir, path);
    if Exists(fs, filePath) && !IsDir(fs, filePath) then
      if fs[filePath].File? then Server.FileHeaders(filePath) + fs[filePath].content
      else Server.ErrorReply()
    else Server.NotFoundReply()
  }

  /** `_handle_request` step by step; the socket is closed on every path. */
  method HandleRequest(conn: Connection, received: seq<byte>, fs: FileSystem, staticDir: string)
    requires !conn.closed
    modifies conn
    ensures conn.sent == old(conn.sent) + Serve(received, fs, staticDir)
    ensures conn.closed
  {
    var decoded := Utf8Decode(received);
    if decoded.None? {
      conn.SendAll(Server.ErrorReply());
    } else if decoded.value != "" {
      var parsed := ParseRequest(decoded.value);
      if parsed.Failure? {
        conn.SendAll(Server.ErrorReply());
      } else {
        var path := parsed.value.1;
        var filePath := ResolveFile(fs, staticDir, path);
        if Exists(fs, filePath) && !IsDir(fs, filePath) {
          var headers := Server.FileHeaders(filePath);
          if fs[filePath].File? {
            conn.SendAll(headers + fs[filePath].content);
          } else {
            conn.SendAll(Server.ErrorReply());
          }
        } else {
          conn.SendAll(Server.NotFoundReply());
        }
      }
    }
    conn.Close();
  }

  /** `file_path` as the handler reassigns it. */
  method ResolveFile(fs: FileSystem, staticDir: string, path: string) returns (filePath: string)
    ensures filePath == ResolvedPath(fs, staticDir, path)
  {
    var safePath := Sanitise(path);
    filePath := PathJoin(staticDir, safePath);
    if IsDir(fs, filePath) {
      filePath := PathJoin(filePath, Server.DefaultDocument);
    }
  }

  // ---------------------------------------------------------------------------
  // Properties
  // ---------------------------------------------------------------------------

  /** Nothing at all is sent exactly when `recv` returned no bytes. */
  lemma SilentExactlyWhenEmpty(received: seq<byte>, fs: FileSystem, staticDir: string)
    ensures Serve(received, fs, staticDir) == [] <==> received == []
  {
    match Utf8Decode(received)
    case None =>
      Server.EncodedHeadersNonEmpty(500, "");
    case Some(request) =>
      if request != "" {
        match ParseRequest(request)
        case Failure(_) =>
          Server.EncodedHeadersNonEmpty(500, "");
        case Success((_, path)) =>
          AnswerNonEmpty(fs, staticDir, path);
      }
  }

  /** The answer to a parsed request is never empty: it has at least four bytes. */
  lemma AnswerNonEmpty(fs: FileSystem, staticDir: string, path: string)
    ensures |Answer(fs, staticDir, path)| >= 4
  {
    var filePath := ResolvedPath(fs, staticDir, path);
    if Exists(fs, filePath) && !IsDir(fs, filePath) {
      if fs[filePath].File? {
        ContentTypeFramable(Ext(filePath));
        Server.EncodedHeadersNonEmpty(200, ContentType(filePath));
      } else {
        Server.EncodedHeadersNonEmpty(500, "");
      }
    } else {
      Server.EncodedHeadersNonEmpty(404, "");
    }
  }

  /**
   * Unless the sanitised path is absolute, the file looked up lies under the
   * static directory, whether or not `index.html` is appended: the directory
   * is a prefix, and a '/' separates it from the rest.
   */
  lemma ResolvedContained(fs: FileSystem, staticDir: string, path: string)
    requires Sanitise(path) == [] || Sanitise(path)[0] != '/'
    ensures var p := ResolvedPath(fs, staticDir, path);
      |staticDir| <= |p| && p[..|staticDir|] == staticDir
    ensures var p := ResolvedPath(fs, staticDir, path);
      staticDir == [] || staticDir[|staticDir| - 1] == '/' || (|staticDir| < |p| && p[|staticDir|] == '/')
  {
    JoinedPathContained(staticDir, path);
    var joined := PathJoin(staticDir, Sanitise(path));
    if IsDir(fs, joined) {
      assert Server.DefaultDocument != [] && Server.DefaultDocument[0] != '/';
      AppendKeepsContainment(staticDir, joined, Server.DefaultDocument);
    }
  }

  /** Joining a relative name onto a path under `dir` keeps it under `dir`. */
  lemma AppendKeepsContainment(dir: string, joined: string, name: string)
    requires name != [] && name[0] != '/'
    requires |dir| <= |joined| && joined[..|dir|] == dir
    requires dir == [] || dir[|dir| - 1] == '/' || (|dir| < |joined| && joined[|dir|] == '/')
    ensures var p := PathJoin(joined, name);
      |dir| <= |p| && p[..|dir|] == dir
      && (dir == [] || dir[|dir| - 1] == '/' || (|dir| < |p| && p[|dir|] == '/'))
  {
    var p := PathJoin(joined, name);
    assert |joined| <= |p| && p[..|joined|] == joined;
    assert p[..|dir|] == p[..|joined|][..|dir|];
    if !(dir == [] || dir[|dir| - 1] == '/') {
      assert p[|dir|] == p[..|joined|][|dir|];
    }
  }

  /**
   * Bytes that are not UTF-8, or a request line without exactly three
   * tokens, are answered with the 500 reply.
   */
  lemma MalformedIsServerError(received: seq<byte>, fs: FileSystem, staticDir: string)
    requires received != []
    requires match Utf8Decode(received)
      case None => true
      case Some(request) => |Words(RequestLine(request))| != 3
    ensures Serve(received, fs, staticDir) == Server.ErrorReply()
  {
  }

  /** A directory is answered with its `index.html`, when that is a file. */
  lemma DirectoryServesIndex(fs: FileSystem, staticDir: string, path: string, content: seq<byte>)
    requires IsDir(fs, PathJoin(staticDir, Sanitise(path)))
    requires PathJoin(PathJoin(staticDir, Sanitise(path)), Server.DefaultDocument) in fs
    requires fs[PathJoin(PathJoin(staticDir, Sanitise(path)), Server.DefaultDocument)] == File(content)
    ensures var index := PathJoin(PathJoin(staticDir, Sanitise(path)), Server.DefaultDocument);
      Answer(fs, staticDir, path) == Server.FileHeaders(index) + content
  {
    var joined := PathJoin(staticDir, Sanitise(path));
    var index := PathJoin(joined, Server.DefaultDocument);
    assert ResolvedPath(fs, staticDir, path) == index;
  }

  /**
   * `/` sanitises to "", so the variant looks up the static directory itself
   * (as `os.path.join` spells it, with a trailing '/') and, when that is a
   * directory, its `index.html`.
   */
  lemma RootServesIndex(fs: FileSystem, staticDir: string)
    requires staticDir != [] && staticDir[|staticDir| - 1] != '/'
    requires IsDir(fs, staticDir + "/")
    ensures ResolvedPath(fs, staticDir, "/") == staticDir + "/" + Server.DefaultDocument
  {
    RootsSanitiseToEmpty();
    assert PathJoin(staticDir, "") == staticDir + "/";
  }

  /**
   * Where neither handler's special cases apply (not `/favicon.ico`, not a
   * path that sanitises to "" or is `/`, and the joined path is not a
   * directory) the two handlers send the same bytes.
   */
  lemma HandlersAgree(received: seq<byte>, request: string, verb: string, path: string,
                      fs: FileSystem, staticDir: string)
    requires Utf8Decode(received) == Some(request)
    requires ParseRequest(request) == Success((verb, path))
    requires path != Server.FaviconPath && path != "/" && Sanitise(path) != ""
    requires !IsDir(fs, PathJoin(staticDir, Sanitise(path)))
    ensures Serve(received, fs, staticDir) == Server.Serve(received, fs, staticDir).reply
  {
    assert request != "";
    assert Serve(received, fs, staticDir) == Answer(fs, staticDir, path);
    assert Server.Serve(received, fs, staticDir) == Server.Answer(verb, path, fs, staticDir);
    AnswersAgree(verb, path, fs, staticDir);
  }

  /** Away from the special cases, both handlers answer a parsed request alike. */
  lemma AnswersAgree(verb: string, path: string, fs: FileSystem, staticDir: string)
    requires path != Server.FaviconPath && path != "/" && Sanitise(path) != ""
    requires !IsDir(fs, PathJoin(staticDir, Sanitise(path)))
    ensures Answer(fs, staticDir, path) == Server.Answer(verb, path, fs, staticDir).reply
  {
    SameLookup(fs, staticDir, path);
    SameLookupAgrees(verb, path, fs, staticDir);
  }

  /** Handlers that look up the same file give the same reply. */
  lemma SameLookupAgrees(verb: string, path: string, fs: FileSystem, staticDir: string)
    requires path != Server.FaviconPath
    requires ResolvedPath(fs, staticDir, path) == Server.FilePath(staticDir, path)
    ensures Answer(fs, staticDir, path) == Server.Answer(verb, path, fs, staticDir).reply
  {
    var filePath := Server.FilePath(staticDir, path);
    if filePath !in fs || fs[filePath].Directory? {
      MissingAgrees(verb, path, fs, staticDir);
    } else if fs[filePath].File? {
      FileAgrees(verb, path, fs, staticDir);
    } else {
      UnreadableAgrees(verb, path, fs, staticDir);
    }
  }

  /** Away from the special cases both handlers look up the joined sanitised path. */
  lemma SameLookup(fs: FileSystem, staticDir: string, path: string)
    requires path != "/" && Sanitise(path) != ""
    requires !IsDir(fs, PathJoin(staticDir, Sanitise(path)))
    ensures ResolvedPath(fs, staticDir, path) == Server.FilePath(staticDir, path)
  {
    assert Server.DocumentPath(path) == Sanitise(path);
  }

  lemma FileAgrees(verb: string, path: string, fs: FileSystem, staticDir: string)
    requires path != Server.FaviconPath
    requires ResolvedPath(fs, staticDir, path) == Server.FilePath(staticDir, path)
    requires Server.FilePath(staticDir, path) in fs && fs[Server.FilePath(staticDir, path)].File?
    ensures Answer(fs, staticDir, path) == Server.Answer(verb, path, fs, staticDir).reply
  {
    var filePath := Server.FilePath(staticDir, path);
    Server.FileAnswer(verb, path, fs, staticDir);
    assert Answer(fs, staticDir, path) == Server.FileHeaders(filePath) + fs[filePath].content;
  }

  lemma UnreadableAgrees(verb: string, path: string, fs: FileSystem, staticDir: string)
    requires path != Server.FaviconPath
    requires ResolvedPath(fs, staticDir, path) == Server.FilePath(staticDir, path)
    requires Server.FilePath(staticDir, path) in fs && fs[Server.FilePath(staticDir, path)].Unreadable?
    ensures Answer(fs, staticDir, path) == Server.Answer(verb, path, fs, staticDir).reply == Server.ErrorReply()
  {
  }

  lemma MissingAgrees(verb: string, path: string, fs: FileSystem, staticDir: string)
    requires path != Server.FaviconPath
    requires ResolvedPath(fs, staticDir, path) == Server.FilePath(staticDir, path)
    requires Server.FilePath(staticDir, path) !in fs || fs[Server.FilePath(staticDir, path)].Directory?
    ensures Answer(fs, staticDir, path) == Server.Answer(verb, path, fs, staticDir).reply == Server.NotFoundReply()
  {
  }

  /**
   * Without the shortcut, `/favicon.ico` is looked up like any other path:
   * if the static directory has no such entry the variant answers 404 where
   * `server/server.py` answers 200.
   */
  lemma FaviconNotSpecial(fs: FileSystem, staticDir: string)
    requires PathJoin(staticDir, "favicon.ico") !in fs
    ensures Answer(fs, staticDir, Server.FaviconPath) == Server.NotFoundReply()
    ensures Server.Answer("GET", Server.FaviconPath, fs, staticDir).reply == Server.FaviconHeaders()
  {
    FaviconSanitised();
  }

  /** `/favicon.ico` sanitises to `favicon.ico`. */
  lemma FaviconSanitised()
    ensures Sanitise(Server.FaviconPath) == "favicon.ico"
  {
    var p := Server.FaviconPath;
    assert p[0] == '/' && p[1] == 'f';
    assert LStripChar(p, '/') == "favicon.ico";
    FaviconHasNoDotDot();
  }

  lemma FaviconHasNoDotDot()
    ensures RemoveAll("favicon.ico", "..") == "favicon.ico"
  {
    assert NoDotPair("favicon.ico");
    NoDotPairFind("favicon.ico");
    RemoveAllAbsent("favicon.ico", "..");
  }
}
