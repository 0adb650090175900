/**
 * How the client and the servers read each other: the server parses the
 * request the client writes, the client parses the header block the server
 * writes, and a whole GET against `server/server.py` ends in the status and
 * body the file system determines.
 */
module Exchange {
  import opened Wrappers
  import opened Text
  import opened Codec
  import opened Paths
  import opened Framing
  import opened Client
  import Server
  import ServerVariant

  // ---------------------------------------------------------------------------
  // Client request -> server
  // ---------------------------------------------------------------------------

  /** The server reads back the method and path of every request the client writes with space-free ones. */
  lemma RequestRoundTrip(host: string, verb: string, path: string)
    requires verb != [] && NoSpace(verb)
    requires path != [] && NoSpace(path)
    ensures ParseRequest(ConstructRequest(host, verb, path)) == Success((verb, path))
  {
    var rest := "Host: " + host + CRLF + "Connection: close" + CRLF + CRLF;
    assert ConstructRequest(host, verb, path) == verb + " " + path + " " + "HTTP/1.1" + CRLF + rest;
    assert NoSpace("HTTP/1.1");
    ParseRequestLine(verb, path, "HTTP/1.1", rest);
  }

  /**
   * A GET the client writes, ASCII-encoded, reaches the answering part of
   * `server/server.py` intact: the reply is the answer for ("GET", path).
   */
  lemma GetReachesServer(host: string, path: string, fs: FileSystem, staticDir: string)
    requires IsAscii(host) && IsAscii(path)
    requires path != [] && NoSpace(path)
    ensures var request := ConstructRequest(host, "GET", path);
      IsAscii(request)
      && Server.Serve(AsciiEncode(request), fs, staticDir) == Server.Answer("GET", path, fs, staticDir)
  {
    var request := ConstructRequest(host, "GET", path);
    AsciiRoundTrip(request);
    assert NoSpace("GET");
    RequestRoundTrip(host, "GET", path);
  }

  // ---------------------------------------------------------------------------
  // Server header block -> client
  // ---------------------------------------------------------------------------

  const ServerValue: string := "Msm\\'s PythonServer"

  /** The header dict the client builds from `_generate_headers(code, contentType)`. */
  function ExpectedHeaders(contentType: string): map<string, string> {
    var fixed := map["Server" := ServerValue, "Connection" := "close"];
    if contentType != "" then fixed["Content-Type" := contentType] else fixed
  }

  /** Each header name has no ':' and, like each fixed value, no surrounding whitespace. */
  lemma ServerParts()
    ensures Lacks("Server", ':') && Strip("Server") == "Server"
  {
    StripUnpadded("Server");
  }

  lemma ServerValueParts()
    ensures Strip(ServerValue) == ServerValue
  {
    StripUnpadded(ServerValue);
  }

  lemma ConnectionParts()
    ensures Lacks("Connection", ':') && Strip("Connection") == "Connection"
  {
    StripUnpadded("Connection");
  }

  lemma CloseParts()
    ensures Strip("close") == "close"
  {
    StripUnpadded("close");
  }

  lemma ContentTypeKey()
    ensures Lacks("Content-Type", ':') && Strip("Content-Type") == "Content-Type"
  {
    StripUnpadded("Content-Type");
  }

  lemma ServerField()
    ensures HeaderField(ServerLine) == Some(("Server", ServerValue))
  {
    ServerParts();
    ServerValueParts();
    ServerLineSplit();
    HeaderFieldOf("Server", ServerValue);
  }

  lemma ServerLineSplit()
    ensures ServerLine == "Server" + ": " + ServerValue
  {
  }

  lemma ConnectionField()
    ensures HeaderField(ConnectionLine) == Some(("Connection", "close"))
  {
    ConnectionParts();
    CloseParts();
    ConnectionLineSplit();
    HeaderFieldOf("Connection", "close");
  }

  lemma ConnectionLineSplit()
    ensures ConnectionLine == "Connection" + ": " + "close"
  {
  }

  lemma ContentTypeField(contentType: string)
    requires Strip(contentType) == contentType
    ensures HeaderField("Content-Type: " + contentType) == Some(("Content-Type", contentType))
  {
    ContentTypeKey();
    ContentTypeLine(contentType);
    HeaderFieldOf("Content-Type", contentType);
  }

  lemma ContentTypeLine(contentType: string)
    ensures "Content-Type: " + contentType == "Content-Type" + ": " + contentType
  {
  }

  /** The lines after the status line give exactly the expected dict. */
  lemma HeaderLinesMap(code: int, contentType: string)
    requires contentType == "" || Strip(contentType) == contentType
    ensures HeaderMap(HeaderLines(code, contentType)[1..]) == ExpectedHeaders(contentType)
  {
    var server := ("Server", ServerValue);
    var connection := ("Connection", "close");
    ServerField();
    ConnectionField();
    HeaderLinesTail(code, contentType);
    if contentType != "" {
      ContentTypeField(contentType);
      HeaderMapOfThree(ServerLine, ConnectionLine, "Content-Type: " + contentType,
                       server, connection, ("Content-Type", contentType));
    } else {
      HeaderMapOfTwo(ServerLine, ConnectionLine, server, connection);
    }
  }

  lemma HeaderLinesTail(code: int, contentType: string)
    ensures contentType != "" ==> HeaderLines(code, contentType)[1..] == [ServerLine, ConnectionLine, "Content-Type: " + contentType]
    ensures contentType == "" ==> HeaderLines(code, contentType)[1..] == [ServerLine, ConnectionLine]
  {
  }

  lemma HeaderMapOfTwo(l1: string, l2: string, a: (string, string), b: (string, string))
    requires HeaderField(l1) == Some(a) && HeaderField(l2) == Some(b)
    ensures HeaderMap([l1, l2]) == map[a.0 := a.1][b.0 := b.1]
  {
    FieldsOfTwo(l1, l2, a, b);
    FieldMapOfTwo(a, b);
  }

  lemma HeaderMapOfThree(l1: string, l2: string, l3: string, a: (string, string), b: (string, string), c: (string, string))
    requires HeaderField(l1) == Some(a) && HeaderField(l2) == Some(b) && HeaderField(l3) == Some(c)
    ensures HeaderMap([l1, l2, l3]) == map[a.0 := a.1][b.0 := b.1][c.0 := c.1]
  {
    FieldsOfThree(l1, l2, l3, a, b, c);
    FieldMapOfThree(a, b, c);
  }

  lemma FieldsOfTwo(l1: string, l2: string, a: (string, string), b: (string, string))
    requires HeaderField(l1) == Some(a) && HeaderField(l2) == Some(b)
    ensures Fields([l1, l2]) == [Some(a), Some(b)]
  {
    var lines := [l1, l2];
    assert lines[0] == l1 && lines[1] == l2;
    SeqOfTwo(Fields(lines), Some(a), Some(b));
  }

  lemma FieldsOfThree(l1: string, l2: string, l3: string, a: (string, string), b: (string, string), c: (string, string))
    requires HeaderField(l1) == Some(a) && HeaderField(l2) == Some(b) && HeaderField(l3) == Some(c)
    ensures Fields([l1, l2, l3]) == [Some(a), Some(b), Some(c)]
  {
    var lines := [l1, l2, l3];
    assert lines[0] == l1 && lines[1] == l2 && lines[2] == l3;
    SeqOfThree(Fields(lines), Some(a), Some(b), Some(c));
  }

  lemma SeqOfTwo<T>(s: seq<T>, x: T, y: T)
    requires |s| == 2 && s[0] == x && s[1] == y
    ensures s == [x, y]
  {
  }

  lemma SeqOfThree<T>(s: seq<T>, x: T, y: T, z: T)
    requires |s| == 3 && s[0] == x && s[1] == y && s[2] == z
    ensures s == [x, y, z]
  {
  }

  lemma FieldMapOfTwo(a: (string, string), b: (string, string))
    ensures FieldMap([Some(a), Some(b)]) == map[a.0 := a.1][b.0 := b.1]
  {
    var f: seq<Option<(string, string)>> := [Some(a), Some(b)];
    assert f[..1] == [Some(a)];
    assert [Some(a)][..0] == [];
    assert FieldMap([Some(a)]) == map[a.0 := a.1];
  }

  lemma FieldMapOfThree(a: (string, string), b: (string, string), c: (string, string))
    ensures FieldMap([Some(a), Some(b), Some(c)]) == map[a.0 := a.1][b.0 := b.1][c.0 := c.1]
  {
    var f: seq<Option<(string, string)>> := [Some(a), Some(b), Some(c)];
    assert f[..2] == [Some(a), Some(b)];
    FieldMapOfTwo(a, b);
  }

  /**
   * The client reads back what `_generate_headers(code, contentType)`
   * followed by any body says: the code, the table's reason phrase (empty for
   * a code outside the table), the `Server`, `Connection` and (when given)
   * `Content-Type` fields, and the body byte for byte, even when the body
   * holds further blank lines.
   */
  lemma ResponseRoundTrip(code: int, contentType: string, body: seq<byte>)
    requires contentType == "" || Framable(contentType)
    ensures ParsedResponse(EncodedHeaders(code, contentType) + body)
         == Success(Response(code, Reason(code), ExpectedHeaders(contentType), body))
  {
    var lines := HeaderLines(code, contentType);
    var joined := Join(lines, CRLF);
    ResponseFrame(code, contentType, body);
    AsciiRoundTrip(joined);
    ResponseLines(code, contentType);
    StatusLineFields(code);
    ParseIntRoundTrip(code);
    HeaderLinesMap(code, contentType);
  }

  /** The header block ends where the joined header lines end, and the body follows the blank line. */
  lemma ResponseFrame(code: int, contentType: string, body: seq<byte>)
    requires contentType == "" || Framable(contentType)
    ensures var joined := Join(HeaderLines(code, contentType), CRLF);
      var response := EncodedHeaders(code, contentType) + body;
      IsAscii(joined)
      && Find(response, HeaderEnd) == Some(|joined|)
      && response[..|joined|] == AsciiEncode(joined)
      && response[|joined| + 4..] == body
  {
    var joined := Join(HeaderLines(code, contentType), CRLF);
    var headers := EncodedHeaders(code, contentType);
    HeaderBlockEnd(code, contentType, body);
    HeaderEndIsBlankLine();
    HeaderLinesAscii(code, contentType);
    AsciiEncodeAppend(joined, CRLFCRLF);
    assert headers == AsciiEncode(joined) + AsciiEncode(CRLFCRLF);
    assert (headers + body)[..|joined|] == AsciiEncode(joined);
    assert (headers + body)[|joined| + 4..] == body;
  }

  /** Splitting the decoded header block at CRLF gives back `_generate_headers`' list. */
  lemma ResponseLines(code: int, contentType: string)
    requires contentType == "" || Framable(contentType)
    ensures SplitOn(Join(HeaderLines(code, contentType), CRLF), CRLF) == HeaderLines(code, contentType)
  {
    var lines := HeaderLines(code, contentType);
    HeaderLinesFramable(code, contentType);
    assert CRLF[0] == '\r';
    SplitJoin(lines, CRLF);
  }

  lemma StatusLineFields(code: int)
    ensures SplitStatusLine(StatusLine(code)) == Some(("HTTP/1.1", IntToString(code), Reason(code)))
  {
    assert Lacks("HTTP/1.1", ' ');
    assert StatusLine(code) == "HTTP/1.1" + " " + IntToString(code) + " " + Reason(code);
    SplitStatusLineOf("HTTP/1.1", IntToString(code), Reason(code));
  }

  // ---------------------------------------------------------------------------
  // A whole GET against server/server.py
  // ---------------------------------------------------------------------------

  /**
   * What the client makes of the answer to a path other than `/favicon.ico`:
   * 200 with the file's content type and its bytes exactly when the looked-up
   * path is a readable file, 500 when it exists but cannot be read, and 404
   * with the `404 Not Found` body otherwise (a directory included).
   */
  lemma AnswerAsReadByClient(verb: string, path: string, fs: FileSystem, staticDir: string)
    requires path != Server.FaviconPath
    ensures var filePath := Server.FilePath(staticDir, path);
      ParsedResponse(Server.Answer(verb, path, fs, staticDir).reply)
      == if filePath in fs && fs[filePath].File? then
           Success(Response(200, "OK", ExpectedHeaders(ContentType(filePath)), fs[filePath].content))
         else if filePath in fs && fs[filePath].Unreadable? then
           Success(Response(500, "Internal Server Error", ExpectedHeaders(""), Server.ErrorBody()))
         else
           Success(Response(404, "Not Found", ExpectedHeaders(""), Server.NotFoundBody()))
  {
    var filePath := Server.FilePath(staticDir, path);
    if filePath in fs && fs[filePath].File? {
      FileAsReadByClient(verb, path, fs, staticDir);
    } else if filePath in fs && fs[filePath].Unreadable? {
      UnreadableAsReadByClient(verb, path, fs, staticDir);
    } else {
      MissingAsReadByClient(verb, path, fs, staticDir);
    }
  }

  lemma FileAsReadByClient(verb: string, path: string, fs: FileSystem, staticDir: string)
    requires path != Server.FaviconPath
    requires Server.FilePath(staticDir, path) in fs && fs[Server.FilePath(staticDir, path)].File?
    ensures var filePath := Server.FilePath(staticDir, path);
      ParsedResponse(Server.Answer(verb, path, fs, staticDir).reply)
      == Success(Response(200, "OK", ExpectedHeaders(ContentType(filePath)), fs[filePath].content))
  {
    var filePath := Server.FilePath(staticDir, path);
    var content := fs[filePath].content;
    ContentTypeFramable(Ext(filePath));
    assert Server.Answer(verb, path, fs, staticDir).reply == EncodedHeaders(200, ContentType(filePath)) + content;
    ResponseRoundTrip(200, ContentType(filePath), content);
  }

  lemma UnreadableAsReadByClient(verb: string, path: string, fs: FileSystem, staticDir: string)
    requires path != Server.FaviconPath
    requires Server.FilePath(staticDir, path) in fs && fs[Server.FilePath(staticDir, path)].Unreadable?
    ensures ParsedResponse(Server.Answer(verb, path, fs, staticDir).reply)
         == Success(Response(500, "Internal Server Error", ExpectedHeaders(""), Server.ErrorBody()))
  {
    var filePath := Server.FilePath(staticDir, path);
    assert Exists(fs, filePath) && !IsDir(fs, filePath) && !fs[filePath].File?;
    assert Server.Answer(verb, path, fs, staticDir).reply == Server.ErrorReply();
    ErrorReplyAsReadByClient();
  }

  /** The 500 reply reads as 500, `Internal Server Error` and its body. */
  lemma ErrorReplyAsReadByClient()
    ensures ParsedResponse(Server.ErrorReply())
         == Success(Response(500, "Internal Server Error", ExpectedHeaders(""), Server.ErrorBody()))
  {
    assert Server.ErrorReply() == EncodedHeaders(500, "") + Server.ErrorBody();
    ResponseRoundTrip(500, "", Server.ErrorBody());
  }

  lemma MissingAsReadByClient(verb: string, path: string, fs: FileSystem, staticDir: string)
    requires path != Server.FaviconPath
    requires Server.FilePath(staticDir, path) !in fs || fs[Server.FilePath(staticDir, path)].Directory?
    ensures ParsedResponse(Server.Answer(verb, path, fs, staticDir).reply)
         == Success(Response(404, "Not Found", ExpectedHeaders(""), Server.NotFoundBody()))
  {
    assert Server.Answer(verb, path, fs, staticDir).reply == EncodedHeaders(404, "") + Server.NotFoundBody();
    ResponseRoundTrip(404, "", Server.NotFoundBody());
  }

  /**
   * What the client reads back from the variant handler, for every file
   * system and path: 200 with the file when the resolved path (the joined
   * path, or its `index.html` when that is a directory) is a readable file,
   * 500 when it cannot be read, and 404 otherwise, `/favicon.ico` included.
   */
  lemma VariantAnswerAsReadByClient(fs: FileSystem, staticDir: string, path: string)
    ensures var filePath := ServerVariant.ResolvedPath(fs, staticDir, path);
      ParsedResponse(ServerVariant.Answer(fs, staticDir, path))
      == if filePath in fs && fs[filePath].File? then
           Success(Response(200, "OK", ExpectedHeaders(ContentType(filePath)), fs[filePath].content))
         else if filePath in fs && fs[filePath].Unreadable? then
           Success(Response(500, "Internal Server Error", ExpectedHeaders(""), Server.ErrorBody()))
         else
           Success(Response(404, "Not Found", ExpectedHeaders(""), Server.NotFoundBody()))
  {
    var filePath := ServerVariant.ResolvedPath(fs, staticDir, path);
    if filePath !in fs {
      VariantMissingAsReadByClient(fs, staticDir, path);
    } else {
      match fs[filePath]
      case File(_) => VariantFileAsReadByClient(fs, staticDir, path);
      case Unreadable => VariantUnreadableAsReadByClient(fs, staticDir, path);
      case Directory => VariantMissingAsReadByClient(fs, staticDir, path);
    }
  }

  lemma VariantFileAsReadByClient(fs: FileSystem, staticDir: string, path: string)
    requires ServerVariant.ResolvedPath(fs, staticDir, path) in fs
    requires fs[ServerVariant.ResolvedPath(fs, staticDir, path)].File?
    ensures var filePath := ServerVariant.ResolvedPath(fs, staticDir, path);
      ParsedResponse(ServerVariant.Answer(fs, staticDir, path))
      == Success(Response(200, "OK", ExpectedHeaders(ContentType(filePath)), fs[filePath].content))
  {
    var filePath := ServerVariant.ResolvedPath(fs, staticDir, path);
    var content := fs[filePath].content;
    var ct := ContentType(filePath);
    ContentTypeFramable(Ext(filePath));
    assert Exists(fs, filePath) && !IsDir(fs, filePath);
    assert ServerVariant.Answer(fs, staticDir, path) == Server.FileHeaders(filePath) + content;
    assert Server.FileHeaders(filePath) == EncodedHeaders(200, ct);
    ResponseRoundTrip(200, ct, content);
  }

  lemma VariantUnreadableAsReadByClient(fs: FileSystem, staticDir: string, path: string)
    requires ServerVariant.ResolvedPath(fs, staticDir, path) in fs
    requires fs[ServerVariant.ResolvedPath(fs, staticDir, path)].Unreadable?
    ensures ParsedResponse(ServerVariant.Answer(fs, staticDir, path))
         == Success(Response(500, "Internal Server Error", ExpectedHeaders(""), Server.ErrorBody()))
  {
    var filePath := ServerVariant.ResolvedPath(fs, staticDir, path);
    assert Exists(fs, filePath) && !IsDir(fs, filePath) && !fs[filePath].File?;
    assert ServerVariant.Answer(fs, staticDir, path) == Server.ErrorReply();
    ErrorReplyAsReadByClient();
  }

  lemma VariantMissingAsReadByClient(fs: FileSystem, staticDir: string, path: string)
    requires ServerVariant.ResolvedPath(fs, staticDir, path) !in fs
      || fs[ServerVariant.ResolvedPath(fs, staticDir, path)].Directory?
    ensures ParsedResponse(ServerVariant.Answer(fs, staticDir, path))
         == Success(Response(404, "Not Found", ExpectedHeaders(""), Server.NotFoundBody()))
  {
    var filePath := ServerVariant.ResolvedPath(fs, staticDir, path);
    assert !(Exists(fs, filePath) && !IsDir(fs, filePath));
    assert ServerVariant.Answer(fs, staticDir, path) == Server.NotFoundReply();
    assert Server.NotFoundReply() == EncodedHeaders(404, "") + Server.NotFoundBody();
    ResponseRoundTrip(404, "", Server.NotFoundBody());
  }

  /** The favicon shortcut reads as 200, `image/x-icon` and an empty body. */
  lemma FaviconAsReadByClient(verb: string, fs: FileSystem, staticDir: string)
    ensures ParsedResponse(Server.Answer(verb, Server.FaviconPath, fs, staticDir).reply)
         == Success(Response(200, "OK", ExpectedHeaders("image/x-icon"), []))
  {
    ContentTypeFramable(".ico");
    var reply := Server.Answer(verb, Server.FaviconPath, fs, staticDir).reply;
    assert reply == Server.FaviconHeaders();
    assert reply == EncodedHeaders(200, "image/x-icon") + [];
    ResponseRoundTrip(200, "image/x-icon", []);
  }

  /**
   * End to end: a client GET of a file path, sent in non-empty pieces and
   * then closed by the server, yields status 200 and the file's bytes
   * exactly when the path `server/server.py` looks up is a readable file.
   */
  lemma GetServesFile(host: string, path: string, fs: FileSystem, staticDir: string, pieces: seq<seq<byte>>)
    requires IsAscii(host) && IsAscii(path) && path != [] && NoSpace(path)
    requires path != Server.FaviconPath
    requires forall k :: 0 <= k < |pieces| ==> pieces[k] != []
    requires Concat(pieces) == Server.Serve(AsciiEncode(ConstructRequest(host, "GET", path)), fs, staticDir).reply
    ensures var filePath := Server.FilePath(staticDir, path);
      var parsed := ParsedResponse(Concat((pieces + [[]])[..ChunksBeforeEof(pieces + [[]])]));
      parsed.Success?
      && (parsed.value.statusCode == 200 <==> filePath in fs && fs[filePath].File?)
      && (parsed.value.statusCode == 200 ==> parsed.value.body == fs[filePath].content)
  {
    GetReachesServer(host, path, fs, staticDir);
    ReadsWholeStream(pieces);
    AnswerAsReadByClient("GET", path, fs, staticDir);
  }
}
