/**
 * The server's message helpers. `server/server.py` and `server/sever.py`
 * carry character-identical copies of `_generate_headers`, `_parse_request`
 * and `_get_content_type`, and the same traversal guard inside
 * `_handle_request`; each is modelled once here and used by both handlers.
 */
module Framing {
  import opened Wrappers
  import opened Text
  import opened Codec
  import opened Paths

  // ---------------------------------------------------------------------------
  // _generate_headers
  // ---------------------------------------------------------------------------

  /** The reason-phrase table; a code outside it gets the empty phrase. */
  function Reason(code: int): string {
    if code == 200 then "OK"
    else if code == 404 then "Not Found"
    else if code == 500 then "Internal Server Error"
    else ""
  }

  /** The `Server` line, from a raw string literal: the backslash is literal. */
  const ServerLine: string := "Server: Msm\\'s PythonServer"

  const ConnectionLine: string := "Connection: close"

  function StatusLine(code: int): string {
    "HTTP/1.1 " + IntToString(code) + " " + Reason(code)
  }

  /** The list `_generate_headers` builds: three fixed lines, then `Content-Type` when one is given. */
  function HeaderLines(code: int, contentType: string): seq<string> {
    [StatusLine(code), ServerLine, ConnectionLine]
    + (if contentType != "" then ["Content-Type: " + contentType] else [])
  }

  /**
   * `_generate_headers(code, contentType)`, with "" standing for the absent
   * content type (Python's `None` and "" are both falsy there).
   */
  function GenerateHeaders(code: int, contentType: string): string {
    Join(HeaderLines(code, contentType), CRLF) + CRLFCRLF
  }

  lemma HeaderLinesFramable(code: int, contentType: string)
    requires Lacks(contentType, '\r')
    ensures var lines := HeaderLines(code, contentType);
      forall k :: 0 <= k < |lines| ==> lines[k] != [] && Lacks(lines[k], '\r')
  {
    var lines := HeaderLines(code, contentType);
    StatusLineFramable(code);
    FixedLinesFramable();
    if contentType != "" {
      ContentTypeLineFramable(contentType);
    }
    forall k | 0 <= k < |lines| ensures lines[k] != [] && Lacks(lines[k], '\r') {
    }
  }

  lemma StatusLineFramable(code: int)
    ensures StatusLine(code) != [] && Lacks(StatusLine(code), '\r')
  {
    var version := "HTTP/1.1 ";
    var number := IntToString(code);
    LacksConcat(version, number, '\r');
    LacksConcat(version + number, " ", '\r');
    LacksConcat(version + number + " ", Reason(code), '\r');
  }

  lemma FixedLinesFramable()
    ensures ServerLine != [] && Lacks(ServerLine, '\r')
    ensures ConnectionLine != [] && Lacks(ConnectionLine, '\r')
  {
  }

  lemma ContentTypeLineFramable(contentType: string)
    requires Lacks(contentType, '\r')
    ensures Lacks("Content-Type: " + contentType, '\r')
  {
    LacksConcat("Content-Type: ", contentType, '\r');
  }

  /**
   * Split at CRLF, the header block is exactly its lines in order (status
   * line, `Server`, `Connection: close`, then `Content-Type` only when one is
   * given) followed by the two empty strings of the closing CRLF CRLF.
   */
  lemma HeaderBlockLines(code: int, contentType: string)
    requires Lacks(contentType, '\r')
    ensures SplitOn(GenerateHeaders(code, contentType), CRLF)
         == HeaderLines(code, contentType) + ["", ""]
  {
    var lines := HeaderLines(code, contentType);
    var all := lines + ["", ""];
    HeaderBlockIsJoin(code, contentType);
    HeaderLinesFramable(code, contentType);
    forall k | 0 <= k < |all| ensures Lacks(all[k], CRLF[0]) {
      if k < |lines| { assert all[k] == lines[k]; }
    }
    SplitJoin(all, CRLF);
  }

  /** The closing CRLF CRLF is two more CRLF-joined empty lines. */
  lemma HeaderBlockIsJoin(code: int, contentType: string)
    ensures GenerateHeaders(code, contentType) == Join(HeaderLines(code, contentType) + ["", ""], CRLF)
  {
    var lines := HeaderLines(code, contentType);
    JoinAppend(lines, CRLF, "");
    JoinAppend(lines + [""], CRLF, "");
    assert lines + [""] + [""] == lines + ["", ""];
  }

  lemma JoinAscii(parts: seq<string>, sep: string)
    requires IsAscii(sep) && forall k :: 0 <= k < |parts| ==> IsAscii(parts[k])
    ensures IsAscii(Join(parts, sep))
    decreases |parts|
  {
    if |parts| > 1 {
      JoinAscii(parts[1..], sep);
      LacksConcat<char>([], [], ' ');
      assert IsAscii(parts[0] + sep + Join(parts[1..], sep)) by {
        var s := parts[0] + sep + Join(parts[1..], sep);
        forall k | 0 <= k < |s| ensures s[k] as int < 128 {
          if k < |parts[0]| {
            assert s[k] == parts[0][k];
          } else if k < |parts[0]| + |sep| {
            assert s[k] == sep[k - |parts[0]|];
          } else {
            assert s[k] == Join(parts[1..], sep)[k - |parts[0]| - |sep|];
          }
        }
      }
    }
  }

  lemma StatusLineAscii(code: int)
    ensures IsAscii(StatusLine(code))
  {
    var version := "HTTP/1.1 ";
    var number := IntToString(code);
    IntToStringAscii(code);
    StatusPartsAscii(code);
    AsciiConcat(version, number);
    AsciiConcat(version + number, " ");
    AsciiConcat(version + number + " ", Reason(code));
  }

  lemma StatusPartsAscii(code: int)
    ensures IsAscii("HTTP/1.1 ") && IsAscii(" ") && IsAscii(Reason(code))
  {
  }

  lemma FixedLinesAscii()
    ensures IsAscii(ServerLine) && IsAscii(ConnectionLine)
  {
    assert IsAscii(ServerLine);
  }

  /** With an ASCII content type every header line, joined, is ASCII. */
  lemma HeaderLinesAscii(code: int, contentType: string)
    requires IsAscii(contentType)
    ensures IsAscii(Join(HeaderLines(code, contentType), CRLF))
  {
    var lines := HeaderLines(code, contentType);
    StatusLineAscii(code);
    FixedLinesAscii();
    if contentType != "" {
      ContentTypeLineAscii(contentType);
    }
    forall k | 0 <= k < |lines| ensures IsAscii(lines[k]) {
    }
    JoinAscii(lines, CRLF);
  }

  lemma ContentTypeLineAscii(contentType: string)
    requires IsAscii(contentType)
    ensures IsAscii("Content-Type: " + contentType)
  {
    AsciiEncodeAppend("Content-Type: ", contentType);
  }

  /** With an ASCII content type the whole header block is ASCII, so `.encode()` is byte-per-character. */
  lemma HeadersAscii(code: int, contentType: string)
    requires IsAscii(contentType)
    ensures IsAscii(GenerateHeaders(code, contentType))
  {
    HeaderLinesAscii(code, contentType);
    AsciiEncodeAppend(Join(HeaderLines(code, contentType), CRLF), CRLFCRLF);
  }

  /** The header block encoded, followed by any body, as bytes on the wire. */
  function EncodedHeaders(code: int, contentType: string): (b: seq<byte>)
    requires IsAscii(contentType)
    ensures |b| == |GenerateHeaders(code, contentType)|
  {
    HeadersAscii(code, contentType);
    AsciiEncode(GenerateHeaders(code, contentType))
  }

  /** Searching encoded ASCII text is searching the text. */
  lemma FindAscii(s: string, pat: string)
    requires IsAscii(s) && IsAscii(pat) && |pat| > 0
    ensures Find(AsciiEncode(s), AsciiEncode(pat)) == Find(s, pat)
  {
    var b, p := AsciiEncode(s), AsciiEncode(pat);
    forall j: nat ensures MatchAt(b, p, j) <==> MatchAt(s, pat, j) {
      if j + |pat| <= |s| {
        if s[j..j + |pat|] == pat {
          assert b[j..j + |p|] == p;
        }
        if b[j..j + |p|] == p {
          forall m | 0 <= m < |pat| ensures s[j + m] == pat[m] {
            assert b[j..j + |p|][m] == p[m];
          }
          assert s[j..j + |pat|] == pat;
        }
      }
    }
    match Find(s, pat)
    case Some(i) => FindIs(b, p, i);
    case None =>
  }

  /**
   * On the wire, the first CRLF CRLF after the encoded header block of a
   * framable content type is the one that closes the block, whatever the body
   * holds: the body starts right after the header block.
   */
  lemma HeaderBlockEnd(code: int, contentType: string, body: seq<byte>)
    requires IsAscii(contentType) && Lacks(contentType, '\r')
    ensures Find(EncodedHeaders(code, contentType) + body, HeaderEnd)
         == Some(|GenerateHeaders(code, contentType)| - 4)
  {
    var lines := HeaderLines(code, contentType);
    HeaderLinesFramable(code, contentType);
    BlankLineEndsBlock(lines);
    HeadersAscii(code, contentType);
    FindAscii(GenerateHeaders(code, contentType), CRLFCRLF);
    HeaderEndIsBlankLine();
    FindExtend(EncodedHeaders(code, contentType), body, HeaderEnd);
  }

  // ---------------------------------------------------------------------------
  // _parse_request
  // ---------------------------------------------------------------------------

  /** The three-way unpack of the request line failed (a ValueError). */
  datatype RequestError = MalformedRequestLine

  /** `request.split('\r\n')[0]`: the text before the first CRLF. */
  function RequestLine(request: string): (line: string)
    ensures |line| <= |request| && request[..|line|] == line
    ensures Find(line, CRLF) == None
    ensures |line| < |request| ==> MatchAt(request, CRLF, |line|)
  {
    var parts := SplitOn(request, CRLF);
    FirstPieceEndsAtSeparator(parts, CRLF);
    parts[0]
  }

  lemma FirstPieceEndsAtSeparator(parts: seq<string>, sep: string)
    requires |parts| >= 1
    ensures var s := Join(parts, sep);
      |parts[0]| <= |s| && s[..|parts[0]|] == parts[0]
      && (|parts[0]| < |s| ==> MatchAt(s, sep, |parts[0]|))
  {
    JoinStartsWith(parts, sep);
    if |parts| > 1 {
      var s := Join(parts, sep);
      assert s == parts[0] + sep + Join(parts[1..], sep);
      assert s[|parts[0]|..|parts[0]| + |sep|] == sep;
    }
  }

  /**
   * `_parse_request`: method and path are the first two whitespace-separated
   * tokens of the request line, which must have exactly three.
   */
  function ParseRequest(request: string): (r: Result<(string, string), RequestError>)
    ensures r.Success? <==> |Words(RequestLine(request))| == 3
    ensures r.Success? ==> r.value.0 != [] && NoSpace(r.value.0) && r.value.1 != [] && NoSpace(r.value.1)
  {
    var words := Words(RequestLine(request));
    if |words| == 3 then Success((words[0], words[1])) else Failure(MalformedRequestLine)
  }

  /** The request line is everything before the first CRLF. */
  lemma RequestLineOf(line: string, rest: string)
    requires Lacks(line, '\r')
    ensures RequestLine(line + CRLF + rest) == line
  {
    var s := line + CRLF + rest;
    assert s == line + (CRLF + rest);
    FindAfter(line, CRLF + rest, CRLF);
    FindAtStart(CRLF + rest, CRLF);
    assert s[..|line|] == line;
  }

  lemma NoSpaceLacksCR(s: string)
    requires NoSpace(s)
    ensures Lacks(s, '\r') && Lacks(s, '\n')
  {
  }

  /**
   * A request line of three tokens separated by single spaces parses to its
   * first two tokens, whatever follows the first CRLF.
   */
  lemma ParseRequestLine(verb: string, path: string, version: string, rest: string)
    requires verb != [] && NoSpace(verb)
    requires path != [] && NoSpace(path)
    requires version != [] && NoSpace(version)
    ensures ParseRequest(verb + " " + path + " " + version + CRLF + rest) == Success((verb, path))
  {
    var line := verb + " " + path + " " + version;
    var ws := [verb, path, version];
    assert Join(ws, " ") == line by {
      assert Join(ws[1..], " ") == path + " " + Join(ws[2..], " ");
      assert Join(ws[2..], " ") == version;
    }
    WordsJoin(ws);
    NoSpaceLacksCR(verb);
    NoSpaceLacksCR(path);
    NoSpaceLacksCR(version);
    LacksConcat(verb, " ", '\r');
    LacksConcat(verb + " ", path, '\r');
    LacksConcat(verb + " " + path, " ", '\r');
    LacksConcat(verb + " " + path + " ", version, '\r');
    RequestLineOf(line, rest);
  }

  // ---------------------------------------------------------------------------
  // _get_content_type
  // ---------------------------------------------------------------------------

  /** The four-entry extension table, case-sensitive, with its default. */
  function ContentTypeFor(ext: string): string {
    if ext == ".html" then "text/html"
    else if ext == ".css" then "text/css"
    else if ext == ".jpg" then "image/jpeg"
    else if ext == ".ico" then "image/x-icon"
    else "application/octet-stream"
  }

  /** The default type is given exactly to the extensions outside the table. */
  lemma DefaultContentType(ext: string)
    ensures ContentTypeFor(ext) == "application/octet-stream"
        <==> !(ext == ".html" || ext == ".css" || ext == ".jpg" || ext == ".ico")
  {
  }

  /** A file path without an extension is served as `application/octet-stream`. */
  lemma NoExtensionIsOctetStream(filePath: string)
    requires Ext(filePath) == ""
    ensures ContentType(filePath) == "application/octet-stream"
  {
  }

  /** `_get_content_type(filePath)`: the table entry of `os.path.splitext(filePath)[1]`. */
  function ContentType(filePath: string): string {
    ContentTypeFor(Ext(filePath))
  }

  /** A value that `_generate_headers` can carry on one header line and that the client reads back unchanged. */
  predicate Framable(ct: string) {
    ct != "" && IsAscii(ct) && Lacks(ct, '\r') && Strip(ct) == ct
  }

  /** Lower-case letters, '/' and '-': the characters of the table's media types. */
  predicate MediaTypeText(s: string) {
    forall k :: 0 <= k < |s| ==> 'a' <= s[k] <= 'z' || s[k] == '/' || s[k] == '-'
  }

  lemma MediaTypeFramable(s: string)
    requires s != [] && MediaTypeText(s)
    ensures Framable(s)
  {
    StripUnpadded(s);
  }

  /** Every content type the table yields can be framed as a header value. */
  lemma ContentTypeFramable(ext: string)
    ensures Framable(ContentTypeFor(ext))
  {
    var ct := ContentTypeFor(ext);
    if ext == ".html" {
      assert MediaTypeText("text/html");
    } else if ext == ".css" {
      assert MediaTypeText("text/css");
    } else if ext == ".jpg" {
      assert MediaTypeText("image/jpeg");
    } else if ext == ".ico" {
      assert MediaTypeText("image/x-icon");
    } else {
      assert MediaTypeText("application/octet-stream");
    }
    MediaTypeFramable(ct);
  }

  /**
   * The content type of `dir/stem.x` is the table entry for `.x`, for any
   * directory: it is decided by the file name's suffix from its last dot.
   */
  lemma ContentTypeOfName(dir: string, stem: string, x: string)
    requires stem != [] && stem[0] != '.' && Lacks(stem, '/')
    requires Lacks(x, '.') && Lacks(x, '/')
    ensures ContentType(dir + "/" + stem + "." + x) == ContentTypeFor("." + x)
  {
    ExtOfName(dir, stem, x);
  }

  /** Extensions are case-sensitive: `stem.HTML` is served as `application/octet-stream`. */
  lemma UpperCaseExtensionIsDefault(dir: string, stem: string)
    requires stem != [] && stem[0] != '.' && Lacks(stem, '/')
    ensures ContentType(dir + "/" + stem + "." + "HTML") == "application/octet-stream"
  {
    assert Lacks("HTML", '.') && Lacks("HTML", '/');
    ContentTypeOfName(dir, stem, "HTML");
  }

  /** A dot-file such as `.html` has no extension and gets the default type. */
  lemma DotFileIsDefault(dir: string)
    ensures ContentType(dir + "/.html") == "application/octet-stream"
  {
    DotFileHasNoExt(dir, "html");
    assert dir + "/." + "html" == dir + "/.html";
  }

  // ---------------------------------------------------------------------------
  // The traversal guard of _handle_request
  // ---------------------------------------------------------------------------

  /** `path.lstrip('/').replace('..', '')`. */
  function Sanitise(path: string): string {
    RemoveAll(LStripChar(path, '/'), "..")
  }

  /** The sanitised path is never longer than the path and never contains "..". */
  lemma SanitisedHasNoDotDot(path: string)
    ensures |Sanitise(path)| <= |path|
    ensures Find(Sanitise(path), "..") == None
  {
    RemoveDotDotLeavesNone(LStripChar(path, '/'));
    NoDotPairFind(Sanitise(path));
  }

  /**
   * The guard does not keep the path relative: `/../x` sanitises to `/` and
   * the sanitised `x`, an absolute path.
   */
  lemma SanitisedCanBeAbsolute(x: string)
    ensures Sanitise("/../" + x) == "/" + RemoveAll(x, "..")
  {
    var s := "/../" + x;
    var t := "../" + x;
    var u := "/" + x;
    assert s[0] == '/' && s[1..] == t && t[0] == '.';
    assert LStripChar(s, '/') == t;
    assert t[0..2] == "..";
    assert MatchAt(t, "..", 0);
    assert t[2..] == u;
    assert RemoveAll(t, "..") == RemoveAll(u, "..");
    assert !MatchAt(u, "..", 0) by {
      MatchNeeds(u, "..", 0, 0);
    }
    assert u[1..] == x;
    assert RemoveAll(u, "..") == [u[0]] + RemoveAll(x, "..");
  }

  /** `/`, `//` and `/..` all sanitise to the empty path. */
  lemma RootsSanitiseToEmpty()
    ensures Sanitise("/") == ""
    ensures Sanitise("//") == ""
    ensures Sanitise("/..") == ""
  {
    SlashSanitises("/");
    SlashSanitises("//");
    DotDotSanitises();
  }

  lemma SlashSanitises(p: string)
    requires forall k :: 0 <= k < |p| ==> p[k] == '/'
    ensures Sanitise(p) == ""
  {
    assert LStripChar(p, '/') == "";
  }

  lemma DotDotSanitises()
    ensures Sanitise("/..") == ""
  {
    var p := "/..";
    var dots := "..";
    assert p[1..] == dots;
    assert LStripChar(dots, '/') == dots;
    assert LStripChar(p, '/') == dots;
    assert MatchAt(dots, "..", 0);
    assert dots[2..] == "";
  }

  /**
   * Unless the sanitised path is absolute, joining it to the static
   * directory gives that directory, a '/' separating it from what follows,
   * and the sanitised path, which holds no "..".
   */
  lemma JoinedPathContained(staticDir: string, path: string)
    requires Sanitise(path) == [] || Sanitise(path)[0] != '/'
    ensures var p := PathJoin(staticDir, Sanitise(path));
      |staticDir| <= |p| && p[..|staticDir|] == staticDir
      && p[|p| - |Sanitise(path)|..] == Sanitise(path)
      && Find(Sanitise(path), "..") == None
    ensures var p := PathJoin(staticDir, Sanitise(path));
      staticDir == [] || staticDir[|staticDir| - 1] == '/' || (|staticDir| < |p| && p[|staticDir|] == '/')
  {
    var r := Sanitise(path);
    SanitisedHasNoDotDot(path);
    var p := PathJoin(staticDir, r);
    assert |staticDir| <= |p| && p[..|staticDir|] == staticDir;
  }
}
