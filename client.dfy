/**
 * `HTTPClient` of `client/client.py`: the request text it writes, the
 * accumulation of `recv` chunks until the server closes the connection, and
 * `_parse_response`, which splits the bytes at the first blank line and reads
 * the status line and the header fields.
 */
module Client {
  import opened Wrappers
  import opened Text
  import opened Codec

  // ---------------------------------------------------------------------------
  // _construct_request
  // ---------------------------------------------------------------------------

  /** The request line, `Host`, `Connection: close`, and the blank line; the path is sent as given. */
  function ConstructRequest(host: string, verb: string, path: string): (request: string)
    ensures IsAscii(host) && IsAscii(verb) && IsAscii(path) ==> IsAscii(request)
  {
    RequestAscii(host, verb, path);
    verb + " " + path + " HTTP/1.1\r\n"
    + "Host: " + host + "\r\n"
    + "Connection: close\r\n"
    + "\r\n"
  }

  /** Built from ASCII parts, the request is ASCII, so `.encode()` is byte-per-character. */
  lemma RequestAscii(host: string, verb: string, path: string)
    ensures IsAscii(host) && IsAscii(verb) && IsAscii(path) ==>
      IsAscii(verb + " " + path + " HTTP/1.1\r\n" + "Host: " + host + "\r\n" + "Connection: close\r\n" + "\r\n")
  {
    if IsAscii(host) && IsAscii(verb) && IsAscii(path) {
      AsciiEncodeAppend(verb, " ");
      AsciiEncodeAppend(verb + " ", path);
      AsciiEncodeAppend(verb + " " + path, " HTTP/1.1\r\n");
      AsciiEncodeAppend(verb + " " + path + " HTTP/1.1\r\n", "Host: ");
      AsciiEncodeAppend(verb + " " + path + " HTTP/1.1\r\n" + "Host: ", host);
      AsciiEncodeAppend(verb + " " + path + " HTTP/1.1\r\n" + "Host: " + host, "\r\n");
      AsciiEncodeAppend(verb + " " + path + " HTTP/1.1\r\n" + "Host: " + host + "\r\n", "Connection: close\r\n");
      AsciiEncodeAppend(verb + " " + path + " HTTP/1.1\r\n" + "Host: " + host + "\r\n" + "Connection: close\r\n", "\r\n");
    }
  }

  function RequestLines(host: string, verb: string, path: string): seq<string> {
    [verb + " " + path + " HTTP/1.1", "Host: " + host, "Connection: close", "", ""]
  }

  /**
   * Split at CRLF, the request is its request line, `Host: <host>`,
   * `Connection: close` and the two empty strings of the closing blank line,
   * as long as no argument holds a carriage return.
   */
  lemma RequestLinesOf(host: string, verb: string, path: string)
    requires Lacks(host, '\r') && Lacks(verb, '\r') && Lacks(path, '\r')
    ensures SplitOn(ConstructRequest(host, verb, path), CRLF) == RequestLines(host, verb, path)
  {
    var lines := RequestLines(host, verb, path);
    var first := verb + " " + path + " HTTP/1.1";
    assert Join(lines, CRLF) == ConstructRequest(host, verb, path) by {
      assert Join(lines[4..], CRLF) == "";
      assert Join(lines[3..], CRLF) == "" + CRLF + "";
      assert Join(lines[2..], CRLF) == "Connection: close" + CRLF + ("" + CRLF + "");
      assert Join(lines[1..], CRLF) == "Host: " + host + CRLF + Join(lines[2..], CRLF);
    }
    LacksConcat(verb, " ", '\r');
    LacksConcat(verb + " ", path, '\r');
    LacksConcat(verb + " " + path, " HTTP/1.1", '\r');
    LacksConcat("Host: ", host, '\r');
    SplitJoin(lines, CRLF);
  }

  // ---------------------------------------------------------------------------
  // The read loop of get
  // ---------------------------------------------------------------------------

  /** The chunks joined in order. */
  function Concat(chunks: seq<seq<byte>>): seq<byte> {
    if chunks == [] then [] else Concat(chunks[..|chunks| - 1]) + chunks[|chunks| - 1]
  }

  /** The number of chunks before the first empty one (the end of the stream); all of them when none is empty. */
  function ChunksBeforeEof(chunks: seq<seq<byte>>): (n: nat)
    ensures n <= |chunks|
    ensures forall k :: 0 <= k < n ==> chunks[k] != []
    ensures n < |chunks| ==> chunks[n] == []
  {
    if chunks == [] || chunks[0] == [] then 0 else 1 + ChunksBeforeEof(chunks[1..])
  }

  /**
   * `while True: chunk = recv(4096); if not chunk: break; response += chunk`
   * over the chunks `recv` returns in turn; once they run out, `recv`
   * returns the empty chunk of a closed stream.
   */
  method ReadToEof(chunks: seq<seq<byte>>) returns (response: seq<byte>)
    ensures response == Concat(chunks[..ChunksBeforeEof(chunks)])
  {
    response := [];
    var i := 0;
    while true
      invariant 0 <= i <= ChunksBeforeEof(chunks)
      invariant response == Concat(chunks[..i])
      decreases |chunks| - i
    {
      var chunk := if i < |chunks| then chunks[i] else [];
      if chunk == [] {
        break;
      }
      assert chunks[..i + 1][..i] == chunks[..i];
      response := response + chunk;
      i := i + 1;
    }
  }

  /** Everything from the first empty chunk on is never read. */
  lemma {:induction false} ReadStopsAtEof(chunks: seq<seq<byte>>, later: seq<seq<byte>>)
    requires ChunksBeforeEof(chunks) < |chunks|
    ensures ChunksBeforeEof(chunks + later) == ChunksBeforeEof(chunks)
    decreases |chunks|
  {
    if chunks[0] != [] {
      assert (chunks + later)[1..] == chunks[1..] + later;
      ReadStopsAtEof(chunks[1..], later);
    }
  }

  /** Sent as non-empty pieces and then closed, a byte stream is read back whole. */
  lemma {:induction false} ReadsWholeStream(pieces: seq<seq<byte>>)
    requires forall k :: 0 <= k < |pieces| ==> pieces[k] != []
    ensures ChunksBeforeEof(pieces + [[]]) == |pieces|
    ensures Concat((pieces + [[]])[..|pieces|]) == Concat(pieces)
    decreases |pieces|
  {
    var stream := pieces + [[]];
    if pieces != [] {
      var rest := pieces[1..];
      forall k | 0 <= k < |rest| ensures rest[k] != [] {
        assert rest[k] == pieces[k + 1];
      }
      ReadsWholeStream(rest);
      assert stream[0] == pieces[0];
      assert stream[1..] == rest + [[]];
    }
    assert stream[..|pieces|] == pieces;
  }

  // ---------------------------------------------------------------------------
  // _parse_response
  // ---------------------------------------------------------------------------

  datatype Response = Response(statusCode: int, statusText: string, headers: map<string, string>, body: seq<byte>)

  datatype ResponseError =
    | NoHeaderEnd         // no CRLF CRLF in the bytes: "Invalid HTTP response format"
    | UndecodableHeader   // the header bytes are not UTF-8
    | MalformedStatusLine // fewer than three parts in `split(' ', 2)`
    | InvalidStatusCode   // `int(status_code)` fails

  /**
   * `line.split(' ', 2)` unpacked into three: the text before the first
   * space, the text between the first and the second, and the rest.
   */
  function SplitStatusLine(line: string): (r: Option<(string, string, string)>)
    ensures r.Some? ==> line == r.value.0 + " " + r.value.1 + " " + r.value.2
    ensures r.Some? ==> Lacks(r.value.0, ' ') && Lacks(r.value.1, ' ')
    ensures r.None? ==> forall i, j :: 0 <= i < j < |line| ==> !(line[i] == ' ' && line[j] == ' ')
  {
    match Find(line, " ")
    case None =>
      SpaceNotFound(line);
      None
    case Some(i) =>
      var rest := line[i + 1..];
      SpaceFound(line, i);
      match Find(rest, " ")
      case None =>
        SpaceNotFound(rest);
        OneSpace(line, i);
        None
      case Some(j) =>
        SpaceFound(rest, j);
        assert line == line[..i] + " " + (rest[..j] + " " + rest[j + 1..]);
        Some((line[..i], rest[..j], rest[j + 1..]))
  }

  lemma SpaceNotFound(s: string)
    requires Find(s, " ") == None
    ensures Lacks(s, ' ')
  {
    forall k | 0 <= k < |s| ensures s[k] != ' ' {
      assert !MatchAt(s, " ", k);
      assert s[k..k + 1] == [s[k]];
    }
  }

  /** The first space splits `s` into the space-free text before it and the rest. */
  lemma SpaceFound(s: string, i: nat)
    requires Find(s, " ") == Some(i)
    ensures i < |s| && Lacks(s[..i], ' ') && s == s[..i] + " " + s[i + 1..]
  {
    assert MatchAt(s, " ", i);
    assert s[i..i + 1] == " ";
    assert s == s[..i] + s[i..i + 1] + s[i + 1..];
    forall k | 0 <= k < i ensures s[..i][k] != ' ' {
      assert !MatchAt(s, " ", k);
      assert s[k..k + 1] == [s[k]];
    }
  }

  /** A line whose only space is at `i`. */
  lemma OneSpace(line: string, i: nat)
    requires i < |line| && Lacks(line[..i], ' ') && Lacks(line[i + 1..], ' ')
    ensures forall a, b :: 0 <= a < b < |line| ==> !(line[a] == ' ' && line[b] == ' ')
  {
    forall a, b | 0 <= a < b < |line|
      ensures !(line[a] == ' ' && line[b] == ' ')
    {
      if a < i {
        assert line[..i][a] == line[a];
      } else if a == i {
        assert line[i + 1..][b - i - 1] == line[b];
      } else {
        assert line[i + 1..][a - i - 1] == line[a];
      }
    }
  }

  /** Splitting a status line built from two space-free parts and any reason gives the parts back. */
  lemma SplitStatusLineOf(version: string, code: string, reason: string)
    requires Lacks(version, ' ') && Lacks(code, ' ')
    ensures SplitStatusLine(version + " " + code + " " + reason) == Some((version, code, reason))
  {
    var line := version + " " + code + " " + reason;
    var rest := code + " " + reason;
    assert line == version + (" " + rest);
    FindAfter(version, " " + rest, " ");
    FindAtStart(" " + rest, " ");
    assert line[|version| + 1..] == rest;
    assert rest == code + (" " + reason);
    FindAfter(code, " " + reason, " ");
    FindAtStart(" " + reason, " ");
    assert line[..|version|] == version;
    assert rest[..|code|] == code;
    assert rest[|code| + 1..] == reason;
  }

  /** `key, value = line.split(': ', 1)`, both stripped, for a line holding ": "; `None` for any other line. */
  function HeaderField(line: string): (r: Option<(string, string)>)
    ensures r.None? <==> Find(line, ": ") == None
  {
    match Find(line, ": ")
    case None => None
    case Some(i) => Some((Strip(line[..i]), Strip(line[i + 2..])))
  }

  lemma FieldSplits(key: string, value: string)
    requires Lacks(key, ':')
    ensures var line := key + ": " + value;
      Find(line, ": ") == Some(|key|) && line[..|key|] == key && line[|key| + 2..] == value
  {
    var line := key + ": " + value;
    assert line == key + (": " + value);
    FindAfter(key, ": " + value, ": ");
    FindAtStart(": " + value, ": ");
  }

  /** A header line written as `key: value` reads back as that pair when key and value carry no outer whitespace and the key no ':'. */
  lemma HeaderFieldOf(key: string, value: string)
    requires Lacks(key, ':') && Strip(key) == key && Strip(value) == value
    ensures HeaderField(key + ": " + value) == Some((key, value))
  {
    FieldSplits(key, value);
  }

  /** What each line contributes to the `headers` dict, in order. */
  function Fields(lines: seq<string>): (fields: seq<Option<(string, string)>>)
    ensures |fields| == |lines|
    ensures forall k :: 0 <= k < |lines| ==> fields[k] == HeaderField(lines[k])
  {
    seq(|lines|, k requires 0 <= k < |lines| => HeaderField(lines[k]))
  }

  /** The dict after storing each field in turn, a later key overwriting an earlier one. */
  function FieldMap(fields: seq<Option<(string, string)>>): map<string, string> {
    if fields == [] then map[]
    else
      var m := FieldMap(fields[..|fields| - 1]);
      match fields[|fields| - 1]
      case None => m
      case Some((key, value)) => m[key := value]
  }

  /** The `headers` dict after the loop over the lines after the status line. */
  function HeaderMap(lines: seq<string>): map<string, string> {
    FieldMap(Fields(lines))
  }

  /** One more field updates the map by it, if it is one. */
  lemma FieldMapStep(fields: seq<Option<(string, string)>>, i: nat)
    requires i < |fields|
    ensures FieldMap(fields[..i + 1]) == match fields[i]
      case None => FieldMap(fields[..i])
      case Some((key, value)) => FieldMap(fields[..i])[key := value]
  {
    assert fields[..i + 1][..i] == fields[..i];
  }

  /** A key is in the map exactly when some field has that key. */
  lemma {:induction false} FieldMapKeys(fields: seq<Option<(string, string)>>, key: string)
    ensures key in FieldMap(fields) <==>
      exists j :: 0 <= j < |fields| && fields[j].Some? && fields[j].value.0 == key
    decreases |fields|
  {
    if fields != [] {
      var n := |fields| - 1;
      var init := fields[..n];
      FieldMapKeys(init, key);
      if key in FieldMap(init) {
        var j :| 0 <= j < |init| && init[j].Some? && init[j].value.0 == key;
        assert fields[j] == init[j];
      }
      if j :| 0 <= j < |fields| && fields[j].Some? && fields[j].value.0 == key {
        if j < n {
          assert init[j] == fields[j];
        }
      }
    }
  }

  /** The value kept for a key is the one of its last field: the last duplicate wins. */
  lemma {:induction false} FieldMapLastWins(fields: seq<Option<(string, string)>>, j: nat, key: string, value: string)
    requires j < |fields| && fields[j] == Some((key, value))
    requires forall k :: j < k < |fields| && fields[k].Some? ==> fields[k].value.0 != key
    ensures key in FieldMap(fields) && FieldMap(fields)[key] == value
    decreases |fields|
  {
    var n := |fields| - 1;
    var init := fields[..n];
    if j < n {
      assert init[j] == fields[j];
      forall k | j < k < |init| && init[k].Some? ensures init[k].value.0 != key {
        assert init[k] == fields[k];
      }
      FieldMapLastWins(init, j, key, value);
    }
  }

  /** `_parse_response`: the value the dict returned by it holds, or the exception it raises. */
  function ParsedResponse(response: seq<byte>): (r: Result<Response, ResponseError>)
    ensures r == Failure(NoHeaderEnd) <==> Find(response, HeaderEnd) == None
    ensures r.Success? ==> var i := Find(response, HeaderEnd).value;
      r.value.body == response[i + 4..] && |response| == i + 4 + |r.value.body|
  {
    match Find(response, HeaderEnd)
    case None => Failure(NoHeaderEnd)
    case Some(i) =>
      match Utf8Decode(response[..i])
      case None => Failure(UndecodableHeader)
      case Some(rawHeaders) =>
        var lines := SplitOn(rawHeaders, CRLF);
        match SplitStatusLine(lines[0])
        case None => Failure(MalformedStatusLine)
        case Some((_, code, text)) =>
          match ParseInt(code)
          case None => Failure(InvalidStatusCode)
          case Some(statusCode) =>
            Success(Response(statusCode, text, HeaderMap(lines[1..]), response[i + 4..]))
  }

  /** The loop of `_parse_response` that fills the `headers` dict. */
  method CollectHeaders(lines: seq<string>) returns (headers: map<string, string>)
    ensures headers == HeaderMap(lines)
  {
    ghost var fields := Fields(lines);
    headers := map[];
    var i := 0;
    while i < |lines|
      invariant 0 <= i <= |lines|
      invariant headers == FieldMap(fields[..i])
    {
      var line := lines[i];
      FieldMapStep(fields, i);
      var found := Find(line, ": ");
      if found.Some? {
        var key, value := Strip(line[..found.value]), Strip(line[found.value + 2..]);
        assert fields[i] == Some((key, value));
        headers := headers[key := value];
      } else {
        assert fields[i] == None;
      }
      i := i + 1;
    }
    assert fields[..|lines|] == fields;
  }

  /** `_parse_response` step by step. */
  method ParseResponse(response: seq<byte>) returns (r: Result<Response, ResponseError>)
    ensures r == ParsedResponse(response)
  {
    var headerEnd := Find(response, HeaderEnd);
    if headerEnd.None? {
      return Failure(NoHeaderEnd);
    }
    var i := headerEnd.value;
    var rawHeaders := Utf8Decode(response[..i]);
    if rawHeaders.None? {
      return Failure(UndecodableHeader);
    }
    var body := response[i + 4..];
    var lines := SplitOn(rawHeaders.value, CRLF);
    var statusParts := SplitStatusLine(lines[0]);
    if statusParts.None? {
      return Failure(MalformedStatusLine);
    }
    var headers := CollectHeaders(lines[1..]);
    var statusCode := ParseInt(statusParts.value.1);
    if statusCode.None? {
      return Failure(InvalidStatusCode);
    }
    r := Success(Response(statusCode.value, statusParts.value.2, headers, body));
  }

  /**
   * `get(path)`: the request text it sends, and what `_parse_response` makes
   * of everything read until the server closes the connection.
   */
  method Get(host: string, path: string, chunks: seq<seq<byte>>)
      returns (request: string, parsed: Result<Response, ResponseError>)
    ensures request == ConstructRequest(host, "GET", path)
    ensures parsed == ParsedResponse(Concat(chunks[..ChunksBeforeEof(chunks)]))
  {
    request := ConstructRequest(host, "GET", path);
    var response := ReadToEof(chunks);
    parsed := ParseResponse(response);
  }
}
