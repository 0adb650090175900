# HTTP/1.1 framing of a hand-written static-file server and GET client

This project models the message framing and request handling of the
`http-server-assignment` repository, which has two servers and a client:

- `HTTPServer` in `server/server.py` answers one request per connection
  from a static directory;
- `HTTPServer` in `server/sever.py` is a variant of that server;
- `HTTPClient` in `client/client.py` sends a GET and parses the response
  read until the server closes the connection.

What the model covers, module by module:

- `Framing`:
  - the header block the servers write (`_generate_headers`);
  - the request-line parser (`_parse_request`);
  - the extension table (`_get_content_type`);
  - the traversal guard, `path.lstrip('/').replace('..', '')`.

  `server/sever.py` repeats these helpers character for character, so they
  are modelled once here and used by both handlers.
- `Server`: the `_handle_request` of `server/server.py`. It covers:
  - the bytes received, decoded as UTF-8;
  - the favicon shortcut and the default document `index.html`;
  - the 200 / 404 / 500 branches and the `close` on every path;
  - the access-log record of the method, path, status and content length.

  `Serve` and `Answer` are the specification functions. The `HandleRequest`
  and `Respond` methods do the same work step by step on a `Connection`
  object, and are proved to send exactly the bytes those functions give.
- `ServerVariant`: the `_handle_request` of `server/sever.py`. It has no
  favicon shortcut and no log record. A directory is served through its
  `index.html`.
- `Client`:
  - `_construct_request`;
  - the `recv` loop of `get`, which reads until the first empty chunk;
  - `_parse_response`, as a specification function (`ParsedResponse`) and
    as a method that follows the code (`ParseResponse`, with
    `CollectHeaders` for its loop).
- `Exchange`: how the client and `server/server.py` read each other.
  - The server parses back the method and path of the request the client
    writes.
  - The client parses back the status, reason, header fields and body of
    every response the server writes.
  - End to end, a GET for a path other than `/favicon.ico`, with an ASCII
    host and a non-empty ASCII path without spaces, yields 200 and the
    file's bytes exactly when the looked-up path is a readable file.
    `/favicon.ico` always yields 200 with an empty body, whether or not the
    file exists.
  - What the client reads back from the variant handler of
    `server/sever.py`: 200, 404 or 500, decided by the path it looks up.
- Support modules:
  - `Text` holds the Python string operations: `find`, `split(sep)`,
    `split()`, `join`, `strip`, `lstrip(c)` and `replace(pat, '')`.
  - `Codec` holds strict UTF-8 decoding, ASCII encoding, `str(int)` and
    `int(str)`.
  - `Paths` holds `os.path.join` and `os.path.splitext`, over an abstract
    file system.
  - `Transport` is the accepted socket: the bytes sent, and whether it has
    been closed.

## Inputs and environment as parameters

The handlers take as parameters everything the code gets from its
environment:

- the bytes `recv(1024)` returned, as a byte sequence;
- the file system, as a map from path strings to entries: a readable file
  with its bytes, a directory, or an entry whose `open` raises;
- the static directory, as a string;
- the chunks the client's `recv(4096)` returns in turn, as a sequence of
  byte sequences.

## Behaviour of the code worth knowing

- The client stores header keys exactly as they appear, stripped; it does
  not lowercase them. A duplicate key keeps its last value.
- No message is framed by `Content-Length`. The client reads until the
  server closes the connection.
- The client always sends `Connection: close`. There is no keep-alive and
  no reconnection.
- The request path is sent as given. It is not percent-encoded and gets no
  leading `/`.
- The server logs the length of what follows its header block, under the
  label `Content_length`.
- `server/server.py` answers a directory with 404 and the `404 Not Found`
  body. It logs that answer with status 200, because the logged status only
  asks whether the path exists (`Server.DirectoryLoggedAsFound`).
- The traversal guard can be walked around. `/../x` sanitises to `/x`, an
  absolute path, and `os.path.join` then discards the static directory
  (`Server.TraversalEscapesStaticDir`). The model keeps this behaviour and
  states it as a property.

## Model

| member | source | states |
|---|---|---|
| Text.Find | client/client.py:43 | `find` returns the first index at which the pattern occurs; no earlier index matches; `None` (the -1) means no index matches |
| Text.SplitOn | server/server.py:81 | the pieces of `split(sep)` joined by `sep` give the string back, and no piece contains `sep` |
| Text.SplitJoin | server/server.py:77 | splitting a join gives the parts back when no part holds the separator's first character |
| Text.Words | server/server.py:82 | every piece of `split()` is non-empty and holds no whitespace |
| Text.WordsOfSpace | server/server.py:82 | `split()` of a string that is all whitespace is the empty list |
| Text.WordsSplit | server/server.py:82 | `split()` of leading whitespace, a word, then nothing or whitespace and a rest, is that word followed by the `split()` of the rest |
| Text.Strip | client/client.py:58 | `strip()`, as a definition; `Text.StripIsSlice` and `Text.StripEnds` state what it keeps |
| Text.StripEnds | client/client.py:58 | `strip()` never lengthens a string and keeps no whitespace at either end |
| Text.StripIsSlice | client/client.py:58 | what `strip()` keeps is the slice of the string that starts where the leading whitespace ends, with only whitespace outside it |
| Text.RemoveAll | server/server.py:109 | `replace(pat, '')` never lengthens the string |
| Text.RemoveAllAbsent | server/server.py:109 | `replace(pat, '')` leaves the string unchanged when the pattern does not occur |
| Text.WordsJoin | server/server.py:82 | `split()` of words joined by single spaces gives the words back |
| Text.LStripChar | server/server.py:109 | `lstrip('/')` removes exactly a leading run of '/', and what is left is a suffix that does not start with '/' |
| Text.RemoveDotDotLeavesNone | server/server.py:109 | after `replace('..', '')` no two adjacent dots remain |
| Codec.Utf8Decode | server/server.py:99 | strict UTF-8 decoding gives no more characters than there are bytes, and the empty text exactly for no bytes |
| Codec.IntToString | server/server.py:69 | `str(i)` is non-empty and holds no space, CR or LF |
| Codec.ParseInt | client/client.py:62 | `int(s)`, as a definition; it skips only the whitespace `int()` skips. `Codec.ParseDigits`, `Codec.ParseIntRoundTrip`, `Codec.LeadingSeparatorRejected` and `Codec.TrailingSeparatorRejected` state what it reads |
| Codec.TrimInt | client/client.py:62 | the whitespace `int()` skips around a number, as a definition: Python's whitespace except U+001C to U+001F; `Codec.TrimIntUnpadded` states that a string without it at either end is read whole |
| Codec.LeadingSeparatorRejected | client/client.py:62 | a separator U+001C to U+001F before the digits makes `int()` fail, although `strip()` would remove it |
| Codec.TrailingSeparatorRejected | client/client.py:62 | a separator U+001C to U+001F after the digits makes `int()` fail too |
| Codec.ParseDigits | client/client.py:62 | a non-empty run of ASCII digits parses to the number the digits spell |
| Codec.AsciiRoundTrip | server/server.py:99 | decoding the encoding of ASCII text gives the same text back |
| Codec.IntToStringAscii | server/server.py:69 | the decimal text of a status code is ASCII |
| Codec.ParseIntRoundTrip | client/client.py:62 | `int(str(i)) == i` for every integer, so the client reads back the status code the server wrote |
| Paths.PathJoin | server/server.py:122 | `os.path.join(a, b)` ends with `b`; it is `b` alone when `b` is absolute, and it starts with `a` otherwise |
| Paths.Ext | server/server.py:87 | the extension is a suffix of the path; when non-empty it starts with '.', holds no further '.', and holds no '/' |
| Paths.ExtOfName | server/server.py:87 | the extension of `dir/stem.x` is `.x` when the stem does not start with '.', whatever the directory |
| Paths.DotFileHasNoExt | server/server.py:87 | a dot-file such as `dir/.html` has no extension |
| Framing.GenerateHeaders | server/server.py:59-77 | `_generate_headers`, as a definition; `Framing.HeaderBlockLines` states its lines and `Framing.HeaderBlockEnd` where it ends |
| Framing.HeaderLinesFramable | server/server.py:68-75 | every header line is non-empty and free of carriage returns when the content type is |
| Framing.HeaderBlockLines | server/server.py:59-77 | split at CRLF, the header block gives back the status line, `Server`, `Connection: close`, `Content-Type` only when one is given, then the two empty strings of the closing blank line |
| Framing.HeadersAscii | server/server.py:59-77 | with an ASCII content type the whole header block is ASCII, so `.encode()` gives one byte per character |
| Framing.EncodedHeaders | server/server.py:126-129 | the encoded header block has as many bytes as the text has characters |
| Framing.HeaderBlockEnd | server/server.py:77 | the first CRLF CRLF in the encoded header block followed by any body is the one that closes the block, whatever the body holds |
| Framing.RequestLine | server/server.py:81 | the request line is a prefix of the request with no CRLF, and a CRLF follows it unless it is the whole request |
| Framing.ParseRequest | server/server.py:79-83 | parsing succeeds exactly when the request line has three whitespace-separated tokens; the method and the path it returns are non-empty and hold no whitespace |
| Framing.ParseRequestLine | server/server.py:79-83 | a request line of three single-spaced tokens parses to its first two tokens, whatever follows the first CRLF |
| Framing.ContentTypeFor | server/server.py:88-93 | the extension table, as a definition; `Framing.DefaultContentType` states its default |
| Framing.DefaultContentType | server/server.py:88-93 | `application/octet-stream` is given exactly to the extensions other than `.html`, `.css`, `.jpg` and `.ico` |
| Framing.ContentType | server/server.py:85-93 | `_get_content_type`, as a definition: the table entry of the path's extension |
| Framing.NoExtensionIsOctetStream | server/server.py:87-93 | a path without an extension gets `application/octet-stream` |
| Framing.ContentTypeFramable | server/server.py:85-93 | every value the table yields, the default included, is non-empty ASCII with no carriage return or surrounding whitespace |
| Framing.ContentTypeOfName | server/server.py:85-93 | the content type of `dir/stem.x` is the table entry for `.x` |
| Framing.UpperCaseExtensionIsDefault | server/server.py:87-93 | the table is case-sensitive: `stem.HTML` gets `application/octet-stream` |
| Framing.DotFileIsDefault | server/server.py:87-93 | `dir/.html` gets `application/octet-stream` |
| Framing.Sanitise | server/server.py:109 | the traversal guard, as a definition; `Framing.SanitisedHasNoDotDot` states what it guarantees |
| Framing.SanitisedHasNoDotDot | server/server.py:109 | the sanitised path is never longer than the path and never contains `..` |
| Framing.SanitisedCanBeAbsolute | server/server.py:109 | `/../x` sanitises to `/` followed by `x` with `..` removed: an absolute path |
| Framing.RootsSanitiseToEmpty | server/server.py:109 | `/`, `//` and `/..` sanitise to the empty path |
| Framing.JoinedPathContained | server/server.py:109-122 | unless the sanitised path starts with '/', joining it to the static directory keeps the directory as a prefix, separated from the rest by a '/', and adds no `..` |
| Transport.Connection.SendAll | server/server.py:134 | `sendall` appends all of the data to what was sent, and the socket stays open |
| Transport.Connection.Close | server/server.py:155 | `close` sends nothing more and leaves the socket closed |
| Server.Serve | server/server.py:96-155 | `_handle_request` over the received bytes, as a definition; `Server.SilentExactlyWhenEmpty`, `Server.MalformedIsServerError` and `Server.ServeLog` state its cases |
| Server.ServeLog | server/server.py:99-143 | a record is logged only when the bytes decode and the request line parses, and it names that request's method and path |
| Server.Answer | server/server.py:108-155 | `_handle_request` after parsing, as a definition; `Server.AnswerLog`, `Server.FileAnswer` and `Server.DirectoryLoggedAsFound` state its cases |
| Server.AnswerLog | server/server.py:112-151 | nothing is logged exactly when the looked-up file exists but cannot be read (never for `/favicon.ico`); a record names the request's method and path, with status 200 or 404 |
| Server.FilePath | server/server.py:109-122 | the looked-up path, as a definition; `Server.LookupContained` and `Server.RootServesDefaultDocument` state where it lies |
| Server.HandleRequest | server/server.py:96-155 | the handler sends exactly the reply `Serve` gives for the received bytes, returns its log record, and leaves the socket closed on every path |
| Server.Respond | server/server.py:108-144 | after parsing, the handler sends exactly the reply `Answer` gives, returns its log record, and leaves the socket open |
| Server.ResolvePath | server/server.py:109-122 | the looked-up path is the static directory joined with the sanitised path, or with `index.html` for `/` and for paths that sanitise to "" |
| Server.AnswerNonEmpty | server/server.py:112-134 | the answer to a parsed request is never empty: it has at least four bytes |
| Server.SilentExactlyWhenEmpty | server/server.py:99-102 | nothing at all is sent exactly when `recv` returned no bytes, and then nothing is logged |
| Server.MalformedIsServerError | server/server.py:99-151 | bytes that are not UTF-8, or a request line without three tokens, get the 500 reply and no log record |
| Server.FaviconShortcut | server/server.py:112-116 | `/favicon.ico` gets the 200 `image/x-icon` header block with no body and a 200 / length-0 record, whatever the file system and static directory |
| Server.RootServesDefaultDocument | server/server.py:119-122 | `/`, and every path that sanitises to "", is looked up as `index.html` in the static directory |
| Server.RootLikePaths | server/server.py:119-122 | `/`, `//` and `/..` are all looked up as `index.html` |
| Server.LookupContained | server/server.py:109-122 | unless the sanitised path starts with '/', the looked-up file lies under the static directory, separated from the rest by a '/', and its relative part holds no `..` |
| Server.TraversalEscapesStaticDir | server/server.py:109-122 | `/../x` is looked up at the absolute path `/x` (less any `..`), whatever the static directory is, because `os.path.join` discards it |
| Server.OnlyLookedUpEntryMatters | server/server.py:122-132 | file systems that agree on the looked-up path give the same reply and the same log record |
| Server.DirectoryLoggedAsFound | server/server.py:124-142 | a directory is answered with the 404 reply but logged with status 200 and the length of `404 Not Found` |
| Server.FileAnswer | server/server.py:124-143 | a readable file is answered with the 200 header block and its bytes, and logged with status 200 and its byte count |
| Server.LoggedLengthIsBodyLength | server/server.py:137-143 | whenever a record is logged, its length is the number of reply bytes after the first CRLF CRLF |
| Server.BodyFollowsHeaderBlock | server/server.py:129-132 | in a header block followed by a body, the first CRLF CRLF ends exactly where the body begins |
| ServerVariant.Serve | server/sever.py:90-128 | the variant's `_handle_request` over the received bytes, as a definition; `ServerVariant.SilentExactlyWhenEmpty` and `ServerVariant.MalformedIsServerError` state its cases |
| ServerVariant.Answer | server/sever.py:102-125 | the variant's answer to a parsed request, as a definition; `Exchange.VariantAnswerAsReadByClient` states its 200 / 404 / 500 decision |
| ServerVariant.ResolvedPath | server/sever.py:102-106 | the variant's looked-up path, as a definition; `ServerVariant.ResolvedContained` states where it lies |
| ServerVariant.ResolvedContained | server/sever.py:102-106 | unless the sanitised path starts with '/', the variant's looked-up file lies under the static directory, with or without `index.html` appended: the directory is a prefix, and a '/' separates it from the rest |
| ServerVariant.MalformedIsServerError | server/sever.py:99-125 | bytes that are not UTF-8, or a request line without three tokens, get the 500 reply |
| ServerVariant.HandleRequest | server/sever.py:90-128 | the variant handler sends exactly the reply its `Serve` gives for the received bytes and leaves the socket closed on every path |
| ServerVariant.ResolveFile | server/sever.py:102-106 | the looked-up path is the joined sanitised path, or its `index.html` when the joined path is a directory |
| ServerVariant.SilentExactlyWhenEmpty | server/sever.py:93-97 | the variant sends nothing at all exactly when `recv` returned no bytes |
| ServerVariant.AnswerNonEmpty | server/sever.py:109-119 | the variant's answer to a parsed request is never empty: it has at least four bytes |
| ServerVariant.DirectoryServesIndex | server/sever.py:105-114 | a directory whose `index.html` is a readable file is answered with that file's 200 header block and bytes |
| ServerVariant.RootServesIndex | server/sever.py:102-106 | `/` is looked up as `index.html` inside the static directory, when that is a directory |
| ServerVariant.HandlersAgree | server/sever.py:99-125 | away from the favicon, root and directory special cases, both handlers send the same bytes |
| ServerVariant.AnswersAgree | server/sever.py:102-117 | for a parsed path away from those special cases, the variant's answer is the reply of `server/server.py` |
| ServerVariant.FaviconNotSpecial | server/sever.py:102-117 | without a `favicon.ico` entry, the variant answers `/favicon.ico` with 404, where `server/server.py` sends the 200 header block |
| ServerVariant.FaviconSanitised | server/sever.py:102 | `/favicon.ico` sanitises to `favicon.ico` |
| Client.ConstructRequest | client/client.py:31-38 | the request built from ASCII host, method and path is ASCII |
| Client.RequestLinesOf | client/client.py:31-38 | split at CRLF, the request gives back the request line, `Host: <host>`, `Connection: close` and the closing blank line, when no argument holds a carriage return |
| Client.ChunksBeforeEof | client/client.py:79-84 | the chunks read are all non-empty and are followed by the empty chunk, unless the chunks run out first |
| Client.ReadToEof | client/client.py:79-84 | the loop returns the chunks before the first empty one, concatenated in order |
| Client.ReadStopsAtEof | client/client.py:80-83 | nothing after the first empty chunk is ever read |
| Client.ReadsWholeStream | client/client.py:79-84 | a stream sent as non-empty pieces and then closed is read back whole |
| Client.SplitStatusLine | client/client.py:52 | `split(' ', 2)` yields three parts that rebuild the line, and the first two hold no space; it fails exactly when the line has fewer than two spaces |
| Client.SplitStatusLineOf | client/client.py:51-52 | a status line built from a space-free version and code and any reason splits back into those three parts |
| Client.HeaderField | client/client.py:57-59 | a line yields a field exactly when it contains `": "` |
| Client.HeaderFieldOf | client/client.py:57-59 | `key: value` reads back as the pair when neither has surrounding whitespace and the key holds no ':' |
| Client.HeaderMap | client/client.py:55-59 | the header dict, as a definition; `Client.FieldMapKeys`, `Client.FieldMapLastWins` and `Client.CollectHeaders` state its keys and values |
| Client.FieldMapKeys | client/client.py:55-59 | a key is in the header dict exactly when some line carries it |
| Client.FieldMapLastWins | client/client.py:55-59 | the value kept for a key is the one on its last line |
| Client.CollectHeaders | client/client.py:55-59 | the loop builds exactly the header dict of the lines it is given |
| Client.ParsedResponse | client/client.py:40-66 | parsing fails with the missing-delimiter error exactly when there is no CRLF CRLF; when it succeeds, the body is everything after the first CRLF CRLF |
| Client.ParseResponse | client/client.py:40-66 | the step-by-step parser gives exactly the result of `ParsedResponse`, errors included |
| Client.Get | client/client.py:68-87 | `get` sends the GET request text and parses exactly the bytes read before the end of the stream |
| Exchange.RequestRoundTrip | client/client.py:31-38 | the server parses back the method and path of every request the client writes with space-free ones |
| Exchange.GetReachesServer | client/client.py:74-75 | a GET the client writes is ASCII, and once encoded it reaches the answering part of `server/server.py` as ("GET", path) |
| Exchange.HeaderLinesMap | client/client.py:55-59 | the client's header dict for the server's header lines holds exactly `Server`, `Connection: close` and, when given, `Content-Type` |
| Exchange.ResponseRoundTrip | client/client.py:40-66 | the client parses any header block the server writes, followed by any body, into that code, its reason phrase, the expected header dict and exactly that body |
| Exchange.AnswerAsReadByClient | server/server.py:122-134 | the client reads 200 with the file's content type and bytes exactly for a readable file, 500 for an unreadable one, and 404 with `404 Not Found` otherwise |
| Exchange.VariantAnswerAsReadByClient | server/sever.py:102-125 | for every file system and path, the client reads the variant's answer as 200 with the file's content type and bytes exactly for a readable file, 500 for an unreadable one, and 404 with `404 Not Found` otherwise, `/favicon.ico` included |
| Exchange.FaviconAsReadByClient | server/server.py:112-116 | the favicon shortcut reads as 200, `image/x-icon` and an empty body |
| Exchange.GetServesFile | client/client.py:68-87 | end to end, a GET for a path other than `/favicon.ico`, with an ASCII host and a non-empty ASCII path without spaces, yields status 200 exactly when the looked-up path is a readable file, and then its body is that file's bytes |

## Left out

- Sockets, `bind`, `listen`, `accept`, `connect`, timeouts and the thread per connection: these are I/O and concurrency. The handlers take the received bytes as a parameter and write to a `Connection` object.
- The `start` of `server/sever.py` passes `(client_socket, addr)` to a handler that takes only `client_socket`, so every worker thread would raise a TypeError. That `start` is not modelled; its handler body is.
- `recv(1024)` on the server returns at most 1024 bytes, which can cut a longer request short. The model treats the received bytes as given.
- The favicon shortcut of `server/server.py` uses `send`, which may send only part of the data. The model treats it as `sendall`.
- `ConnectionResetError` is a transport failure, so that branch is not modelled. Its handler only logs a warning and sends nothing.
- Logging: the timestamp, the client address, the `Request:` and `Connection closed` records, the error records and the `print`s. The access-log record is modelled as data, without its text format.
- `server/test.py`, the `argparse` entry points, `_setup_logging`, the client's `_save_file`, `_display_content` and command line: these are not part of this model.
- The static directory's location relative to the source file is a parameter.
- Client.Get: returns the request text rather than its `.encode()`. `GetReachesServer` states the encoding for ASCII requests only. The UTF-8 encoding of non-ASCII paths is not modelled.
- Codec.ParseInt: accepts only ASCII digits, where Python's `int` also accepts other Unicode decimal digits. The client only meets the ASCII status codes the servers write.
- Codec.ParseInt: has no limit on the number of digits. Python 3.11 and later raise ValueError in `int()` and `str()` beyond 4300 digits (`sys.int_max_str_digits`), so `Codec.ParseIntRoundTrip` holds of unbounded integers only. Status codes have three digits.
- The file system keys are exact path strings. `os.path.exists` and `os.path.isdir` get no normalisation of `.`, `//` or symbolic links.
- A Python `dict` keeps insertion order, which the client uses when it prints the headers. The model keeps only the keys and values.
- Server.Answer: a file that changes between the `exists` check and `read` is not modelled; the entry is read once.
