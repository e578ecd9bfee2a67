# A verified model of a small HTTP/1.1 server's request → route → response path

The server reads one request per connection into a 1024-character buffer. It parses the
request line, the header lines and the body, then looks the route key up in a table of five
routes. The chosen handler builds an `HttpResponse` by setter calls, and `str()` serialises it.
The model covers these pieces, one Dafny module per C++ unit:

- `Text`: the fragments of the C++ standard library that the code leans on. These are
  `std::string::find`, `find_first_of`, `find_first_not_of` and `find_last_of`, plus
  `std::to_string` on lengths. It also defines `Option` and `Result`; a `Result` failure
  stands for a thrown exception.
- `Common`: the path tokenizer `split`. It is the method `Split`, with a loop over the
  '/'-separated fields, proved equal to the function `Tokens`.
- `RequestMethod`: `get_request_type` (substring containment, POST before GET) and
  `to_string(t_request_type)`.
- `Request`: the `RequestStatus` constructor (stream extraction of three words), `ParseHeaders`
  (a loop over CRLF-terminated lines) and the `HttpRequest` constructor. Each is a method
  proved equal to a function. The properties are proved about those functions.
- `Status`: `t_response_answer` and its status text, including the `"UNKNOWN"` default branch
  for an out-of-range value.
- `OrderedMap`: the `std::map<std::string, std::string>` of response headers. It is a strictly
  ascending association list, so iterating it visits keys in key order.
- `Response`: the class `HttpResponse`. It has its status and version, a mutable header list
  and body, and setters that upsert. `PrepareBody` compresses, and `Str` is `str()`.
- `Context`: `ServerContext` and `GetDirectory`.
- `Handlers`: the five handlers, the route table and `handle_http_request`. Each handler is a
  method that builds its response by setter calls, in the order the code uses. It is proved
  to produce the value a specification function describes.
- `Server`: `parse_request` and the buffer handling of `handle_client`, composed from the
  pieces above.

Several things are parameters of the model rather than parts of it:

- the file system (`read_file`, `write_file`);
- the `std::stoi` conversion in `handle_post`;
- zlib `compress`;
- the text of `t_http_version`, which is defined outside the modelled files.

The model follows the code in three places where an HTTP reader might expect otherwise:

- Headers are emitted in ascending key order, because they live in a `std::map`. They are
  not emitted in the order the setters were called.
- The request's version is kept as the raw third word of the request line, with no check
  against known versions.
- The method word is classified by substring containment, not by equality.

## Model

| member | source | states |
|---|---|---|
| Text.Find | src/http_request.hpp:113 | the result is the first index at or after `from` where the pattern occurs; None exactly when it occurs nowhere from there |
| Text.FindIffContains | src/http_request.cpp:6-13 | a search from the start succeeds exactly when the pattern is a substring |
| Text.FirstOf | src/http_request.hpp:72-76 | the first index holding a character of the set, no such character before it; None when the string has none |
| Text.FirstNotOf | src/http_request.hpp:127 | the first index holding a character outside the set, only set characters before it; None when all are in the set |
| Text.LastOf | src/http_request.hpp:79-83 | the last index holding a character of the set, none after it; None when the string has none |
| Text.LastOfPadded | src/server.cpp:28-37 | appending characters outside the set does not move the last occurrence |
| Text.AfterLastOfPadded | src/server.cpp:28-37 | the text after the last occurrence in `s + pad` is the text after it in `s`, followed by `pad` |
| Text.NatToString | src/http_response.hpp:42-45 | `std::to_string` gives a non-empty string of decimal digits with no leading zero: a text starting with '0' is exactly "0", the text of 0 |
| Text.DecimalRoundTrip | src/http_response.hpp:42-45 | reading the decimal text of `n` back gives `n` |
| Text.NatToStringInjective | src/http_response.hpp:42-45 | different lengths have different Content-Length texts |
| Common.Fields | src/common.cpp:19-26 | a string has at least one '/'-separated field |
| Common.FieldsJoin | src/common.cpp:19-26 | the fields hold no slash, and joining them with '/' gives back the input |
| Common.FieldsSlashFree | src/common.cpp:19-26 | no field holds a slash |
| Common.NonEmpty | src/common.cpp:21-25 | every kept field is non-empty and is one of the fields, and every non-empty field is kept |
| Common.NonEmptyAppend | src/common.cpp:21-25 | filtering is done field by field: the kept fields of `a + b` are those of `a` then those of `b`, and a single field is kept exactly when it is non-empty |
| Common.PairsLayout | src/common.cpp:23-24 | pushing "/" and a segment per segment puts "/" at every even index and the i-th segment at index 2i+1 |
| Common.Split | src/common.cpp:8-32 | the getline loop for a non-empty target returns exactly `Tokens(s)` |
| Common.TokensLayout | src/common.cpp:19-30 | "/" at even indices and a non-empty, slash-free segment at odd ones; the odd tokens are the non-empty fields in order; the length is twice their number, plus one exactly when the target ends in '/' |
| Common.PairsWithTail | src/common.cpp:23-30 | the token layout for a given list of segments, with or without the final "/" |
| Common.TokensStartWithSlash | src/common.cpp:23-29 | split of a non-empty target is non-empty and starts with "/" |
| Common.SlashSpecialCase | src/common.cpp:14-30 | the special case `split("/") == ["/"]` agrees with the general rule: no non-empty field and a trailing slash |
| Common.TokensExamples | src/common.cpp:8-32 | `split("/a/b") == ["/","a","/","b"]` and `split("/a/") == ["/","a","/"]` |
| OrderedMap.LessIrreflexive | src/http_response.hpp:71 | no key is below itself in std::string order |
| OrderedMap.LessAsymmetric | src/http_response.hpp:71 | two keys are never below each other |
| OrderedMap.LessTotal | src/http_response.hpp:71 | two different keys are ordered one way or the other |
| OrderedMap.LessTransitive | src/http_response.hpp:71 | the key order is transitive |
| OrderedMap.LessCommonPrefix | src/http_response.hpp:71 | a common prefix does not change how two keys compare |
| OrderedMap.Lookup | src/http_response.hpp:61 | `find` succeeds exactly for the map's keys and yields the key's value |
| OrderedMap.Upsert | src/http_response.hpp:44 | `m[k] = v` gives the dictionary updated at `k` |
| OrderedMap.ToMapKeys | src/http_response.hpp:71 | the dictionary's keys are exactly the entries' keys |
| OrderedMap.UpsertSorted | src/http_response.hpp:71 | setting a key keeps the keys strictly ascending |
| OrderedMap.SortedAscending | src/http_response.hpp:31-34 | iteration visits the keys in strictly ascending order |
| OrderedMap.SortedCanonical | src/http_response.hpp:71 | two sorted lists with the same dictionary are the same list |
| OrderedMap.UpsertCommutes | src/http_response.hpp:42-53 | setting two different keys gives the same map in either order |
| RequestMethod.GetRequestType | src/http_request.cpp:4-15 | POST when the word contains "POST"; otherwise GET when it contains "GET"; otherwise the invalid_argument error |
| RequestMethod.RequestTypeName | src/http_request.cpp:18-29 | `to_string(t_request_type)`: classifying the name printed for GET or POST gives that method back, and the "UNKNOWN" printed otherwise is rejected (NameRoundTrip) |
| RequestMethod.NameRoundTrip | src/http_request.cpp:4-29 | classifying the printed name of GET or POST gives it back; "UNKNOWN" is rejected |
| RequestMethod.NoOccurrence | src/http_request.cpp:6-13 | a word lacking the pattern's first character does not contain it |
| RequestMethod.SubstringExamples | src/http_request.cpp:6-13 | "XGETX" is GET, "POSTGET" is POST, "" is an error |
| Request.SkipSpace | src/http_request.hpp:29 | extraction skips exactly the run of white space that follows the position |
| Request.WordEnd | src/http_request.hpp:29 | a word runs up to the next white space or the end |
| Request.ReadWord | src/http_request.hpp:29-34 | the two loops of operator>> read exactly `NextWord` |
| Request.NextWordMeaning | src/http_request.hpp:29-34 | a word read is empty or white-space-free, and it is empty exactly when only white space is left |
| Request.NextWordAt | src/http_request.hpp:29-34 | a word between white space (or the end) is what extraction reads |
| Request.WordBetween | src/http_request.hpp:29-34 | a word after a run of white space and before white space or the end is read with its end position |
| Request.ParseRequestStatus | src/http_request.hpp:25-35 | the constructor's three extractions give `RequestStatusOf(line)`, with errors for a bad method and a missing target |
| Request.RequestLineRoundTrip | src/http_request.hpp:25-35 | `m t v` with single spaces gives the classified method, `split(t)` and the version `v` verbatim, or the method error |
| Request.MissingTarget | src/http_request.hpp:31-33 | a valid method followed only by white space fails for the missing target |
| Request.Section | src/http_request.hpp:116-119 | the lines before the first empty one: a non-empty prefix followed by an empty line or the end |
| Request.TrimLeft | src/http_request.hpp:127 | only leading spaces and tabs are dropped, the rest is kept verbatim, and the result does not start with a blank |
| Request.SplitHeader | src/http_request.hpp:120-127 | None exactly when the line has no colon |
| Request.SplitHeaderMeaning | src/http_request.hpp:120-127 | the key is the text before the first colon and holds none, the value is the rest with leading blanks removed |
| Request.HeaderLineValue | src/http_request.hpp:125-127 | `key:` with blanks then a value splits into that key and value |
| Request.ParseHeaders | src/http_request.hpp:108-132 | the loop returns the scan of the CRLF-terminated lines, `HeadersOf(h)` |
| Request.LinesFrom | src/http_request.hpp:113-130 | the `find("\r\n", start)` walk: the lines walked are exactly the CRLF-terminated lines written, trailing text ignored (LinesRoundTrip, LinesFromJoin) |
| Request.FindLineEnd | src/http_request.hpp:113 | a search for CRLF at the start of a CRLF-free line followed by CRLF stops at that CRLF, and the line read is that line |
| Request.FindNoLine | src/http_request.hpp:113 | a search for CRLF in CRLF-free text finds nothing, so the loop ends |
| Request.LinesFromCons | src/http_request.hpp:113-130 | one loop step reads a CRLF-free line and resumes two characters after its CRLF |
| Request.LinesFromJoin | src/http_request.hpp:113-130 | the lines the loop walks, starting at any offset, are exactly the CRLF-free lines that were written there each followed by CRLF, whatever unterminated text follows |
| Request.LinesRoundTrip | src/http_request.hpp:113-115 | reading the lines of `JoinCRLF(ls) + tail` gives back `ls` |
| Request.JoinCRLFAppend | src/http_request.hpp:113-130 | one more line adds one more CRLF-terminated line at the end |
| Request.ScanAppendBlank | src/http_request.hpp:116-119 | a final empty line does not change the scan |
| Request.ScanError | src/http_request.hpp:120-124 | the only error the header loop raises is the missing colon |
| Request.ScanBodyTail | src/http_request.hpp:78 | the headers text of a written request is scanned as its header lines, the body after the blank line never read |
| Request.ScanStopsAtBlank | src/http_request.hpp:116-119 | lines after the first empty line never affect the result |
| Request.ScanFailsIff | src/http_request.hpp:116-124 | the scan fails exactly when a line before the first empty one has no colon |
| Request.ScanUnsetKey | src/http_request.hpp:128 | a key no line sets keeps its previous state |
| Request.ScanLastWins | src/http_request.hpp:128 | a key holds the value of the last line that sets it |
| Request.HeadersLastWins | src/http_request.hpp:113-130 | a header is present exactly when a line before the blank line sets it, and it holds the last such value |
| Request.SectionLastWins | src/http_request.hpp:113-130 | the same, for any list of lines |
| Request.ScanExample | src/http_request.hpp:125-128 | of two lines for one key the second value wins, its leading blanks removed; lines after the blank line are unread |
| Request.ParseRequest | src/http_request.hpp:68-85 | the constructor's steps give `Parse(raw)`, each error where the code throws |
| Request.ParseNoLineBreak | src/http_request.hpp:72-76 | non-empty text without CR or LF is refused |
| Request.ParseBreakAtEnd | src/http_request.hpp:78 | a single line break at the very end makes `substr(idx + 2)` out of range |
| Request.ParsedBody | src/http_request.hpp:79-83 | the body is the text after the last CR or LF and holds neither; the empty request has an empty body |
| Request.LastOfBefore | src/http_request.hpp:79-83 | the last character of a set is the one followed only by characters outside it, and the text after it is that tail |
| Request.RequestLineSplit | src/http_request.hpp:72-78 | a request line free of CR and LF followed by CRLF is cut there, and the headers text is what follows the CRLF |
| Request.RequestBody | src/http_request.hpp:79-83 | text ending in CRLF and a body free of CR and LF has that body |
| Request.ParseRoundTrip | src/http_request.hpp:68-85 | a request written as line, CRLF, CRLF-terminated header lines, CRLF and a body parses into the line's status, the scan of those lines and the body; the request-line error or the missing-colon error otherwise |
| Request.ParsedWellFormed | src/http_request.hpp:68-85 | a parsed non-empty request has a method and a target starting with "/"; the empty request has no tokens, headers or body |
| Status.AnswerOf | src/http_response.hpp:10-16 | a value names an enumerator exactly when it is 0 to 3 |
| Status.StatusText | src/http_response.cpp:7-14 | `to_string(t_response_answer)` on the enumerators: each text is its three-digit code, a space and a phrase, the four are pairwise distinct, and none is "UNKNOWN" (StatusTextShape, StatusTextInjective) |
| Status.StatusTextOf | src/http_response.cpp:3-18 | `to_string(t_response_answer)` on any underlying value: the enumerators' texts for 0 to 3, "UNKNOWN" for any other value (StatusTextOfValues) |
| Status.StatusTextShape | src/http_response.cpp:7-14 | each text is its three-digit code, a space and a phrase, and none is "UNKNOWN" |
| Status.StatusTextCode | src/http_response.cpp:7-14 | each text starts with the decimal text of its code |
| Status.CodePrefix | src/http_response.cpp:7-14 | a text whose first three characters are a code's digits starts with the code's decimal text |
| Status.ThreeDigits | src/http_response.cpp:7-14 | a three-digit code prints as its three digits |
| Status.StatusTextInjective | src/http_response.cpp:7-14 | the four texts and the four codes are pairwise distinct |
| Status.StatusTextOfValues | src/http_response.cpp:3-18 | the four enumerators give their texts and any other value gives "UNKNOWN" |
| Response.HeaderLinesAppend | src/http_response.hpp:31-34 | one more header adds one more `key: value` CRLF line at the end |
| Response.HttpResponse.constructor | src/http_response.hpp:23-25 | the given status and version, no headers, an empty body |
| Response.HttpResponse.SetContentLength | src/http_response.hpp:42-45 | upserts only Content-Length with the decimal length; the order invariant is kept |
| Response.HttpResponse.SetContentType | src/http_response.hpp:46-49 | upserts only Content-Type |
| Response.HttpResponse.SetEncoding | src/http_response.hpp:50-53 | upserts only Content-Encoding |
| Response.HttpResponse.SetBody | src/http_response.hpp:54-57 | replaces only the body |
| Response.HttpResponse.PrepareBody | src/http_response.hpp:59-66 | the new state is `Prepared(old state)` |
| Response.HttpResponse.Str | src/http_response.hpp:26-41 | prepares the body, then returns the status line, the header lines in key order, a blank line and the body |
| Response.WriteHeaders | src/http_response.hpp:31-34 | the header loop appends `HeaderLines(e)` to the status line |
| Response.PreparedUnchanged | src/http_response.hpp:59-66 | without Content-Encoding, or with an empty body, preparing changes nothing and a repeat is identical |
| Response.PreparedCompresses | src/http_response.hpp:59-66 | with Content-Encoding and a body, the body is compressed, Content-Length is its new length, nothing else changes, and a repeat compresses again |
| Response.SerializeLayout | src/http_response.hpp:26-41 | the text is the status line, the headers, CRLF and the body, in that order; with no body it ends in CRLF CRLF, with or without headers |
| Response.StatusLineEnd | src/http_response.hpp:30 | the status line ends in CRLF |
| Response.HeaderLinesEnd | src/http_response.hpp:33 | serialised headers end with CRLF |
| Handlers.BareResponses | src/handlers.cpp:6-7 | bare 200 and 404 responses rendered as HTTP/1.1 are the fixed reply constants |
| Context.DirectoryLookup | src/server_context.hpp:15-23 | a set directory is returned verbatim, "" without one and by default, and other settings do not affect it |
| Context.EmptyDirectoryLikeAbsent | src/server_context.hpp:15-23 | an empty directory reads the same as none |
| Handlers.KeyOrder | src/http_response.hpp:71 | Content-Encoding < Content-Length < Content-Type in the map's order |
| Handlers.SortedListed | src/http_response.hpp:71 | two or three entries with ascending keys are a valid map image |
| Handlers.LookupListed | src/http_response.hpp:61 | each key of two or three distinct entries is found with its own value |
| Handlers.BodyHeadersSorted | src/http_response.hpp:71 | the headers of a body response are in map order |
| Handlers.KeysDistinct | src/http_response.hpp:42-53 | the three header names differ |
| Handlers.TypeLengthEncoding | src/handlers.cpp:70-78 | type, length, then encoding gives the body headers |
| Handlers.TypeEncodingLength | src/handlers.cpp:96-104 | type, encoding, then length gives the same headers |
| Handlers.BodyHeadersLookup | src/handlers.cpp:70-78 | Content-Length is the body's length, Content-Type the given type, Content-Encoding "gzip" exactly when asked for |
| Handlers.BodyResponseCarries | src/handlers.cpp:70-79 | a body response is 200, carries the body, and its headers say the body's length, type and gzip |
| Handlers.HtmlTargetIndexSafe | src/handlers.cpp:190 | the route key "/test_example.html" after a "/" first token needs a second token, so `target[1]` at line 151 is in range |
| Handlers.RootHandler | src/handlers.cpp:11-22 | 200 for GET and 404 otherwise, with no headers and no body |
| Handlers.EchoHandler | src/handlers.cpp:84-110 | the response built is `EchoResponse(req)` |
| Handlers.EchoReply | src/handlers.cpp:96-106 | the four setter calls give the text/plain body response |
| Handlers.EchoReplies | src/handlers.cpp:89-108 | a GET with at least four tokens gets the fourth token as a text/plain body with its length and gzip as asked for; otherwise 404 |
| Handlers.UserAgentHandler | src/handlers.cpp:112-138 | the response built is `UserAgentResponse(req)` |
| Handlers.UserAgentReplies | src/handlers.cpp:117-136 | a GET with an exact-case User-Agent gets its value as a text/plain body; otherwise 404 |
| Handlers.HandlePost | src/handlers.cpp:47-61 | the response or error is `PostResponse` |
| Handlers.PostReplies | src/handlers.cpp:49-60 | 404 without Content-Length; the stoi error for an unreadable one; otherwise the write gets the body and the parsed length, and decides 201 or 404 |
| Handlers.HandleGet | src/handlers.cpp:62-81 | the response built is `GetResponse` |
| Handlers.GetReplies | src/handlers.cpp:64-80 | a non-empty file is returned as application/octet-stream with its length; an empty or unreadable one gives 404 |
| Handlers.FileHandler | src/handlers.cpp:24-45 | 404 without a directory or four tokens; otherwise POST or GET on `dir + "/" + target[3]`; otherwise 404 |
| Handlers.HtmlHandler | src/handlers.cpp:140-170 | the response built is `HtmlResponse` |
| Handlers.HtmlReplies | src/handlers.cpp:144-168 | with a directory and a non-empty file `dir/target[1]`, that file as text/html whatever the method; otherwise 404 |
| Handlers.HandleHttpRequest | src/handlers.cpp:181-197 | the response or error is `Dispatch`: 404 for no tokens or an unknown key, else the route's handler |
| Handlers.DispatchNotFound | src/handlers.cpp:185-196 | an empty target or a key outside the table gives a bare 404 |
| Handlers.RouteKeys | src/handlers.cpp:172-179 | the table knows exactly five keys |
| Handlers.DispatchOutcomes | src/handlers.cpp:24-45 | 200, 201 or 404 only, so line 44 is unreachable; 201 and the only error both come from a POST to /files with a directory and Content-Length; 201 only after a successful write |
| Handlers.DispatchShaped | src/handlers.cpp:11-170 | every response is bare or is a body response |
| Handlers.DispatchHeaders | src/handlers.cpp:62-170 | headers are in map order; a response without headers has no body; otherwise it is 200 with Content-Length its body's length, a type, and gzip exactly when asked for |
| Handlers.NoDirectoryNotFound | src/handlers.cpp:28-147 | without a served directory /files and /test_example.html give 404 |
| Server.Padding | src/server.cpp:28-37 | `n` NUL characters |
| Server.ReceiveBufferLayout | src/server.cpp:28-37 | the parsed buffer is full size, starts with the bytes read, and is NUL and break-free after them |
| Server.ParseAndRespond | src/server.cpp:17-22 | parse, dispatch and `str()` give `Serve(raw)`; a parse or stoi error is the `ServeError` that escapes and ends the server |
| Server.HandleClient | src/server.cpp:26-42 | no reply when recv fails, else the outcome for the padded buffer: the reply, or the escaping `ServeError` |
| Server.EmptyReceive | src/server.cpp:28-39 | an empty read leaves a buffer of NULs, which is refused for its missing line break |
| Server.ReceivedBody | src/server.cpp:28-39 | a network request's body is the text after the last break of the bytes read, followed by all the NUL padding |
| Server.BufferTail | src/server.cpp:28-37 | the buffer's text after its last break is the bytes' text after theirs, plus the padding |
| Server.ServeParsed | src/server.cpp:17-22 | a reply is the response to the parsed request |
| Server.RespondValue | src/server.cpp:21 | a reply is the serialised, prepared value the dispatcher chose |
| Server.ServeStatusLine | src/server.cpp:21 | a reply starts with the version text and 200 OK, 201 Created or 404 Not Found |
| Server.ServedContentLength | src/server.cpp:21 | the reply's Content-Length is the length of the body sent, compressed or not, and Content-Encoding is set exactly when gzip was asked for |

## Left out

- Sockets, the accept loop, detached threads and the unused mutex of src/server.cpp, as well as `main` and `parse_args`. The recv outcome is a parameter of `HandleClient`, and `send` is its result.
- `read_file`, `write_file`, `std::stoi` and zlib `compress` are functions the model takes as parameters, with no claims about them. The over-read of `write_file` when the size exceeds the content is not modelled.
- `to_string(t_http_version)` is not part of this model: the version text is a parameter, and `HttpVersion` has the one value the server uses.
- The debug `operator<<` printers and all `std::cout`/`std::cerr` logging.
- The unused globals `g_headers` and `g_server_error_response`.
- Characters stand for bytes; the classic-locale `isspace` set is written out.
- Request.RequestStatus: the uninitialised method of a default `RequestStatus` after an empty request is `None`.
- Request.RequestStatusOf: a request line with no target word would reach `split("")`, which reads `back()` of an empty string; the model returns `EmptyTarget` there instead of reproducing the undefined behaviour.
- Handlers.HtmlResponse: the unchecked `target[1]` is a precondition. It is met whenever the route is taken (`HtmlTargetIndexSafe`).
- Exceptions become `Failure` results, and the message texts are not kept. Nothing in `handle_client` (src/server.cpp:26-42) catches the exception a parse error or the stoi error throws out of `parse_request`. It leaves the function of a detached `std::thread` (src/server.cpp:98-99), so `std::terminate` ends the whole server, and `send` and `close` are never reached. `ServeError` stands for that termination, except `Malformed(EmptyTarget)`, which stands for the undefined behaviour of `split("")` listed above, not for termination. An empty read (`EmptyReceive`) and a request whose method is neither GET nor POST, such as HEAD, both end there. Process termination itself is not modelled.
- Context.ServerContext.GetDirectory: it has no contract of its own. Its meaning is stated by `DirectoryLookup` and `EmptyDirectoryLikeAbsent`.
- Request.ScanExample: the example is stated over header lines, not over a raw header string.
