# A small HTTP/1.1 toolkit: request parser and response serializer

This project models the two halves of a tiny HTTP/1.1 toolkit written in Rust.

- **The request parser** (`src/request.rs`) turns raw request text into an
  `HttpRequest`. It makes one pass over the lines of the text, with an
  "in body" flag:
  - a line that mentions `HTTP` is the request line (method, target,
    version);
  - otherwise a line with a `:` is a header line;
  - the first empty line switches to the body;
  - the body lines are concatenated without a separator, and trailing NUL
    characters are stripped.

  Methods and versions are classified by total lookup tables that fall back
  to `Uninitialized`.
- **The response side** (`src/response.rs`) covers:
  - the `HttpResponse` record and its default;
  - the constructor `new_from_status`, the deprecated `new` and the 24
    named constructors;
  - `body()`, `headers()`, and the conversion to the text sent on the wire.
    That text is the status line, one `k:v` line per header, a
    `Content-Length` line giving the UTF-8 byte length of the body, an empty
    line, and then the body.

The Dafny files:

- `text.dfy` (module `Text`): the Rust string operations the code relies
  on, as functions over `seq<char>` with lemmas that characterise them.
  These are `contains`, `split`, `lines`, `split_whitespace`,
  `trim_start`, `trim_end_matches`, the UTF-8 length `len` and the decimal
  rendering of a `usize`.
- `request.dfy` (module `Request`): the parser.
  - `Parse`/`ReadLines` is the loop of `From<String> for HttpRequest`, with
    the same mutable locals and flag. It is proved equal to `Parsed`, a
    declarative description: the request line and headers come from the
    lines before the first empty line, the body from the lines after it.
  - Lemmas about `Parsed` state what the parser promises.
- `response.dfy` (module `Response`): the response record, the
  constructors, the `headers()` loop (`RenderHeaders`) and the serializer
  (`Serialize`). Each is proved against a specification function: `Built`,
  `HeaderBlock` or `Wire`.
- `readback.dfy` (module `ReadBack`): what the parser makes of the
  serializer's output. The status line mentions `HTTP`, so it is taken for
  a request line; the header lines and the `Content-Length` line come back
  as headers.

Behaviour the model reproduces as the code has it:

- `PUT`, `DELETE` and `CONNECT` are not in the method table.
- A header value is only the text between the first and the second `:`, so
  `Host: localhost:3000` gives `localhost`.
- The `HTTP` test comes before the `:` test.
- The default headers are `Content-Type: text/plain`.
- The reason phrase of 101 is `Switching Protocol`, as written, not the
  `Switching Protocols` of section 15.2.2 of RFC 9110.
- The header line is written with no space after the colon.

## Model

| member | source | states |
|---|---|---|
| Text.HasSubstringOccurs | src/request.rs:48 | `contains("HTTP")` holds exactly when the pattern occurs at some index of the line |
| Text.NoSubstringWithoutChar | src/request.rs:48 | a line lacking one of the letters of the pattern does not contain it |
| Text.IndexOf | src/request.rs:89 | the position where `split(':')` first cuts is absent exactly when there is no ':'; otherwise it is the index of the first ':' |
| Text.BeforeFirst | src/request.rs:89-97 | the first piece of `split(':')` has no ':', is a prefix of the text, and is followed by a ':' when it is shorter than the text |
| Text.LinesHaveNoNewline | src/request.rs:46 | no line produced by `lines()` contains '\n' |
| Text.LinesJoinCRLF | src/request.rs:46 | `lines()` recovers the lines of a text made of "\r\n"-terminated lines |
| Text.WordsUnwords | src/request.rs:76 | `split_whitespace()` recovers the words of a space-joined list of words |
| Text.WordsCons | src/request.rs:76-79 | a word followed by whitespace is the first token of `split_whitespace()` |
| Text.Words | src/request.rs:76 | every token of `split_whitespace()` is non-empty and free of whitespace |
| Text.TrimStartRemovesWhitespace | src/request.rs:98 | `trim_start` removes only whitespace, and all of the leading whitespace |
| Text.TrimStartSpace | src/request.rs:98 | `trim_start` of a space followed by a word drops exactly the space |
| Text.TrimEndNulRemovesNul | src/request.rs:70 | `trim_end_matches('\0')` removes only NULs from the end, and all of them |
| Text.TrimEndNulNone | src/request.rs:70 | a body that does not end in NUL is left unchanged |
| Text.ConcatWithout | src/request.rs:61 | `push_str` of lines without a character gives a body without it |
| Text.Utf8LenIsEncodedLength | src/response.rs:106 | `len()` is the number of bytes of the UTF-8 encoding of the body |
| Text.Utf8LenAscii | src/response.rs:106 | `len()` is at least the number of characters, and equal to it exactly for ASCII text |
| Text.Utf8LenAppend | src/response.rs:106 | the UTF-8 length of a concatenation is the sum of the lengths |
| Text.DecRoundTrip | src/response.rs:101 | the decimal rendering of the length reads back as the length |
| Text.Dec | src/response.rs:101 | the decimal rendering is digits only, with no leading zero |
| Request.MethodFromTable | src/request.rs:125-137 | the six listed names map to their variants; every other token, PUT, DELETE and CONNECT included, maps to `Uninitialized`; no token yields Put, Delete or Connect |
| Request.VersionFromTable | src/request.rs:146-154 | "HTTP/1.1" maps to V1_1 and "HTTP/2.0" to V2_0; every other token maps to `Uninitialized` |
| Request.MethodNameRoundTrip | src/request.rs:119-137 | classifying a method's upper-case display name gives the method back, except for Put, Delete, Connect and Uninitialized, which give `Uninitialized` |
| Request.MethodNameInjective | src/request.rs:119-123 | distinct methods are displayed differently |
| Request.ProcessReqLineOfWords | src/request.rs:75-86 | a request line yields its first three tokens as method, verbatim path and version, ignoring later tokens, and fails with the line itself when it has fewer than three |
| Request.ProcessHeaderLineParts | src/request.rs:88-102 | the key is the colon-free prefix ended by the first ':', and the whole line when there is none; the value then is empty, and it never holds a ':' |
| Request.HeaderLineAt | src/request.rs:88-102 | a line with a colon-free key splits at its first ':' into the key and the trimmed first piece of the rest |
| Request.HeaderLineSplit | src/request.rs:88-102 | `key:value` with colon-free parts gives the key and the value with only its leading whitespace removed |
| Request.HeaderLineSplitMore | src/request.rs:88-102 | everything from the second ':' on is dropped from the value |
| Request.FirstBlankIsFirst | src/request.rs:56-59 | the body starts after the first empty line: every line before it is non-empty |
| Request.Parse | src/request.rs:37-73 | the conversion yields exactly the declarative result `Parsed` of its text |
| Request.ReadLines | src/request.rs:39-71 | the loop over the lines, with its flag and six locals, yields the request line, the headers of the head, and the body of the lines after the first empty one, NULs stripped |
| Request.ReadRequestLine | src/request.rs:48-52 | a request line replaces all three request fields and leaves the headers alone |
| Request.ReadHeaderLine | src/request.rs:53-55 | a header line inserts its key and value and leaves the request fields alone |
| Request.ReadOtherLine | src/request.rs:47-59 | a non-empty line with neither HTTP nor ':' changes nothing |
| Request.RequestLineErrSticks | src/request.rs:49 | once a malformed request line has been read, the result stays that failure |
| Request.RequestLineOfFails | src/request.rs:46-53 | parsing the head fails exactly when it holds a request line with fewer than three tokens, and the error names the first such line |
| Request.RequestLineOfDefaults | src/request.rs:39-41 | with no request line in the head, the fields are method `Uninitialized`, version 1.1 and path "" |
| Request.RequestLineOfLatest | src/request.rs:48-52 | a later request line overrides an earlier one: the fields are those of the last request line |
| Request.HeadersOfKeys | src/request.rs:53-55 | the header map has a key exactly when some header line has that key |
| Request.HeadersOfLastWins | src/request.rs:53-55 | for duplicate keys the last header line's value wins |
| Request.HeadersOfHeaderLines | src/request.rs:53-55 | header lines after a non-header line give the map of their entries, later ones winning |
| Request.ParsedBodyShape | src/request.rs:56-70 | the parsed body contains no '\n' and does not end in NUL |
| Request.FirstBlankAfter | src/request.rs:56-59 | after a head of non-empty lines, the empty line that follows is the first one |
| Request.MessageLines | src/request.rs:46 | a message of "\r\n"-terminated head lines, an empty line and a body is read back as those lines |
| Request.ParseWellFormed | src/request.rs:37-73 | a head of non-empty, well-formed lines, an empty line and a one-line body parse to the head's request line and headers and to the body with trailing NULs removed |
| Request.ParseFourLineHead | src/request.rs:37-73 | a request line followed by three header lines parses to that request line, the map of the three entries, and the body |
| Request.HeaderLineIs | src/request.rs:48-53 | a line with a ':' and without one of the letters of "HTTP" is a header line |
| Request.ExampleHeaderMap | src/request.rs:179-182 | the three test entries give the expected map |
| Request.ExampleHostHeader | src/request.rs:178-180 | `Host: localhost:3000` gives the entry ("Host", "localhost") |
| Request.ReadHttpExample | src/request.rs:176-189 | the `test_read_http` request parses to GET, version 1.1, path "/greeting", the three headers with Host "localhost", and body "testbody123" |
| Response.ToMapEntries | src/response.rs:9 | a header list with distinct keys holds exactly the entries of the map it stands for |
| Response.NewFromStatus | src/response.rs:184-209 | version "HTTP/1.1", exactly the given code, phrase and body, and the given headers, or `Content-Type: text/plain` when none are given |
| Response.LegacyReasonPhrase | src/response.rs:48-54 | "200", "400", "404" and "500" get their phrases; every other code gets "" |
| Response.New | src/response.rs:27-58 | like `new_from_status`, with the phrase looked up from the code |
| Response.LegacyAgreesWithNamed | src/response.rs:48-54 | for the four known codes, `new` builds what the named constructor of that code builds |
| Response.Continue | src/response.rs:211-213 | code "100", phrase "Continue", otherwise as `new_from_status` |
| Response.SwitchingProtocol | src/response.rs:215-220 | code "101", phrase "Switching Protocol" as written |
| Response.EarlyHints | src/response.rs:222-224 | code "103", phrase "Early Hints" |
| Response.Ok | src/response.rs:226-228 | code "200", phrase "OK" |
| Response.Created | src/response.rs:230-232 | code "201", phrase "Created" |
| Response.Accepted | src/response.rs:234-236 | code "202", phrase "Accepted" |
| Response.NonAuthoritativeInformation | src/response.rs:238-243 | code "203", phrase "Non-Authoritative Information" |
| Response.NoContent | src/response.rs:245-247 | code "204", phrase "No Content" |
| Response.ResetContent | src/response.rs:249-251 | code "205", phrase "Reset Content" |
| Response.PartialContent | src/response.rs:253-255 | code "206", phrase "Partial Content" |
| Response.Found | src/response.rs:257-259 | code "302", phrase "Found" |
| Response.SeeOther | src/response.rs:261-263 | code "303", phrase "See Other" |
| Response.NotModified | src/response.rs:265-267 | code "304", phrase "Not Modified" |
| Response.TemporaryRedirect | src/response.rs:269-274 | code "307", phrase "Temporary Redirect" |
| Response.PermanentRedirect | src/response.rs:276-281 | code "308", phrase "Permanent Redirect" |
| Response.BadRequest | src/response.rs:283-285 | code "400", phrase "Bad Request" |
| Response.Unauthorized | src/response.rs:287-289 | code "401", phrase "Unauthorized" |
| Response.Forbidden | src/response.rs:291-293 | code "403", phrase "Forbidden" |
| Response.NotFound | src/response.rs:295-297 | code "404", phrase "Not Found" |
| Response.MethodNotAllowed | src/response.rs:299-304 | code "405", phrase "Method Not Allowed" |
| Response.RequestTimeout | src/response.rs:306-308 | code "408", phrase "Request Timeout" |
| Response.Gone | src/response.rs:310-312 | code "410", phrase "Gone" |
| Response.ImATeapot | src/response.rs:314-316 | code "418", phrase "I'm a teapot" |
| Response.InternalServerError | src/response.rs:318-323 | code "500", phrase "Internal Server Error" |
| Response.BodyText | src/response.rs:90-95 | the stored body, or "" when there is none |
| Response.HeaderLines | src/response.rs:84-85 | one `key:value` line per entry, in iteration order |
| Response.JoinCRLFSnoc | src/response.rs:85 | appending one more terminated line to the accumulated text |
| Response.HeaderBlockLines | src/response.rs:81-88 | the header text is the header lines, each ended by "\r\n" |
| Response.RenderHeaders | src/response.rs:81-88 | the loop accumulates exactly one `k:v\r\n` per entry, in order |
| Response.Serialize | src/response.rs:98-110 | the text is the status line, the header lines, the Content-Length line, an empty line and the body |
| Response.WireLayout | src/response.rs:98-110 | the serialized text is its lines, each ended by "\r\n", followed by the body |
| Response.ContentLengthCountsBytes | src/response.rs:106 | the Content-Length value, read as a number, is the number of bytes of the UTF-8 encoded body |
| Response.ContentLengthAscii | src/response.rs:106 | the Content-Length is at least the number of characters, and equal to it exactly for an ASCII body |
| Response.ContentLengthNoBody | src/response.rs:106 | an absent body gives `Content-Length: 0` |
| Response.ResponseStructCreation200 | src/response.rs:116-137 | `new("200", None, body)` gives "HTTP/1.1 200 OK" with the default headers and the body |
| Response.ResponseStructCreation404 | src/response.rs:139-160 | `new("404", None, body)` gives "HTTP/1.1 404 Not Found" with the default headers and the body |
| Response.ExampleBodyLength | src/response.rs:177 | the 33-character ASCII test body is 33 bytes long |
| Response.HttpResponseCreation | src/response.rs:162-180 | the 404 test response serializes to the expected text byte for byte |
| ReadBack.HeaderEntryReadsBack | src/response.rs:85 | a written header entry with no ':', no line break, no leading whitespace in its value and no `HTTP` in the written line is read back by the parser as itself |
| ReadBack.HeaderLinesReadBack | src/response.rs:81-88 | the written header lines read back as the map of the entries |
| ReadBack.StatusLineWords | src/response.rs:101 | the status line splits into the version, the code and the words of the phrase |
| ReadBack.StatusLineParses | src/response.rs:101 | the status line is taken for a request line: no method, the code as the path, and the phrase's first word as the version |
| ReadBack.ContentLengthIsHeader | src/response.rs:101 | the Content-Length line is a header line |
| ReadBack.ContentLengthValue | src/response.rs:101 | the Content-Length line reads back as the entry ("Content-Length", decimal length) |
| ReadBack.WireHeadLines | src/response.rs:98-110 | every head line of the written text is non-empty and well formed, and only the first is a request line |
| ReadBack.WireParsesAsHead | src/response.rs:98-110 | parsing the written text reads its head and its body |
| ReadBack.WireReadBack | src/response.rs:98-110 | parsing a written response gives no method, the code as the path, the phrase's first word as the version, the header entries plus Content-Length, and the body without trailing NULs |

## Left out

- `send_response` (src/response.rs:60-65) writes the serialized text to an
  output stream and ignores the result of the write. Streams are I/O, so it
  is not modelled; `Serialize` models the text it writes.
- The iteration order of a `HashMap` is unspecified. Response headers are
  modelled as a list of entries with distinct keys, and the list order is
  the iteration order.
- Serializing a response whose headers are `None` panics at `unwrap()`.
  Any response whose public `headers` field is `None` reaches that panic:
  the default value, a record literal, or a constructed response whose
  field was set to `None` afterwards. `RenderHeaders`, `Serialize` and
  `Wire` require `headers.Some?` instead.
- `process_req_line` panics on a request line with fewer than three
  tokens. The model returns `Err(MalformedRequestLine(line))` instead, and
  the parse stops there; the original aborts at that point.
- `Request.MethodNameRoundTrip`: `Display for Method` is modelled as the
  table of the variants' names in upper case, not through the `Debug`
  formatting and `to_uppercase` it is built from.
- `str::lines` is modelled as splitting at '\n' and dropping one '\r'
  before it. The final line may lack its terminator, and a trailing
  terminator gives no empty last line. Other corner cases of the Rust
  implementation are not modelled.
- Whitespace for `split_whitespace` and `trim_start` is the Unicode
  White_Space set as a fixed list of characters.
- Lifetimes and the derived `Clone`, `Debug` and `PartialEq` are not
  modelled. `Resource` is the datatype `Resource.Path`.
- `Request.ReadHttpExample` states the test request as the lines of the
  test string joined by "\r\n" and followed by the body. It does not use
  the single string literal of the test.
- `ReadBack.WireReadBack` covers only responses with all of these:
  version "HTTP/1.1"; a status code that is one word; a status phrase
  with at least one word and no line break; header entries that satisfy
  `ReadsBack`; and a body with no line break. Other responses, a
  multi-line body for one, are not read back by this model.
- The documentation example of `HttpRequest` (src/request.rs:11-27) is not
  modelled. It has the same shape as `test_read_http`.
