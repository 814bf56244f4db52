/** The request parser of the toolkit (src/request.rs): raw request text in,
    a structured request out.  The message layout is the one of sections 3
    (request line) and 5 (field lines) of RFC 9112, read as loosely as the
    original code reads it. */
module Request {
  import opened Text

  /** The requested target, kept exactly as received. */
  datatype Resource = Path(path: string)

  datatype Method = Get | Post | Head | Put | Delete | Connect | Options | Trace | Patch | Uninitialized

  datatype Version = V1_1 | V2_0 | Uninitialized

  datatype HttpRequest = HttpRequest(
    httpMethod: Method,
    version: Version,
    resource: Resource,
    headers: map<string, string>,
    msgBody: string)

  /** The one way parsing fails: a request line with fewer than three
      whitespace-separated tokens (the original panics there). */
  datatype ParseError = MalformedRequestLine(line: string)

  datatype Result<T> = Ok(value: T) | Err(error: ParseError)

  /** The three fields a request line provides. */
  datatype RequestLine = RequestLine(httpMethod: Method, resource: Resource, version: Version)

  // ----- classification of tokens -----

  /** `From<&str> for Method`: a total lookup table; PUT, DELETE and CONNECT
      are missing from it and fall back to `Uninitialized` like any unknown token. */
  function MethodFrom(s: string): Method
  {
    match s
    case "GET" => Get
    case "POST" => Post
    case "HEAD" => Head
    case "OPTIONS" => Options
    case "TRACE" => Trace
    case "PATCH" => Patch
    case _ => Method.Uninitialized
  }

  /** The lookup table of `MethodFrom`: six names are recognised; every
      other token, the names of PUT, DELETE and CONNECT included, falls back
      to `Uninitialized`. */
  lemma MethodFromTable(s: string)
    ensures MethodFrom(s) == Get <==> s == "GET"
    ensures MethodFrom(s) == Post <==> s == "POST"
    ensures MethodFrom(s) == Head <==> s == "HEAD"
    ensures MethodFrom(s) == Options <==> s == "OPTIONS"
    ensures MethodFrom(s) == Trace <==> s == "TRACE"
    ensures MethodFrom(s) == Patch <==> s == "PATCH"
    ensures MethodFrom(s) == Method.Uninitialized <==> s !in {"GET", "POST", "HEAD", "OPTIONS", "TRACE", "PATCH"}
    ensures MethodFrom(s) != Put && MethodFrom(s) != Delete && MethodFrom(s) != Connect
  {
  }

  /** `Display for Method`: the variant's name in upper case. */
  function MethodName(m: Method): string
  {
    match m
    case Get => "GET"
    case Post => "POST"
    case Head => "HEAD"
    case Put => "PUT"
    case Delete => "DELETE"
    case Connect => "CONNECT"
    case Options => "OPTIONS"
    case Trace => "TRACE"
    case Patch => "PATCH"
    case Uninitialized => "UNINITIALIZED"
  }

  /** Displaying a method and classifying the text again gives the method
      back, except for the four variants the lookup table does not produce. */
  lemma MethodNameRoundTrip(m: Method)
    ensures MethodFrom(MethodName(m)) == if m in {Put, Delete, Connect, Method.Uninitialized} then Method.Uninitialized else m
  {
  }

  /** Different methods are displayed differently. */
  lemma MethodNameInjective(m: Method, n: Method)
    ensures MethodName(m) == MethodName(n) ==> m == n
  {
  }

  /** `From<&str> for Version`: a total lookup table with fallback `Uninitialized`. */
  function VersionFrom(s: string): Version
  {
    match s
    case "HTTP/1.1" => V1_1
    case "HTTP/2.0" => V2_0
    case _ => Version.Uninitialized
  }

  /** The lookup table of `VersionFrom`: two version strings are recognised. */
  lemma VersionFromTable(s: string)
    ensures VersionFrom(s) == V1_1 <==> s == "HTTP/1.1"
    ensures VersionFrom(s) == V2_0 <==> s == "HTTP/2.0"
    ensures VersionFrom(s) == Version.Uninitialized <==> s != "HTTP/1.1" && s != "HTTP/2.0"
  {
  }

  // ----- single lines -----

  /** A line that mentions "HTTP" anywhere is taken as a request line; this
      test comes before the test for a header line. */
  predicate IsRequestLine(line: string)
  {
    HasSubstring(line, "HTTP")
  }

  /** A line with a ':' that is not a request line is a header line. */
  predicate IsHeaderLine(line: string)
  {
    !IsRequestLine(line) && ':' in line
  }

  /** A request line on which the original panics. */
  predicate IsMalformed(line: string)
  {
    IsRequestLine(line) && |Words(line)| < 3
  }

  /** `process_req_line`: the first three tokens are method, target and
      version; further tokens are ignored. */
  function ProcessReqLine(line: string): Result<RequestLine>
  {
    var ws := Words(line);
    if |ws| < 3 then Err(MalformedRequestLine(line))
    else Ok(RequestLine(MethodFrom(ws[0]), Path(ws[1]), VersionFrom(ws[2])))
  }

  /** A request line made of the words `ws` yields the classification of its
      first three words, and fails exactly when it has fewer than three. */
  lemma ProcessReqLineOfWords(ws: seq<string>)
    requires forall j :: 0 <= j < |ws| ==> IsWord(ws[j])
    ensures ProcessReqLine(Unwords(ws)) ==
      if |ws| < 3 then Err(MalformedRequestLine(Unwords(ws)))
      else Ok(RequestLine(MethodFrom(ws[0]), Path(ws[1]), VersionFrom(ws[2])))
  {
    WordsUnwords(ws);
  }

  /** `process_header_line`: the key is the text before the first ':', the
      value the text between the first and the second ':' with leading
      whitespace removed (trailing whitespace stays). */
  function ProcessHeaderLine(line: string): (string, string)
  {
    match IndexOf(line, ':')
    case None => (line, "")
    case Some(i) =>
      (line[..i], TrimStart(BeforeFirst(line[i + 1..], ':')))
  }

  /** The key is the text before the first ':' (a colon-free prefix of the
      line followed by a ':'), the whole line exactly when it has no ':', and
      then the value is empty; the value has no ':'. */
  lemma ProcessHeaderLineParts(line: string)
    ensures var kv := ProcessHeaderLine(line);
      && ':' !in kv.0 && ':' !in kv.1
      && |kv.0| <= |line| && line[..|kv.0|] == kv.0
      && (|kv.0| < |line| ==> line[|kv.0|] == ':')
      && (kv.0 == line <==> ':' !in line)
      && (':' !in line ==> kv.1 == "")
  {
  }

  /** A line with a colon-free key before its first ':' splits at that ':'. */
  lemma HeaderLineAt(k: string, rest: string)
    requires ':' !in k
    ensures ProcessHeaderLine(k + [':'] + rest) == (k, TrimStart(BeforeFirst(rest, ':')))
  {
    var s := k + [':'] + rest;
    IndexOfAfter(k, ':', rest);
    assert s[..|k|] == k && s[|k| + 1..] == rest;
  }

  /** `key:value` with colon-free key and value splits into the key and the
      left-trimmed value. */
  lemma HeaderLineSplit(k: string, v: string)
    requires ':' !in k && ':' !in v
    ensures ProcessHeaderLine(k + ":" + v) == (k, TrimStart(v))
  {
    HeaderLineAt(k, v);
  }

  /** In `key:value:more` everything from the second ':' on is dropped, so
      `Host: localhost:3000` gives the value "localhost". */
  lemma HeaderLineSplitMore(k: string, v: string, more: string)
    requires ':' !in k && ':' !in v
    ensures ProcessHeaderLine(k + ":" + v + ":" + more) == (k, TrimStart(v))
  {
    var rest := v + [':'] + more;
    assert k + ":" + v + ":" + more == k + [':'] + rest;
    HeaderLineAt(k, rest);
    BeforeFirstOf(v, ':', more);
  }

  // ----- the whole message -----

  /** Index of the first empty line, or the number of lines if there is none:
      the lines before it are the head of the message, those after it the body. */
  function FirstBlank(ls: seq<string>): (n: nat)
    ensures n <= |ls|
  {
    if ls == [] || ls[0] == "" then 0 else 1 + FirstBlank(ls[1..])
  }

  /** `FirstBlank` finds the first empty line: every line before it is
      non-empty, and the line at it, if any, is empty. */
  lemma {:induction false} FirstBlankIsFirst(ls: seq<string>)
    ensures forall j :: 0 <= j < FirstBlank(ls) ==> ls[j] != ""
    ensures FirstBlank(ls) < |ls| ==> ls[FirstBlank(ls)] == ""
  {
    if ls != [] && ls[0] != "" {
      FirstBlankIsFirst(ls[1..]);
    }
  }

  /** A line not after the first empty line is empty exactly when it is the
      first empty line. */
  lemma FirstBlankAt(ls: seq<string>, i: nat)
    requires i < |ls| && i <= FirstBlank(ls)
    ensures ls[i] == "" <==> i == FirstBlank(ls)
  {
    FirstBlankIsFirst(ls);
  }

  /** The request line fields after reading the head lines `head` in order:
      the defaults until a request line is seen, the fields of the latest
      request line afterwards, and the error of the first malformed one. */
  function RequestLineOf(head: seq<string>): Result<RequestLine>
  {
    if head == [] then Ok(RequestLine(Method.Uninitialized, Path(""), V1_1))
    else
      var prev := RequestLineOf(head[..|head| - 1]);
      var line := head[|head| - 1];
      if prev.Err? || !IsRequestLine(line) then prev else ProcessReqLine(line)
  }

  /** The header map after reading the head lines `head` in order. */
  function HeadersOf(head: seq<string>): map<string, string>
  {
    if head == [] then map[]
    else
      var m := HeadersOf(head[..|head| - 1]);
      var line := head[|head| - 1];
      if IsHeaderLine(line) then m[ProcessHeaderLine(line).0 := ProcessHeaderLine(line).1] else m
  }

  /** The lines after the first empty line. */
  function BodyLines(ls: seq<string>): seq<string>
  {
    var n := FirstBlank(ls);
    if n < |ls| then ls[n + 1..|ls|] else []
  }

  /** What reading the lines `ls` yields: request line and headers from the
      lines before the first empty line, the body from the lines after it,
      concatenated and stripped of trailing NUL characters. */
  function ParsedLines(ls: seq<string>): Result<HttpRequest>
  {
    var head := ls[..FirstBlank(ls)];
    match RequestLineOf(head)
    case Err(e) => Err(e)
    case Ok(rl) =>
      Ok(HttpRequest(rl.httpMethod, rl.version, rl.resource, HeadersOf(head), TrimEndNul(Concat(BodyLines(ls)))))
  }

  /** What parsing `req` yields: the result of reading its lines. */
  function Parsed(req: string): Result<HttpRequest>
  {
    ParsedLines(Lines(req))
  }

  /** `From<String> for HttpRequest`: split the text into lines and read them. */
  method Parse(req: string) returns (r: Result<HttpRequest>)
    ensures r == Parsed(req)
  {
    var ls := Lines(req);
    r := ReadLines(ls);
  }

  /** The loop of `From<String> for HttpRequest`: one pass over the lines
      with an `in_body` flag; a malformed request line ends the pass with an
      error. */
  method ReadLines(ls: seq<string>) returns (r: Result<HttpRequest>)
    ensures r == ParsedLines(ls)
  {
    ghost var fb := FirstBlank(ls);
    var parsedMethod := Method.Uninitialized;
    var parsedVersion := V1_1;
    var parsedResource := Path("");
    var parsedHeaders: map<string, string> := map[];
    var parsedMsgBody := "";
    var inBody := false;
    var i := 0;
    while i < |ls|
      invariant 0 <= i <= |ls|
      invariant inBody <==> fb < i
      invariant var head := if inBody then fb else i;
        RequestLineOf(ls[..head]) == Ok(RequestLine(parsedMethod, parsedResource, parsedVersion))
        && parsedHeaders == HeadersOf(ls[..head])
      invariant !inBody ==> parsedMsgBody == ""
      invariant inBody ==> parsedMsgBody == Concat(ls[fb + 1..i])
    {
      var line := ls[i];
      if !inBody {
        FirstBlankAt(ls, i);
        if HasSubstring(line, "HTTP") {
          var rl := ProcessReqLine(line);
          if rl.Err? {
            ReadHeadLine(ls, i);
            RequestLineErrSticks(ls, i + 1, fb);
            return Err(rl.error);
          }
          ReadRequestLine(ls, i);
          parsedMethod, parsedResource, parsedVersion := rl.value.httpMethod, rl.value.resource, rl.value.version;
        } else if ':' in line {
          ReadHeaderLine(ls, i);
          var (key, value) := ProcessHeaderLine(line);
          parsedHeaders := parsedHeaders[key := value];
        } else if line == "" {
          assert Concat(ls[i + 1..i + 1]) == "" by { assert ls[i + 1..i + 1] == []; }
          inBody := true;
        } else {
          ReadOtherLine(ls, i);
        }
      } else {
        ConcatSliceSnoc(ls, fb + 1, i);
        parsedMsgBody := parsedMsgBody + line;
      }
      i := i + 1;
    }
    r := Ok(HttpRequest(parsedMethod, parsedVersion, parsedResource, parsedHeaders, TrimEndNul(parsedMsgBody)));
  }

  /** Reading head line `i` after the lines before it. */
  lemma ReadHeadLine(ls: seq<string>, i: nat)
    requires i < |ls|
    ensures RequestLineOf(ls[..i + 1]) ==
      var prev := RequestLineOf(ls[..i]);
      if prev.Err? || !IsRequestLine(ls[i]) then prev else ProcessReqLine(ls[i])
    ensures HeadersOf(ls[..i + 1]) ==
      if IsHeaderLine(ls[i]) then HeadersOf(ls[..i])[ProcessHeaderLine(ls[i]).0 := ProcessHeaderLine(ls[i]).1]
      else HeadersOf(ls[..i])
  {
    assert ls[..i + 1][..i] == ls[..i];
  }

  /** Reading a request line into a head without a malformed one. */
  lemma ReadRequestLine(ls: seq<string>, i: nat)
    requires i < |ls| && IsRequestLine(ls[i]) && RequestLineOf(ls[..i]).Ok?
    ensures RequestLineOf(ls[..i + 1]) == ProcessReqLine(ls[i])
    ensures HeadersOf(ls[..i + 1]) == HeadersOf(ls[..i])
  {
    ReadHeadLine(ls, i);
  }

  /** Reading a header line. */
  lemma ReadHeaderLine(ls: seq<string>, i: nat)
    requires i < |ls| && IsHeaderLine(ls[i])
    ensures RequestLineOf(ls[..i + 1]) == RequestLineOf(ls[..i])
    ensures HeadersOf(ls[..i + 1]) == HeadersOf(ls[..i])[ProcessHeaderLine(ls[i]).0 := ProcessHeaderLine(ls[i]).1]
  {
    ReadHeadLine(ls, i);
  }

  /** Reading a line that is neither a request line nor a header line. */
  lemma ReadOtherLine(ls: seq<string>, i: nat)
    requires i < |ls| && !IsRequestLine(ls[i]) && ':' !in ls[i]
    ensures RequestLineOf(ls[..i + 1]) == RequestLineOf(ls[..i])
    ensures HeadersOf(ls[..i + 1]) == HeadersOf(ls[..i])
  {
    ReadHeadLine(ls, i);
  }

  /** Once a malformed request line has been read, reading further lines
      keeps the error. */
  lemma {:induction false} RequestLineErrSticks(ls: seq<string>, i: nat, j: nat)
    requires i <= j <= |ls|
    requires RequestLineOf(ls[..i]).Err?
    ensures RequestLineOf(ls[..j]) == RequestLineOf(ls[..i])
    decreases j
  {
    if j > i {
      RequestLineErrSticks(ls, i, j - 1);
      assert ls[..j][..j - 1] == ls[..j - 1];
    }
  }

  // ----- properties of the parse -----

  /** Reading fails exactly when the head holds a malformed request line,
      and the error names the first one. */
  lemma {:induction false} RequestLineOfFails(head: seq<string>)
    ensures RequestLineOf(head).Err? <==> exists j :: 0 <= j < |head| && IsMalformed(head[j])
    ensures RequestLineOf(head).Err? ==>
      exists j :: 0 <= j < |head| && IsMalformed(head[j])
        && RequestLineOf(head).error == MalformedRequestLine(head[j])
        && forall k :: 0 <= k < j ==> !IsMalformed(head[k])
  {
    if head != [] {
      var p := head[..|head| - 1];
      RequestLineOfFails(p);
      assert forall j :: 0 <= j < |p| ==> p[j] == head[j];
    }
  }

  /** Without a malformed request line, reading the head succeeds, and
      yields the defaults (method `Uninitialized`, version 1.1, empty path)
      when no request line is present. */
  lemma {:induction false} RequestLineOfDefaults(head: seq<string>)
    requires forall j :: 0 <= j < |head| ==> !IsMalformed(head[j])
    ensures RequestLineOf(head).Ok?
    ensures (forall j :: 0 <= j < |head| ==> !IsRequestLine(head[j])) ==>
      RequestLineOf(head).value == RequestLine(Method.Uninitialized, Path(""), V1_1)
  {
    if head != [] {
      var p := head[..|head| - 1];
      assert forall j :: 0 <= j < |p| ==> p[j] == head[j];
      RequestLineOfDefaults(p);
    }
  }

  /** Without a malformed request line, the fields are those of the LAST
      request line: a later request line overrides an earlier one. */
  lemma {:induction false} RequestLineOfLatest(head: seq<string>, j: nat)
    requires forall i :: 0 <= i < |head| ==> !IsMalformed(head[i])
    requires j < |head| && IsRequestLine(head[j])
    requires forall k :: j < k < |head| ==> !IsRequestLine(head[k])
    ensures RequestLineOf(head) == ProcessReqLine(head[j])
  {
    var n := |head| - 1;
    var p := head[..n];
    assert forall i :: 0 <= i < |p| ==> p[i] == head[i];
    RequestLineOfDefaults(p);
    if j < n {
      assert !IsRequestLine(head[n]);
      RequestLineOfLatest(p, j);
    }
  }

  /** No header line after line `j` of `head` has the key of line `j`. */
  predicate IsLastWithKey(head: seq<string>, j: nat)
    requires j < |head|
  {
    forall l :: j < l < |head| && IsHeaderLine(head[l]) ==> ProcessHeaderLine(head[l]).0 != ProcessHeaderLine(head[j]).0
  }

  /** `line` is a header line with key `k`. */
  predicate HasHeaderKey(line: string, k: string)
  {
    IsHeaderLine(line) && ProcessHeaderLine(line).0 == k
  }

  /** The header map has a key exactly when some header line has it. */
  lemma {:induction false} HeadersOfKeys(head: seq<string>, k: string)
    ensures k in HeadersOf(head) <==> exists j :: 0 <= j < |head| && HasHeaderKey(head[j], k)
  {
    if head != [] {
      var n := |head| - 1;
      var p := head[..n];
      if HasHeaderKey(head[n], k) {
        assert k in HeadersOf(head);
      } else {
        HeadersOfKeys(p, k);
        assert k in HeadersOf(head) <==> k in HeadersOf(p);
        assert forall j :: 0 <= j < n ==> p[j] == head[j];
      }
    }
  }

  /** For duplicate keys the last header line wins: the value of a key is
      the value on the last header line that has it. */
  lemma {:induction false} HeadersOfLastWins(head: seq<string>, j: nat)
    requires j < |head| && IsHeaderLine(head[j]) && IsLastWithKey(head, j)
    ensures ProcessHeaderLine(head[j]).0 in HeadersOf(head)
    ensures HeadersOf(head)[ProcessHeaderLine(head[j]).0] == ProcessHeaderLine(head[j]).1
  {
    var n := |head| - 1;
    if j < n {
      var p := head[..n];
      assert p[j] == head[j];
      assert IsLastWithKey(p, j) by {
        forall l | j < l < |p| && IsHeaderLine(p[l])
          ensures ProcessHeaderLine(p[l]).0 != ProcessHeaderLine(p[j]).0
        {
          assert p[l] == head[l];
        }
      }
      HeadersOfLastWins(p, j);
    }
  }

  /** The body holds no line terminator and does not end in NUL. */
  lemma ParsedBodyShape(req: string)
    requires Parsed(req).Ok?
    ensures '\n' !in Parsed(req).value.msgBody
    ensures Parsed(req).value.msgBody == [] || Parsed(req).value.msgBody[|Parsed(req).value.msgBody| - 1] != '\0'
  {
    var ls := Lines(req);
    var bl := BodyLines(ls);
    LinesHaveNoNewline(req);
    assert forall j :: 0 <= j < |bl| ==> '\n' !in bl[j] by {
      var n := FirstBlank(ls);
      if n < |ls| {
        assert forall j :: 0 <= j < |bl| ==> bl[j] == ls[n + 1 + j];
      }
    }
    ConcatWithout(bl, '\n');
    TrimEndNulRemovesNul(Concat(bl));
  }

  /** The first empty line of `head + [""] + tail` is the one after `head`
      when every line of `head` is non-empty. */
  lemma {:induction false} FirstBlankAfter(head: seq<string>, tail: seq<string>)
    requires forall j :: 0 <= j < |head| ==> head[j] != ""
    ensures FirstBlank(head + [""] + tail) == |head|
  {
    if head != [] {
      assert (head + [""] + tail)[1..] == head[1..] + [""] + tail;
      FirstBlankAfter(head[1..], tail);
    }
  }

  /** The lines of a head of "\r\n"-terminated lines, an empty line and a body. */
  lemma MessageLines(head: seq<string>, body: string)
    requires forall j :: 0 <= j < |head| ==> '\n' !in head[j]
    requires '\n' !in body
    ensures Lines(JoinCRLF(head + [""]) + body) == head + [""] + (if body == [] then [] else [body])
  {
    var lines := head + [""];
    assert forall j :: 0 <= j < |lines| ==> '\n' !in lines[j];
    LinesJoinCRLF(lines, body);
    LinesSingle(body);
  }

  /** A message in the wire grammar, a head of non-empty lines, an empty
      line and a body, all lines ended by "\r\n", parses to the request
      line and headers of the head and the body with trailing NULs removed. */
  lemma ParseWellFormed(head: seq<string>, body: string)
    requires forall j :: 0 <= j < |head| ==> head[j] != "" && '\n' !in head[j] && !IsMalformed(head[j])
    requires '\n' !in body
    ensures RequestLineOf(head).Ok?
    ensures Parsed(JoinCRLF(head + [""]) + body) ==
      Ok(HttpRequest(RequestLineOf(head).value.httpMethod, RequestLineOf(head).value.version,
        RequestLineOf(head).value.resource, HeadersOf(head), TrimEndNul(body)))
  {
    var tail: seq<string> := if body == [] then [] else [body];
    MessageLines(head, body);
    var ls := head + [""] + tail;
    FirstBlankAfter(head, tail);
    AroundSeparator(head, "", tail);
    assert Concat(tail) == body by {
      if body != [] {
        assert Concat([body]) == Concat([]) + body;
      }
    }
    RequestLineOfDefaults(head);
  }

  // ----- the parser's own test case -----

  /** Reading one more head line into the header map. */
  lemma HeadersSnoc(h: seq<string>, l: string)
    ensures HeadersOf(h + [l]) ==
      if IsHeaderLine(l) then HeadersOf(h)[ProcessHeaderLine(l).0 := ProcessHeaderLine(l).1] else HeadersOf(h)
  {
    var s := h + [l];
    assert s[..|s| - 1] == h;
    assert s[|s| - 1] == l;
  }

  /** Header lines read after a line that is not a header line give the
      map of their entries. */
  lemma {:induction false} HeadersOfHeaderLines(head: seq<string>, kvs: seq<(string, string)>)
    requires |head| == |kvs| + 1 && !IsHeaderLine(head[0])
    requires forall j :: 1 <= j < |head| ==> IsHeaderLine(head[j]) && ProcessHeaderLine(head[j]) == kvs[j - 1]
    ensures HeadersOf(head) == ToMap(kvs)
  {
    var p := head[..|head| - 1];
    if kvs == [] {
      assert p == [];
    } else {
      assert forall j :: 0 <= j < |p| ==> p[j] == head[j];
      HeadersOfHeaderLines(p, kvs[..|kvs| - 1]);
    }
  }

  /** A request line followed by three header lines is a head `Parse` reads
      through without error, and its only request line is the first. */
  lemma FourLineHeadWellFormed(l0: string, l1: string, l2: string, l3: string)
    requires l0 != "" && '\n' !in l0 && IsRequestLine(l0) && ProcessReqLine(l0).Ok?
    requires l1 != "" && '\n' !in l1 && IsHeaderLine(l1)
    requires l2 != "" && '\n' !in l2 && IsHeaderLine(l2)
    requires l3 != "" && '\n' !in l3 && IsHeaderLine(l3)
    ensures forall j :: 0 <= j < 4 ==>
      [l0, l1, l2, l3][j] != "" && '\n' !in [l0, l1, l2, l3][j] && !IsMalformed([l0, l1, l2, l3][j])
    ensures forall j :: 0 < j < 4 ==> !IsRequestLine([l0, l1, l2, l3][j])
  {
    assert |Words(l0)| >= 3;
  }

  /** The header map of a line that is not a header line followed by three
      header lines. */
  lemma FourLineHeaders(head: seq<string>, kvs: seq<(string, string)>)
    requires |head| == 4 && |kvs| == 3 && !IsHeaderLine(head[0])
    requires IsHeaderLine(head[1]) && ProcessHeaderLine(head[1]) == kvs[0]
    requires IsHeaderLine(head[2]) && ProcessHeaderLine(head[2]) == kvs[1]
    requires IsHeaderLine(head[3]) && ProcessHeaderLine(head[3]) == kvs[2]
    ensures HeadersOf(head) == ToMap(kvs)
  {
    HeadersOfHeaderLines(head, kvs);
  }

  /** `ParseWellFormed` for a head of a request line and three header lines. */
  lemma ParseFourLineHead(l0: string, l1: string, l2: string, l3: string, body: string,
                          rl: RequestLine, kvs: seq<(string, string)>)
    requires l0 != "" && '\n' !in l0 && IsRequestLine(l0) && ProcessReqLine(l0) == Ok(rl)
    requires |kvs| == 3
    requires l1 != "" && '\n' !in l1 && IsHeaderLine(l1) && ProcessHeaderLine(l1) == kvs[0]
    requires l2 != "" && '\n' !in l2 && IsHeaderLine(l2) && ProcessHeaderLine(l2) == kvs[1]
    requires l3 != "" && '\n' !in l3 && IsHeaderLine(l3) && ProcessHeaderLine(l3) == kvs[2]
    requires '\n' !in body
    ensures Parsed(JoinCRLF([l0, l1, l2, l3] + [""]) + body) ==
      Ok(HttpRequest(rl.httpMethod, rl.version, rl.resource, ToMap(kvs), TrimEndNul(body)))
  {
    var head := [l0, l1, l2, l3];
    FourLineHeadWellFormed(l0, l1, l2, l3);
    RequestLineOfLatest(head, 0);
    FourLineHeaders(head, kvs);
    ParseWellFormed(head, body);
  }

  /** A line with a ':' that lacks one of the letters of "HTTP" is a header line. */
  lemma HeaderLineIs(k: string, v: string, more: string, c: char)
    requires '\n' !in k + v + more
    requires c in "HTTP" && c !in k + v + more
    ensures k + ":" + v + more != "" && '\n' !in k + ":" + v + more
    ensures IsHeaderLine(k + ":" + v + more)
  {
    var l := k + ":" + v + more;
    assert l[|k|] == ':';
    assert forall i :: 0 <= i < |l| ==> l[i] == ':' || l[i] in k + v + more;
    NoSubstringWithoutChar(l, "HTTP", c);
  }

  // The lines of the `test_read_http` request, one fact per lemma.

  lemma ExampleRequestLineKind()
    ensures "GET /greeting HTTP/1.1" != "" && '\n' !in "GET /greeting HTTP/1.1"
    ensures IsRequestLine("GET /greeting HTTP/1.1")
  {
    assert OccursAt("GET /greeting HTTP/1.1", "HTTP", 14);
    HasSubstringOccurs("GET /greeting HTTP/1.1", "HTTP");
  }

  lemma ExampleRequestLineFields()
    ensures ProcessReqLine("GET /greeting HTTP/1.1") == Ok(RequestLine(Get, Path("/greeting"), V1_1))
  {
    var ws := ["GET", "/greeting", "HTTP/1.1"];
    assert "GET /greeting HTTP/1.1" == Unwords(ws);
    ProcessReqLineOfWords(ws);
  }

  lemma ExampleHostKind()
    ensures "Host: localhost:3000" != "" && '\n' !in "Host: localhost:3000"
    ensures IsHeaderLine("Host: localhost:3000")
  {
    assert "Host: localhost:3000" == "Host" + ":" + " localhost" + ":3000";
    HeaderLineIs("Host", " localhost", ":3000", 'T');
  }

  lemma ExampleAgentKind()
    ensures "User-Agent: curl/7.64.1" != "" && '\n' !in "User-Agent: curl/7.64.1"
    ensures IsHeaderLine("User-Agent: curl/7.64.1")
  {
    assert "User-Agent: curl/7.64.1" == "User-Agent" + ":" + " curl/7.64.1" + "";
    HeaderLineIs("User-Agent", " curl/7.64.1", "", 'H');
  }

  lemma ExampleAcceptKind()
    ensures "Accept: */*" != "" && '\n' !in "Accept: */*"
    ensures IsHeaderLine("Accept: */*")
  {
    assert "Accept: */*" == "Accept" + ":" + " */*" + "";
    HeaderLineIs("Accept", " */*", "", 'H');
  }

  lemma ExampleHostFields()
    ensures ProcessHeaderLine("Host: localhost:3000") == ("Host", TrimStart(" localhost"))
  {
    assert "Host: localhost:3000" == "Host" + ":" + " localhost" + ":" + "3000";
    HeaderLineSplitMore("Host", " localhost", "3000");
  }

  lemma ExampleAgentFields()
    ensures ProcessHeaderLine("User-Agent: curl/7.64.1") == ("User-Agent", TrimStart(" curl/7.64.1"))
  {
    assert "User-Agent: curl/7.64.1" == "User-Agent" + ":" + " curl/7.64.1";
    HeaderLineSplit("User-Agent", " curl/7.64.1");
  }

  lemma ExampleAcceptFields()
    ensures ProcessHeaderLine("Accept: */*") == ("Accept", TrimStart(" */*"))
  {
    assert "Accept: */*" == "Accept" + ":" + " */*";
    HeaderLineSplit("Accept", " */*");
  }

  lemma ExampleHostValue()
    ensures TrimStart(" localhost") == "localhost"
  {
    TrimStartSpace(" localhost");
  }

  lemma ExampleAgentValue()
    ensures TrimStart(" curl/7.64.1") == "curl/7.64.1"
  {
    TrimStartSpace(" curl/7.64.1");
  }

  lemma ExampleAcceptValue()
    ensures TrimStart(" */*") == "*/*"
  {
    TrimStartSpace(" */*");
  }

  lemma ExampleHostHeader()
    ensures ProcessHeaderLine("Host: localhost:3000") == ("Host", "localhost")
  {
    ExampleHostFields(); ExampleHostValue();
  }

  lemma ExampleAgentHeader()
    ensures ProcessHeaderLine("User-Agent: curl/7.64.1") == ("User-Agent", "curl/7.64.1")
  {
    ExampleAgentFields(); ExampleAgentValue();
  }

  lemma ExampleAcceptHeader()
    ensures ProcessHeaderLine("Accept: */*") == ("Accept", "*/*")
  {
    ExampleAcceptFields(); ExampleAcceptValue();
  }

  lemma ExampleHeaderMap()
    ensures ToMap([("Host", "localhost"), ("User-Agent", "curl/7.64.1"), ("Accept", "*/*")])
      == map["Host" := "localhost", "User-Agent" := "curl/7.64.1", "Accept" := "*/*"]
  {
    var h0 := [("Host", "localhost")];
    var h1 := h0 + [("User-Agent", "curl/7.64.1")];
    var h2 := h1 + [("Accept", "*/*")];
    assert h0 == [] + [("Host", "localhost")];
    ToMapSnoc([], ("Host", "localhost"));
    ToMapSnoc(h0, ("User-Agent", "curl/7.64.1"));
    ToMapSnoc(h1, ("Accept", "*/*"));
    assert h2 == [("Host", "localhost"), ("User-Agent", "curl/7.64.1"), ("Accept", "*/*")];
  }

  lemma ExampleBody()
    ensures '\n' !in "testbody123" && TrimEndNul("testbody123") == "testbody123"
  {
  }

  /** The `test_read_http` case: method GET, version 1.1, path "/greeting",
      "localhost:3000" cut at its colon, and the body after the blank line. */
  lemma ReadHttpExample()
    ensures Parsed(JoinCRLF(["GET /greeting HTTP/1.1", "Host: localhost:3000", "User-Agent: curl/7.64.1", "Accept: */*"] + [""]) + "testbody123")
      == Ok(HttpRequest(Get, V1_1, Path("/greeting"),
              map["Host" := "localhost", "User-Agent" := "curl/7.64.1", "Accept" := "*/*"],
              "testbody123"))
  {
    ExampleRequestLineKind();
    ExampleRequestLineFields();
    ExampleHostKind(); ExampleAgentKind(); ExampleAcceptKind();
    ExampleHostHeader(); ExampleAgentHeader(); ExampleAcceptHeader();
    ExampleBody();
    ExampleHeaderMap();
    ParseFourLineHead("GET /greeting HTTP/1.1", "Host: localhost:3000", "User-Agent: curl/7.64.1", "Accept: */*", "testbody123",
      RequestLine(Get, Path("/greeting"), V1_1),
      [("Host", "localhost"), ("User-Agent", "curl/7.64.1"), ("Accept", "*/*")]);
  }
}
