/** The response side of the toolkit (`src/response.rs`): the response
    record, its default, the constructors that fill it, and the conversion
    to the text sent on the wire. */
module Response {
  import opened Text

  // ----- data model -----

  /** No key occurs twice: a `HashMap` written out as a list of entries in
      its iteration order. */
  predicate DistinctKeys(h: seq<(string, string)>)
  {
    forall i, j :: 0 <= i < j < |h| ==> h[i].0 != h[j].0
  }

  type Headers = h: seq<(string, string)> | DistinctKeys(h)

  datatype HttpResponse = HttpResponse(
    version: string,
    statusCode: string,
    statusText: string,
    headers: Option<Headers>,
    body: Option<string>)

  /** `Default for HttpResponse`: version 1.1, "200 OK", no headers, no body. */
  const DefaultResponse := HttpResponse("HTTP/1.1", "200", "OK", None, None)

  /** The headers installed when a constructor is given none. */
  const DefaultHeaders: Headers := [("Content-Type", "text/plain")]

  /** With distinct keys the map holds exactly the entries of the list. */
  lemma {:induction false} ToMapEntries(h: Headers)
    ensures ToMap(h).Keys == set i | 0 <= i < |h| :: h[i].0
    ensures forall i :: 0 <= i < |h| ==> ToMap(h)[h[i].0] == h[i].1
  {
    if h != [] {
      var p := h[..|h| - 1];
      assert DistinctKeys(p);
      ToMapEntries(p);
      assert forall i :: 0 <= i < |p| ==> p[i] == h[i];
      assert forall i :: 0 <= i < |p| ==> h[i].0 != h[|h| - 1].0;
    }
  }

  // ----- construction -----

  /** What `new_from_status` returns: version 1.1, the given code, phrase
      and body, and the given headers or the default ones. */
  function Built(headers: Option<Headers>, body: Option<string>, statusCode: string, statusText: string): HttpResponse
  {
    HttpResponse("HTTP/1.1", statusCode, statusText, Some(if headers.Some? then headers.value else DefaultHeaders), body)
  }

  /** `new_from_status`: start from the default response and overwrite its
      fields one by one; the code is only assigned when it differs from the
      default "200", which leaves the same code either way. */
  method NewFromStatus(headers: Option<Headers>, body: Option<string>, statusCode: string, statusText: string)
    returns (r: HttpResponse)
    ensures r.version == "HTTP/1.1"
    ensures r.statusCode == statusCode && r.statusText == statusText && r.body == body
    ensures headers.Some? ==> r.headers == headers
    ensures headers.None? ==> r.headers == Some(DefaultHeaders)
    ensures r == Built(headers, body, statusCode, statusText)
  {
    r := DefaultResponse;
    if statusCode != "200" {
      r := r.(statusCode := statusCode);
    }
    match headers {
      case Some(_) =>
        r := r.(headers := headers);
      case None =>
        r := r.(headers := Some(DefaultHeaders));
    }
    r := r.(statusText := statusText);
    r := r.(body := body);
  }

  /** The phrase table of the deprecated constructor: four codes are known,
      any other code gets an empty phrase. */
  function LegacyReasonPhrase(statusCode: string): (phrase: string)
    ensures phrase == "" <==> statusCode !in {"200", "400", "404", "500"}
    ensures statusCode == "200" ==> phrase == "OK"
    ensures statusCode == "400" ==> phrase == "Bad Request"
    ensures statusCode == "404" ==> phrase == "Not Found"
    ensures statusCode == "500" ==> phrase == "Internal Server Error"
  {
    match statusCode
    case "200" => "OK"
    case "400" => "Bad Request"
    case "404" => "Not Found"
    case "500" => "Internal Server Error"
    case _ => ""
  }

  /** Deprecated `new`: like `new_from_status`, with the phrase looked up
      from the code after the code has been set. */
  method New(statusCode: string, headers: Option<Headers>, body: Option<string>) returns (r: HttpResponse)
    ensures r.version == "HTTP/1.1"
    ensures r.statusCode == statusCode && r.body == body
    ensures r.statusText == LegacyReasonPhrase(statusCode)
    ensures r == Built(headers, body, statusCode, LegacyReasonPhrase(statusCode))
  {
    r := DefaultResponse;
    if statusCode != "200" {
      r := r.(statusCode := statusCode);
    }
    match headers {
      case Some(_) =>
        r := r.(headers := headers);
      case None =>
        r := r.(headers := Some(DefaultHeaders));
    }
    r := r.(statusText := LegacyReasonPhrase(r.statusCode));
    r := r.(body := body);
  }

  // ----- the named constructors -----

  method Continue(headers: Option<Headers>, body: Option<string>) returns (r: HttpResponse)
    ensures r == Built(headers, body, "100", "Continue")
  {
    r := NewFromStatus(headers, body, "100", "Continue");
  }

  /** The phrase is "Switching Protocol", without the final 's' of the
      registered phrase. */
  method SwitchingProtocol(headers: Option<Headers>, body: Option<string>) returns (r: HttpResponse)
    ensures r == Built(headers, body, "101", "Switching Protocol")
  {
    r := NewFromStatus(headers, body, "101", "Switching Protocol");
  }

  method EarlyHints(headers: Option<Headers>, body: Option<string>) returns (r: HttpResponse)
    ensures r == Built(headers, body, "103", "Early Hints")
  {
    r := NewFromStatus(headers, body, "103", "Early Hints");
  }

  method Ok(headers: Option<Headers>, body: Option<string>) returns (r: HttpResponse)
    ensures r == Built(headers, body, "200", "OK")
  {
    r := NewFromStatus(headers, body, "200", "OK");
  }

  method Created(headers: Option<Headers>, body: Option<string>) returns (r: HttpResponse)
    ensures r == Built(headers, body, "201", "Created")
  {
    r := NewFromStatus(headers, body, "201", "Created");
  }

  method Accepted(headers: Option<Headers>, body: Option<string>) returns (r: HttpResponse)
    ensures r == Built(headers, body, "202", "Accepted")
  {
    r := NewFromStatus(headers, body, "202", "Accepted");
  }

  method NonAuthoritativeInformation(headers: Option<Headers>, body: Option<string>) returns (r: HttpResponse)
    ensures r == Built(headers, body, "203", "Non-Authoritative Information")
  {
    r := NewFromStatus(headers, body, "203", "Non-Authoritative Information");
  }

  method NoContent(headers: Option<Headers>, body: Option<string>) returns (r: HttpResponse)
    ensures r == Built(headers, body, "204", "No Content")
  {
    r := NewFromStatus(headers, body, "204", "No Content");
  }

  method ResetContent(headers: Option<Headers>, body: Option<string>) returns (r: HttpResponse)
    ensures r == Built(headers, body, "205", "Reset Content")
  {
    r := NewFromStatus(headers, body, "205", "Reset Content");
  }

  method PartialContent(headers: Option<Headers>, body: Option<string>) returns (r: HttpResponse)
    ensures r == Built(headers, body, "206", "Partial Content")
  {
    r := NewFromStatus(headers, body, "206", "Partial Content");
  }

  method Found(headers: Option<Headers>, body: Option<string>) returns (r: HttpResponse)
    ensures r == Built(headers, body, "302", "Found")
  {
    r := NewFromStatus(headers, body, "302", "Found");
  }

  method SeeOther(headers: Option<Headers>, body: Option<string>) returns (r: HttpResponse)
    ensures r == Built(headers, body, "303", "See Other")
  {
    r := NewFromStatus(headers, body, "303", "See Other");
  }

  method NotModified(headers: Option<Headers>, body: Option<string>) returns (r: HttpResponse)
    ensures r == Built(headers, body, "304", "Not Modified")
  {
    r := NewFromStatus(headers, body, "304", "Not Modified");
  }

  method TemporaryRedirect(headers: Option<Headers>, body: Option<string>) returns (r: HttpResponse)
    ensures r == Built(headers, body, "307", "Temporary Redirect")
  {
    r := NewFromStatus(headers, body, "307", "Temporary Redirect");
  }

  method PermanentRedirect(headers: Option<Headers>, body: Option<string>) returns (r: HttpResponse)
    ensures r == Built(headers, body, "308", "Permanent Redirect")
  {
    r := NewFromStatus(headers, body, "308", "Permanent Redirect");
  }

  method BadRequest(headers: Option<Headers>, body: Option<string>) returns (r: HttpResponse)
    ensures r == Built(headers, body, "400", "Bad Request")
  {
    r := NewFromStatus(headers, body, "400", "Bad Request");
  }

  method Unauthorized(headers: Option<Headers>, body: Option<string>) returns (r: HttpResponse)
    ensures r == Built(headers, body, "401", "Unauthorized")
  {
    r := NewFromStatus(headers, body, "401", "Unauthorized");
  }

  method Forbidden(headers: Option<Headers>, body: Option<string>) returns (r: HttpResponse)
    ensures r == Built(headers, body, "403", "Forbidden")
  {
    r := NewFromStatus(headers, body, "403", "Forbidden");
  }

  method NotFound(headers: Option<Headers>, body: Option<string>) returns (r: HttpResponse)
    ensures r == Built(headers, body, "404", "Not Found")
  {
    r := NewFromStatus(headers, body, "404", "Not Found");
  }

  method MethodNotAllowed(headers: Option<Headers>, body: Option<string>) returns (r: HttpResponse)
    ensures r == Built(headers, body, "405", "Method Not Allowed")
  {
    r := NewFromStatus(headers, body, "405", "Method Not Allowed");
  }

  method RequestTimeout(headers: Option<Headers>, body: Option<string>) returns (r: HttpResponse)
    ensures r == Built(headers, body, "408", "Request Timeout")
  {
    r := NewFromStatus(headers, body, "408", "Request Timeout");
  }

  method Gone(headers: Option<Headers>, body: Option<string>) returns (r: HttpResponse)
    ensures r == Built(headers, body, "410", "Gone")
  {
    r := NewFromStatus(headers, body, "410", "Gone");
  }

  method ImATeapot(headers: Option<Headers>, body: Option<string>) returns (r: HttpResponse)
    ensures r == Built(headers, body, "418", "I'm a teapot")
  {
    r := NewFromStatus(headers, body, "418", "I'm a teapot");
  }

  method InternalServerError(headers: Option<Headers>, body: Option<string>) returns (r: HttpResponse)
    ensures r == Built(headers, body, "500", "Internal Server Error")
  {
    r := NewFromStatus(headers, body, "500", "Internal Server Error");
  }

  /** For the four codes its table knows, the deprecated constructor builds
      the response of the matching named constructor. */
  lemma LegacyAgreesWithNamed(statusCode: string, headers: Option<Headers>, body: Option<string>)
    ensures statusCode == "200" ==> Built(headers, body, statusCode, LegacyReasonPhrase(statusCode)) == Built(headers, body, "200", "OK")
    ensures statusCode == "400" ==> Built(headers, body, statusCode, LegacyReasonPhrase(statusCode)) == Built(headers, body, "400", "Bad Request")
    ensures statusCode == "404" ==> Built(headers, body, statusCode, LegacyReasonPhrase(statusCode)) == Built(headers, body, "404", "Not Found")
    ensures statusCode == "500" ==> Built(headers, body, statusCode, LegacyReasonPhrase(statusCode)) == Built(headers, body, "500", "Internal Server Error")
  {
  }

  // ----- serialization -----

  /** `body()`: the stored body, or the empty text when there is none. */
  function BodyText(res: HttpResponse): (s: string)
    ensures res.body.Some? ==> s == res.body.value
    ensures res.body.None? ==> s == ""
  {
    match res.body
    case Some(b) => b
    case None => ""
  }

  /** One header line without its terminator: key, ':' and value, with no
      space after the colon. */
  function HeaderLine(kv: (string, string)): string
  {
    kv.0 + ":" + kv.1
  }

  /** The output of `headers()` for the entries `h` in iteration order. */
  function HeaderBlock(h: seq<(string, string)>): string
  {
    if h == [] then "" else HeaderBlock(h[..|h| - 1]) + HeaderLine(h[|h| - 1]) + "\r\n"
  }

  /** The header lines of `h`, in order. */
  function HeaderLines(h: seq<(string, string)>): (ls: seq<string>)
    ensures |ls| == |h|
    ensures forall i :: 0 <= i < |h| ==> ls[i] == HeaderLine(h[i])
  {
    if h == [] then [] else HeaderLines(h[..|h| - 1]) + [HeaderLine(h[|h| - 1])]
  }

  /** `JoinCRLF` appends one more line at the end. */
  lemma {:induction false} JoinCRLFSnoc(ls: seq<string>, l: string)
    ensures JoinCRLF(ls + [l]) == JoinCRLF(ls) + l + "\r\n"
  {
    if ls == [] {
      assert JoinCRLF([l]) == l + "\r\n" + JoinCRLF([]);
    } else {
      calc {
        JoinCRLF(ls + [l]);
        { assert (ls + [l])[0] == ls[0]; assert (ls + [l])[1..] == ls[1..] + [l]; }
        ls[0] + "\r\n" + JoinCRLF(ls[1..] + [l]);
        { JoinCRLFSnoc(ls[1..], l); }
        ls[0] + "\r\n" + (JoinCRLF(ls[1..]) + l + "\r\n");
        JoinCRLF(ls) + l + "\r\n";
      }
    }
  }

  /** The header block is the header lines, each ended by "\r\n". */
  lemma {:induction false} HeaderBlockLines(h: seq<(string, string)>)
    ensures HeaderBlock(h) == JoinCRLF(HeaderLines(h))
  {
    if h != [] {
      HeaderBlockLines(h[..|h| - 1]);
      JoinCRLFSnoc(HeaderLines(h[..|h| - 1]), HeaderLine(h[|h| - 1]));
    }
  }

  /** `headers()`: the loop that appends "k:v\r\n" for each entry. */
  method RenderHeaders(res: HttpResponse) returns (s: string)
    requires res.headers.Some?
    ensures s == HeaderBlock(res.headers.value)
  {
    var h := res.headers.value;
    s := "";
    var i := 0;
    while i < |h|
      invariant 0 <= i <= |h|
      invariant s == HeaderBlock(h[..i])
    {
      var (k, v) := h[i];
      assert h[..i + 1][..i] == h[..i];
      s := s + k + ":" + v + "\r\n";
      i := i + 1;
    }
    assert h[..i] == h;
  }

  /** The status line without its terminator. */
  function StatusLine(res: HttpResponse): string
  {
    res.version + " " + res.statusCode + " " + res.statusText
  }

  /** The Content-Length line without its terminator: the UTF-8 byte length
      of the body in decimal. */
  function ContentLengthLine(res: HttpResponse): string
  {
    "Content-Length: " + Dec(Utf8Len(BodyText(res)))
  }

  /** `From<HttpResponse> for String`: status line, header lines, the
      Content-Length line, an empty line, then the body. */
  function Wire(res: HttpResponse): string
    requires res.headers.Some?
  {
    StatusLine(res) + "\r\n" + HeaderBlock(res.headers.value) + ContentLengthLine(res) + "\r\n\r\n" + BodyText(res)
  }

  method Serialize(res: HttpResponse) returns (s: string)
    requires res.headers.Some?
    ensures s == Wire(res)
  {
    var headerText := RenderHeaders(res);
    var len := Utf8Len(BodyText(res));
    s := res.version + " " + res.statusCode + " " + res.statusText + "\r\n" + headerText
      + "Content-Length: " + Dec(len) + "\r\n\r\n" + BodyText(res);
  }

  /** The serialized text is its lines, each ended by "\r\n", followed by the body. */
  lemma WireLayout(res: HttpResponse)
    requires res.headers.Some?
    ensures Wire(res) ==
      JoinCRLF([StatusLine(res)] + HeaderLines(res.headers.value) + [ContentLengthLine(res), ""]) + BodyText(res)
  {
    var h := res.headers.value;
    var hl := HeaderLines(h);
    HeaderBlockLines(h);
    JoinCRLFSnoc([StatusLine(res)] + hl, ContentLengthLine(res));
    JoinCRLFSnoc([StatusLine(res)] + hl + [ContentLengthLine(res)], "");
    assert JoinCRLF([StatusLine(res)] + hl) == StatusLine(res) + "\r\n" + JoinCRLF(hl) by {
      assert ([StatusLine(res)] + hl)[1..] == hl;
    }
    assert [StatusLine(res)] + hl + [ContentLengthLine(res)] + [""] == [StatusLine(res)] + hl + [ContentLengthLine(res), ""];
  }

  /** The Content-Length value read as a decimal number is the number of
      bytes of the UTF-8 encoded body. */
  lemma ContentLengthCountsBytes(res: HttpResponse)
    ensures DecValue(Dec(Utf8Len(BodyText(res)))) == |Utf8Encode(BodyText(res))|
  {
    DecRoundTrip(Utf8Len(BodyText(res)));
    Utf8LenIsEncodedLength(BodyText(res));
  }

  /** For an ASCII body the Content-Length is its number of characters, and
      only for one. */
  lemma ContentLengthAscii(res: HttpResponse)
    ensures Utf8Len(BodyText(res)) >= |BodyText(res)|
    ensures Utf8Len(BodyText(res)) == |BodyText(res)| <==>
      forall i :: 0 <= i < |BodyText(res)| ==> (BodyText(res)[i] as int) < 0x80
  {
    Utf8LenAscii(BodyText(res));
  }

  /** A response without a body announces a Content-Length of 0. */
  lemma ContentLengthNoBody(res: HttpResponse)
    requires res.body.None?
    ensures ContentLengthLine(res) == "Content-Length: 0"
  {
    assert Utf8Len(BodyText(res)) == 0;
    assert Dec(0) == "0";
  }

  // ----- the module's own test cases -----

  /** The `test_response_struct_creation_200` case. */
  method ResponseStructCreation200() returns (r: HttpResponse)
    ensures r == HttpResponse("HTTP/1.1", "200", "OK", Some([("Content-Type", "text/plain")]), Some("Item was shipped on 21st Dec 2020"))
  {
    r := New("200", None, Some("Item was shipped on 21st Dec 2020"));
  }

  /** The `test_response_struct_creation_404` case. */
  method ResponseStructCreation404() returns (r: HttpResponse)
    ensures r == HttpResponse("HTTP/1.1", "404", "Not Found", Some([("Content-Type", "text/plain")]), Some("Item was shipped on 21st Dec 2020"))
  {
    r := New("404", None, Some("Item was shipped on 21st Dec 2020"));
  }

  lemma ExampleBodyLength()
    ensures Utf8Len("Item was shipped on 21st Dec 2020") == 33
  {
    var s := "Item was shipped on 21st Dec 2020";
    assert |s| == 33;
    assert forall i :: 0 <= i < |s| ==> (s[i] as int) < 0x80;
    Utf8LenAscii(s);
  }

  lemma ExampleStatusLine()
    ensures StatusLine(HttpResponse("HTTP/1.1", "404", "Not Found", Some([("Content-Type", "text/html")]), Some("Item was shipped on 21st Dec 2020"))) + "\r\n"
      == "HTTP/1.1 404 Not Found\r\n"
  {
  }

  lemma ExampleHeaderBlock()
    ensures HeaderBlock([("Content-Type", "text/html")]) == "Content-Type:text/html\r\n"
  {
    assert [("Content-Type", "text/html")][..0] == [];
  }

  lemma ExampleLengthLine()
    ensures ContentLengthLine(HttpResponse("HTTP/1.1", "404", "Not Found", Some([("Content-Type", "text/html")]), Some("Item was shipped on 21st Dec 2020"))) + "\r\n\r\n"
      == "Content-Length: 33\r\n\r\n"
  {
    ExampleBodyLength();
    assert Dec(33) == "33";
  }

  /** The `test_http_response_creation` case: a 404 response with one header
      and a 33-byte body, written out line by line. */
  lemma HttpResponseCreation()
    ensures Wire(HttpResponse("HTTP/1.1", "404", "Not Found", Some([("Content-Type", "text/html")]), Some("Item was shipped on 21st Dec 2020")))
      == "HTTP/1.1 404 Not Found\r\n" + "Content-Type:text/html\r\n" + "Content-Length: 33\r\n\r\n" + "Item was shipped on 21st Dec 2020"
  {
    var res := HttpResponse("HTTP/1.1", "404", "Not Found", Some([("Content-Type", "text/html")]), Some("Item was shipped on 21st Dec 2020"));
    ExampleStatusLine();
    ExampleHeaderBlock();
    ExampleLengthLine();
    calc {
      Wire(res);
      StatusLine(res) + "\r\n" + HeaderBlock(res.headers.value) + ContentLengthLine(res) + "\r\n\r\n" + BodyText(res);
      (StatusLine(res) + "\r\n") + HeaderBlock(res.headers.value) + (ContentLengthLine(res) + "\r\n\r\n") + BodyText(res);
    }
  }
}
