/** What the request parser of `src/request.rs` makes of the text that the
    serializer of `src/response.rs` produces. The status line mentions
    "HTTP", so the parser takes it for a request line; the header lines and
    the Content-Length line come back as headers and the body as the body. */
module ReadBack {
  import opened Text
  import opened Request
  import Response

  /** A header entry that survives being written and parsed again: no ':'
      in key or value, no line break, a value that does not start with
      whitespace, and no "HTTP" in the written line. */
  predicate ReadsBack(kv: (string, string))
  {
    && ':' !in kv.0 && ':' !in kv.1
    && '\n' !in kv.0 && '\n' !in kv.1
    && (kv.1 == [] || !IsWhitespace(kv.1[0]))
    && !IsRequestLine(Response.HeaderLine(kv))
  }

  /** A status line of a version, a code word and a phrase with at least
      one word splits into the version, the code and the phrase's words. */
  lemma StatusLineWords(version: string, code: string, text: string)
    requires IsWord(version) && IsWord(code)
    ensures Words(version + " " + code + " " + text) == [version, code] + Words(text)
  {
    var tail := " " + text;
    var rest := " " + (code + tail);
    assert rest[0] == ' ' && tail[0] == ' ';
    calc {
      Words(version + " " + code + " " + text);
      { assert version + " " + code + " " + text == version + rest; }
      Words(version + rest);
      { WordsCons(version, rest); }
      [version] + Words(rest);
      { WordsSkipSpace(code + tail); }
      [version] + Words(code + tail);
      { WordsCons(code, tail); }
      [version] + ([code] + Words(tail));
      { WordsSkipSpace(text); }
      [version] + ([code] + Words(text));
      [version, code] + Words(text);
    }
  }

  /** A written header entry is parsed back to itself. */
  lemma HeaderEntryReadsBack(kv: (string, string))
    requires ReadsBack(kv)
    ensures IsHeaderLine(Response.HeaderLine(kv))
    ensures ProcessHeaderLine(Response.HeaderLine(kv)) == kv
  {
    var l := Response.HeaderLine(kv);
    assert l[|kv.0|] == ':';
    HeaderLineSplit(kv.0, kv.1);
  }

  /** Each written header line after `first` reads back as its entry. */
  lemma HeaderLinesEntries(first: string, h: seq<(string, string)>)
    requires forall i :: 0 <= i < |h| ==> ReadsBack(h[i])
    ensures forall j :: 1 <= j < |[first] + Response.HeaderLines(h)| ==>
      IsHeaderLine(([first] + Response.HeaderLines(h))[j]) && ProcessHeaderLine(([first] + Response.HeaderLines(h))[j]) == h[j - 1]
  {
    var head := [first] + Response.HeaderLines(h);
    forall j | 1 <= j < |head|
      ensures IsHeaderLine(head[j]) && ProcessHeaderLine(head[j]) == h[j - 1]
    {
      assert head[j] == Response.HeaderLine(h[j - 1]);
      HeaderEntryReadsBack(h[j - 1]);
    }
  }

  /** The header lines, read after a line that is not a header line, give
      the map of the entries. */
  lemma HeaderLinesReadBack(first: string, h: seq<(string, string)>)
    requires !IsHeaderLine(first)
    requires forall i :: 0 <= i < |h| ==> ReadsBack(h[i])
    ensures HeadersOf([first] + Response.HeaderLines(h)) == ToMap(h)
  {
    HeaderLinesEntries(first, h);
    HeadersOfHeaderLines([first] + Response.HeaderLines(h), h);
  }

  /** The Content-Length line as a key, a ':' and a value. */
  lemma ContentLengthSplit(d: string)
    ensures "Content-Length: " + d == "Content-Length" + ":" + (" " + d)
  {
  }

  /** The Content-Length line is a header line without line break. */
  lemma ContentLengthIsHeader(n: nat)
    ensures "Content-Length: " + Dec(n) != "" && '\n' !in "Content-Length: " + Dec(n)
    ensures IsHeaderLine("Content-Length: " + Dec(n))
  {
    var d := Dec(n);
    assert forall i :: 0 <= i < |d| ==> d[i] != 'H' && d[i] != '\n';
    ContentLengthSplit(d);
    assert "Content-Length" + ":" + (" " + d) == "Content-Length" + ":" + (" " + d) + "";
    HeaderLineIs("Content-Length", " " + d, "", 'H');
  }

  /** The Content-Length line carries the decimal length as its value. */
  lemma ContentLengthValue(n: nat)
    ensures ProcessHeaderLine("Content-Length: " + Dec(n)) == ("Content-Length", Dec(n))
  {
    var d := Dec(n);
    ContentLengthSplit(d);
    HeaderLineSplit("Content-Length", " " + d);
    TrimStartSpace(" " + d);
    assert (" " + d)[1..] == d;
  }

  /** The status line is taken for a request line: the version is read
      as the method, the code as the path and the phrase's first word as
      the version. */
  lemma StatusLineParses(res: Response.HttpResponse)
    requires res.version == "HTTP/1.1"
    requires IsWord(res.statusCode) && |Words(res.statusText)| > 0 && '\n' !in res.statusText
    ensures Response.StatusLine(res) != "" && '\n' !in Response.StatusLine(res)
    ensures IsRequestLine(Response.StatusLine(res)) && !IsMalformed(Response.StatusLine(res))
    ensures ProcessReqLine(Response.StatusLine(res)) ==
      Ok(RequestLine(Method.Uninitialized, Path(res.statusCode), VersionFrom(Words(res.statusText)[0])))
  {
    var s := Response.StatusLine(res);
    assert IsWord("HTTP/1.1");
    StatusLineWords("HTTP/1.1", res.statusCode, res.statusText);
    assert OccursAt(s, "HTTP", 0);
    HasSubstringOccurs(s, "HTTP");
    StatusLineNoBreak(res.version, res.statusCode, res.statusText);
  }

  lemma StatusLineNoBreak(version: string, code: string, text: string)
    requires '\n' !in version && IsWord(code) && '\n' !in text
    ensures '\n' !in version + " " + code + " " + text
  {
    assert '\n' !in code by {
      assert forall i :: 0 <= i < |code| ==> !IsWhitespace(code[i]);
    }
  }

  /** The written header lines are non-empty header lines without line breaks. */
  lemma HeaderLinesWellFormed(h: seq<(string, string)>)
    requires forall i :: 0 <= i < |h| ==> ReadsBack(h[i])
    ensures forall i :: 0 <= i < |h| ==>
      Response.HeaderLines(h)[i] != "" && '\n' !in Response.HeaderLines(h)[i] && !IsRequestLine(Response.HeaderLines(h)[i])
  {
    forall i | 0 <= i < |h|
      ensures Response.HeaderLines(h)[i] != "" && '\n' !in Response.HeaderLines(h)[i]
    {
      var l := Response.HeaderLine(h[i]);
      assert l[|h[i].0|] == ':';
      assert forall j :: 0 <= j < |l| ==> l[j] in h[i].0 || l[j] == ':' || l[j] in h[i].1;
    }
  }

  /** The head of a serialized response: status line, header lines and
      the Content-Length line. */
  function WireHead(res: Response.HttpResponse): seq<string>
    requires res.headers.Some?
  {
    [Response.StatusLine(res)] + Response.HeaderLines(res.headers.value) + [Response.ContentLengthLine(res)]
  }

  /** The head lines other than the status line are header lines. */
  lemma WireHeadLines(res: Response.HttpResponse)
    requires res.headers.Some? && res.version == "HTTP/1.1"
    requires IsWord(res.statusCode) && |Words(res.statusText)| > 0 && '\n' !in res.statusText
    requires forall i :: 0 <= i < |res.headers.value| ==> ReadsBack(res.headers.value[i])
    ensures forall j :: 0 <= j < |WireHead(res)| ==>
      WireHead(res)[j] != "" && '\n' !in WireHead(res)[j] && !IsMalformed(WireHead(res)[j])
    ensures forall j :: 0 < j < |WireHead(res)| ==> !IsRequestLine(WireHead(res)[j])
  {
    var head := WireHead(res);
    var hl := Response.HeaderLines(res.headers.value);
    StatusLineParses(res);
    HeaderLinesWellFormed(res.headers.value);
    ContentLengthIsHeader(Utf8Len(Response.BodyText(res)));
    forall j | 0 < j < |head|
      ensures head[j] != "" && '\n' !in head[j] && !IsRequestLine(head[j])
    {
      if j < |head| - 1 {
        assert head[j] == hl[j - 1];
      } else {
        assert head[j] == Response.ContentLengthLine(res);
      }
    }
  }

  /** Parsing a serialized response reads its head and its body. */
  lemma WireParsesAsHead(res: Response.HttpResponse)
    requires res.headers.Some? && res.version == "HTTP/1.1"
    requires IsWord(res.statusCode) && |Words(res.statusText)| > 0 && '\n' !in res.statusText
    requires forall i :: 0 <= i < |res.headers.value| ==> ReadsBack(res.headers.value[i])
    requires '\n' !in Response.BodyText(res)
    ensures RequestLineOf(WireHead(res)).Ok?
    ensures Parsed(Response.Wire(res)) ==
      Ok(HttpRequest(RequestLineOf(WireHead(res)).value.httpMethod, RequestLineOf(WireHead(res)).value.version,
        RequestLineOf(WireHead(res)).value.resource, HeadersOf(WireHead(res)), TrimEndNul(Response.BodyText(res))))
  {
    var head := WireHead(res);
    Response.WireLayout(res);
    assert head + [""] == [Response.StatusLine(res)] + Response.HeaderLines(res.headers.value) + [Response.ContentLengthLine(res), ""];
    WireHeadLines(res);
    ParseWellFormed(head, Response.BodyText(res));
  }

  /** A serialized response parses to: no method (the version is not a
      method name), the code as the path, the phrase's first word as the
      version, the header entries plus the Content-Length entry, and the
      body without trailing NULs. */
  lemma WireReadBack(res: Response.HttpResponse)
    requires res.headers.Some? && res.version == "HTTP/1.1"
    requires IsWord(res.statusCode) && |Words(res.statusText)| > 0 && '\n' !in res.statusText
    requires forall i :: 0 <= i < |res.headers.value| ==> ReadsBack(res.headers.value[i])
    requires '\n' !in Response.BodyText(res)
    ensures Parsed(Response.Wire(res)) ==
      Ok(HttpRequest(Method.Uninitialized, VersionFrom(Words(res.statusText)[0]), Path(res.statusCode),
        ToMap(res.headers.value)["Content-Length" := Dec(Utf8Len(Response.BodyText(res)))],
        TrimEndNul(Response.BodyText(res))))
  {
    var head := WireHead(res);
    var s := Response.StatusLine(res);
    var h := res.headers.value;
    WireParsesAsHead(res);
    WireHeadLines(res);
    StatusLineParses(res);
    RequestLineOfLatest(head, 0);
    HeaderLinesReadBack(s, h);
    ContentLengthValue(Utf8Len(Response.BodyText(res)));
    HeadersSnoc([s] + Response.HeaderLines(h), Response.ContentLengthLine(res));
  }
}
