/** What the RTSP writers and parsers of
    BaseClass/CommonTools/RtspParser.cpp promise each other: a request or
    response written by GetStrRequest or GetStrResponse and read by
    ParseRtspRequest or ParseRtspResponse into a fresh message comes back,
    with the Content-length field the writer adds. */
module RtspRoundTrip {
  import opened Bytes
  import opened CLib
  import opened RtspParser
  import opened RtspFields
  import opened RtspMessage

  /** A request-line or status-line word: not empty, without a space or a
      carriage return. */
  ghost predicate Word(t: Text)
  {
    t != [] && Avoids(t, ' ') && Avoids(t, '\r')
  }

  /** A header field that survives the trip: a key and a non-empty value,
      neither holding ": " or a carriage return. An empty value is lost,
      because the split drops an empty last piece. */
  ghost predicate Readable(f: Field)
  {
    !Contains(f.key, ColonSpace) && !Contains(f.value, ColonSpace) && f.value != [] &&
    Avoids(f.key, '\r') && Avoids(f.value, '\r')
  }

  ghost predicate ReadableFields(fs: Fields)
  {
    Ordered(fs) && forall i :: 0 <= i < |fs| ==> Readable(fs[i])
  }

  /** The fields as the receiver sees them: the writer adds Content-length
      for a body. */
  function Sent(fs: Fields, content: Text): Fields
  {
    if content == [] then fs else Put(fs, ContentLength, Decimal(|content|))
  }

  /** The first word of a text, as the status-line parse takes it. */
  function FirstWord(t: Text): Text
  {
    var w := Pieces(t, " ");
    if w == [] then [] else w[0]
  }

  lemma Separators()
    ensures Unbordered(Crlf) && Unbordered(ColonSpace) && Unbordered(" ")
  {
    assert Crlf[1..] == "\n" && Crlf[..1] == "\r";
    assert ColonSpace[1..] == " " && ColonSpace[..1] == ":";
    assert UnborderedFrom(Crlf, 2) && UnborderedFrom(ColonSpace, 2) && UnborderedFrom(" ", 1);
  }

  /** A header line reads back as its field and holds no line break. */
  lemma FieldLineRead(f: Field)
    requires Readable(f)
    ensures FieldOf(FieldLine(f)) == Some(f)
    ensures !Contains(FieldLine(f), Crlf)
  {
    Separators();
    PiecesAfterPiece(f.key, ColonSpace, f.value);
    PiecesOfFree(f.value, ColonSpace);
    AvoidsConcat(f.key, ColonSpace, '\r');
    AvoidsConcat(f.key + ColonSpace, f.value, '\r');
    AvoidsFree(FieldLine(f), Crlf);
  }

  /** The Content-length field is readable. */
  lemma LengthReadable(n: nat)
    ensures Readable(Field(ContentLength, Decimal(n)))
  {
    var d := Decimal(n);
    assert Avoids(ContentLength, ':') && Avoids(ContentLength, '\r');
    assert Avoids(d, ':') && Avoids(d, '\r');
    AvoidsFree(ContentLength, ColonSpace);
    AvoidsFree(d, ColonSpace);
  }

  lemma {:induction false} PutLinesAppend(fs: Fields, a: seq<Text>, b: seq<Text>)
    ensures PutLines(fs, a + b) == PutLines(PutLines(fs, a), b)
    decreases |b|
  {
    if b == [] {
      assert a + b == a;
    } else {
      assert (a + b)[..|a + b| - 1] == a + b[..|b| - 1];
      PutLinesAppend(fs, a, b[..|b| - 1]);
    }
  }

  /** The header lines of an ordered map, read into an empty map, give
      the map back, and none holds a line break. */
  lemma {:induction false} FieldLinesRead(fs: Fields)
    requires ReadableFields(fs)
    ensures PutLines([], FieldLines(fs)) == fs
    ensures forall l :: l in FieldLines(fs) ==> !Contains(l, Crlf)
  {
    if fs != [] {
      var init, f := fs[..|fs| - 1], fs[|fs| - 1];
      forall i | 0 <= i < |init|
        ensures init[i] == fs[i]
      {
      }
      FieldLinesRead(init);
      FieldLineRead(f);
      var ls := FieldLines(fs);
      assert ls == FieldLines(init) + [FieldLine(f)];
      assert ls[..|ls| - 1] == FieldLines(init);
      forall i | 0 <= i < |init|
        ensures Less(init[i].key, f.key)
      {
        assert init[i] == fs[i];
      }
      PutLast(init, f.key, f.value);
      assert init + [f] == fs;
    }
  }

  /** The header block, the Content-length line included, read into an
      empty map. */
  lemma HeaderRead(fs: Fields, content: Text)
    requires ReadableFields(fs)
    ensures PutLines([], FieldLines(fs) + LengthLines(content)) == Sent(fs, content)
    ensures forall l :: l in FieldLines(fs) + LengthLines(content) ==> !Contains(l, Crlf)
  {
    FieldLinesRead(fs);
    PutLinesAppend([], FieldLines(fs), LengthLines(content));
    if content != [] {
      var f := Field(ContentLength, Decimal(|content|));
      LengthReadable(|content|);
      FieldLineRead(f);
      var ll := LengthLines(content);
      assert ll == [FieldLine(f)] && ll[..0] == [];
    }
  }

  /** The written text splits into the written lines, then the lines of
      the body. */
  lemma WrittenLines(first: Text, fs: Fields, content: Text)
    requires Avoids(first, '\r') && ReadableFields(fs)
    ensures Pieces(Terminated([first] + FieldLines(fs) + LengthLines(content) + [[]], Crlf) + content, Crlf)
            == [first] + FieldLines(fs) + LengthLines(content) + [[]] + Pieces(content, Crlf)
  {
    Separators();
    HeaderRead(fs, content);
    AvoidsFree(first, Crlf);
    var ls := [first] + FieldLines(fs) + LengthLines(content) + [[]];
    forall l | l in ls
      ensures !Contains(l, Crlf)
    {
      if l != first && l != [] {
        assert l in FieldLines(fs) + LengthLines(content);
      }
    }
    PiecesTerminated(ls, content, Crlf);
  }

  /** Two pieces free of the separator, each followed by it, come first. */
  lemma TwoPieces(a: Text, b: Text, t: Text, c: Text)
    requires |c| > 0 && Unbordered(c) && !Contains(a, c) && !Contains(b, c)
    ensures Pieces(a + c + b + c + t, c) == [a, b] + Pieces(t, c)
  {
    assert a + c + b + c + t == a + c + (b + c + t);
    PiecesAfterPiece(a, c, b + c + t);
    PiecesAfterPiece(b, c, t);
  }

  /** The request line splits at its spaces into method, URL and version. */
  lemma RequestLineWords(req: Request)
    requires req.requestMethod != NoMethod && Word(req.url) && Word(req.version)
    ensures Pieces(RequestLine(req), " ") == [MethodName(req.requestMethod), req.url, req.version]
    ensures Avoids(RequestLine(req), '\r')
  {
    Separators();
    var name := MethodName(req.requestMethod);
    AvoidsFree(name, " ");
    AvoidsFree(req.url, " ");
    AvoidsFree(req.version, " ");
    TwoPieces(name, req.url, req.version, " ");
    PiecesOfFree(req.version, " ");
    RequestLineOneLine(req);
  }

  lemma RequestLineOneLine(req: Request)
    requires Avoids(req.url, '\r') && Avoids(req.version, '\r')
    ensures Avoids(RequestLine(req), '\r')
  {
    var name := MethodName(req.requestMethod);
    assert Avoids(" ", '\r');
    AvoidsConcat(name, " ", '\r');
    AvoidsConcat(name + " ", req.url, '\r');
    AvoidsConcat(name + " " + req.url, " ", '\r');
    AvoidsConcat(name + " " + req.url + " ", req.version, '\r');
  }

  /** The status line splits at its spaces into version, code and the
      words of the reason. */
  lemma StatusLineWords(rsp: Response)
    requires Word(rsp.version) && Word(rsp.code) && rsp.reason != [] && Avoids(rsp.reason, '\r')
    ensures Pieces(StatusLine(rsp), " ") == [rsp.version, rsp.code] + Pieces(rsp.reason, " ")
    ensures Pieces(rsp.reason, " ") != []
    ensures Avoids(StatusLine(rsp), '\r')
  {
    Separators();
    AvoidsFree(rsp.version, " ");
    AvoidsFree(rsp.code, " ");
    TwoPieces(rsp.version, rsp.code, rsp.reason, " ");
    PiecesJoin(rsp.reason, " ");
    StatusLineOneLine(rsp);
  }

  lemma StatusLineOneLine(rsp: Response)
    requires Avoids(rsp.version, '\r') && Avoids(rsp.code, '\r') && Avoids(rsp.reason, '\r')
    ensures Avoids(StatusLine(rsp), '\r')
  {
    assert Avoids(" ", '\r');
    AvoidsConcat(rsp.version, " ", '\r');
    AvoidsConcat(rsp.version + " ", rsp.code, '\r');
    AvoidsConcat(rsp.version + " " + rsp.code, " ", '\r');
    AvoidsConcat(rsp.version + " " + rsp.code + " ", rsp.reason, '\r');
  }

  /** A request that GetStrRequest writes, ParseRtspRequest reads back
      into a fresh request: same method, URL, version and body, and the
      fields with Content-length added for a body. The body must be one
      line and, if present, announced by a Content-type field, since the
      parser takes only the last line and only then. */
  lemma RequestRoundTrip(req: Request)
    requires req.requestMethod != NoMethod && Word(req.url) && Word(req.version)
    requires ReadableFields(req.fields)
    requires !Contains(req.content, Crlf)
    requires req.content == [] || Get(req.fields, ContentType).Some?
    ensures RequestText(req).code == 0
    ensures ParsedRequest(RequestText(req).result, NewRequest)
            == Outcome(0, req.(fields := Sent(req.fields, req.content)))
  {
    var text := RequestText(req).result;
    var lines := [RequestLine(req)] + FieldLines(req.fields) + LengthLines(req.content) + [[]] + Body(req.content);
    assert Pieces(text, Crlf) == lines by {
      RequestLineWords(req);
      WrittenLines(RequestLine(req), req.fields, req.content);
      PiecesOfFree(req.content, Crlf);
    }
    RequestFromWritten(req);
  }

  /** The lines of a one-line body. */
  function Body(content: Text): seq<Text>
  {
    if content == [] then [] else [content]
  }

  /** The written request's lines make the request again. */
  lemma RequestFromWritten(req: Request)
    requires req.requestMethod != NoMethod && Word(req.url) && Word(req.version)
    requires ReadableFields(req.fields)
    requires req.content == [] || Get(req.fields, ContentType).Some?
    ensures RequestFromLines([RequestLine(req)] + FieldLines(req.fields) + LengthLines(req.content) + [[]] + Body(req.content), NewRequest)
            == Outcome(0, req.(fields := Sent(req.fields, req.content)))
  {
    RequestLineWords(req);
    NameOfMethodLine(req);
    if req.content == [] {
      NoBodyFromWritten(req);
    } else {
      BodyFromWritten(req);
    }
  }

  lemma NoBodyFromWritten(req: Request)
    requires Pieces(RequestLine(req), " ") == [MethodName(req.requestMethod), req.url, req.version]
    requires MethodOf(MethodName(req.requestMethod)) == req.requestMethod != NoMethod
    requires ReadableFields(req.fields) && req.content == []
    ensures RequestFromLines([RequestLine(req)] + FieldLines(req.fields) + LengthLines(req.content) + [[]] + Body(req.content), NewRequest)
            == Outcome(0, req.(fields := Sent(req.fields, req.content)))
  {
    var first, fl := RequestLine(req), FieldLines(req.fields);
    FieldLinesRead(req.fields);
    assert [first] + fl + LengthLines(req.content) + [[]] + Body(req.content) == [first] + fl + [[]];
    RequestFromHeader(req, fl, req.fields, []);
    assert Pieces([], ColonSpace) == [];
  }

  lemma BodyFromWritten(req: Request)
    requires Pieces(RequestLine(req), " ") == [MethodName(req.requestMethod), req.url, req.version]
    requires MethodOf(MethodName(req.requestMethod)) == req.requestMethod != NoMethod
    requires ReadableFields(req.fields) && req.content != [] && Get(req.fields, ContentType).Some?
    ensures RequestFromLines([RequestLine(req)] + FieldLines(req.fields) + LengthLines(req.content) + [[]] + Body(req.content), NewRequest)
            == Outcome(0, req.(fields := Sent(req.fields, req.content)))
  {
    var first, fl, ll := RequestLine(req), FieldLines(req.fields), LengthLines(req.content);
    HeaderRead(req.fields, req.content);
    var head := fl + ll;
    var fs := Sent(req.fields, req.content);
    PutLinesAppend([], head, [[]]);
    BlankLine(fs);
    PutGet(req.fields, ContentLength, Decimal(|req.content|), ContentType);
    assert Body(req.content) == [req.content];
    Regroup5([first], fl, ll, [[]], [req.content]);
    RequestFromHeader(req, head + [[]], fs, req.content);
  }

  /** A request line, header lines that give fs, and a last line. */
  lemma RequestFromHeader(req: Request, head: seq<Text>, fs: Fields, last: Text)
    requires Pieces(RequestLine(req), " ") == [MethodName(req.requestMethod), req.url, req.version]
    requires MethodOf(MethodName(req.requestMethod)) == req.requestMethod != NoMethod
    requires PutLines([], head) == fs
    ensures var lines := [RequestLine(req)] + head + [last];
            RequestFromLines(lines, NewRequest)
            == Outcome(0, NewRequest.(requestMethod := req.requestMethod, url := req.url, version := req.version,
                                      fields := if Get(fs, ContentType).Some? then fs else PutLine(fs, last),
                                      content := if Get(fs, ContentType).Some? then last else []))
  {
    var lines := [RequestLine(req)] + head + [last];
    assert lines[0] == RequestLine(req);
    assert lines[1..|lines| - 1] == head;
    assert lines[|lines| - 1] == last;
  }

  lemma NameOfMethodLine(req: Request)
    requires req.requestMethod != NoMethod
    ensures MethodOf(MethodName(req.requestMethod)) == req.requestMethod
  {
    MethodOfName(req.requestMethod);
  }

  /** A response that GetStrResponse writes, ParseRtspResponse reads back
      into a fresh response: same version and code, the reason's first
      word, the fields with Content-length added and any line of the body
      that looks like a header line; the body itself is never stored. */
  lemma ResponseRoundTrip(rsp: Response)
    requires Word(rsp.version) && Word(rsp.code) && rsp.reason != [] && Avoids(rsp.reason, '\r')
    requires !Contains(StatusLine(rsp), ColonSpace)
    requires ReadableFields(rsp.fields)
    ensures ResponseText(rsp).code == 0
    ensures ParsedResponse(ResponseText(rsp).result, NewResponse)
            == Outcome(0, NewResponse.(version := rsp.version, code := rsp.code, reason := FirstWord(rsp.reason),
                                       fields := PutLines(Sent(rsp.fields, rsp.content), Pieces(rsp.content, Crlf))))
  {
    var text := ResponseText(rsp).result;
    var lines := [StatusLine(rsp)] + FieldLines(rsp.fields) + LengthLines(rsp.content) + [[]] + Pieces(rsp.content, Crlf);
    assert Pieces(text, Crlf) == lines by {
      StatusLineWords(rsp);
      WrittenLines(StatusLine(rsp), rsp.fields, rsp.content);
    }
    ResponseFromWritten(rsp);
  }

  /** The written response's lines make the response again. */
  lemma ResponseFromWritten(rsp: Response)
    requires Word(rsp.version) && Word(rsp.code) && rsp.reason != [] && Avoids(rsp.reason, '\r')
    requires !Contains(StatusLine(rsp), ColonSpace)
    requires ReadableFields(rsp.fields)
    ensures ResponseFromLines([StatusLine(rsp)] + FieldLines(rsp.fields) + LengthLines(rsp.content) + [[]] + Pieces(rsp.content, Crlf), NewResponse)
            == Outcome(0, NewResponse.(version := rsp.version, code := rsp.code, reason := FirstWord(rsp.reason),
                                       fields := PutLines(Sent(rsp.fields, rsp.content), Pieces(rsp.content, Crlf))))
  {
    StatusLineWords(rsp);
    var head := FieldLines(rsp.fields) + LengthLines(rsp.content);
    HeaderRead(rsp.fields, rsp.content);
    var first, body := [StatusLine(rsp)], Pieces(rsp.content, Crlf);
    var lines := [StatusLine(rsp)] + FieldLines(rsp.fields) + LengthLines(rsp.content) + [[]] + body;
    assert lines == first + head + [[]] + body;
    assert lines[0] == StatusLine(rsp);
    PiecesOfFree(StatusLine(rsp), ColonSpace);
    assert PutLines([], first) == [] by {
      assert first[..0] == [];
    }
    PutLinesAppend([], first, head);
    PutLinesAppend([], first + head, [[]]);
    BlankLine(Sent(rsp.fields, rsp.content));
    PutLinesAppend([], first + head + [[]], body);
  }

  /** The empty line that ends the header block adds no field. */
  lemma BlankLine(fs: Fields)
    ensures PutLines(fs, [[]]) == fs
  {
    var ls: seq<Text> := [[]];
    assert ls[..0] == [];
    assert Pieces([], ColonSpace) == [];
  }

  lemma Regroup5<T>(a: seq<T>, b: seq<T>, c: seq<T>, d: seq<T>, e: seq<T>)
    ensures a + b + c + d + e == a + (b + c + d) + e
  {
  }
}
