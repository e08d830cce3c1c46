/** RTSP requests and responses as text (sections 6 and 7 of RFC 2326):
    the parsers and writers of BaseClass/CommonTools/RtspParser.cpp.
    The four operations return uint32_t; the codes -1, -2 and -3 below
    reach the caller as 2^32 - 1, 2^32 - 2 and 2^32 - 3, and callers only
    compare them with 0. */
module RtspMessage {
  import opened Bytes
  import opened CLib
  import opened RtspParser
  import opened RtspFields

  datatype Method = NoMethod | Describe | Announce | GetParameter | Options | Pause
                  | Play | Record | Redirect | Setup | SetParameter | Teardown

  datatype Request = Request(requestMethod: Method, url: Text, version: Text, fields: Fields, content: Text)

  datatype Response = Response(version: Text, code: Text, reason: Text, fields: Fields, content: Text)

  /** A return code and what the operation produced or left behind. */
  datatype Outcome<T> = Outcome(code: int, result: T)

  const ContentType: Text := "Content-type"
  const ContentLength: Text := "Content-length"

  /** A request as RtspRequest's constructor leaves it. */
  const NewRequest := Request(NoMethod, [], [], [], [])

  /** A response as its default constructor leaves it. */
  const NewResponse := Response([], [], [], [], [])

  /** The method word the writer puts on the request line; empty for none. */
  function MethodName(m: Method): (name: Text)
    ensures name == [] <==> m == NoMethod
    ensures Avoids(name, ' ') && Avoids(name, '\r')
  {
    match m
    case NoMethod => ""
    case Describe => "DESCRIBE"
    case Announce => "ANNOUNCE"
    case GetParameter => "GET_PARAMETER"
    case Options => "OPTIONS"
    case Pause => "PAUSE"
    case Play => "PLAY"
    case Record => "RECORD"
    case Redirect => "REDIRECT"
    case Setup => "SETUP"
    case SetParameter => "SET_PARAMETER"
    case Teardown => "TEARDOWN"
  }

  /** The method a request line's first word names; NoMethod for any other
      word. */
  function MethodOf(word: Text): Method
  {
    if word == "DESCRIBE" then Describe
    else if word == "ANNOUNCE" then Announce
    else if word == "GET_PARAMETER" then GetParameter
    else if word == "OPTIONS" then Options
    else if word == "PAUSE" then Pause
    else if word == "PLAY" then Play
    else if word == "RECORD" then Record
    else if word == "REDIRECT" then Redirect
    else if word == "SETUP" then Setup
    else if word == "SET_PARAMETER" then SetParameter
    else if word == "TEARDOWN" then Teardown
    else NoMethod
  }

  /** The parser reads back every method name the writer writes... */
  lemma MethodOfName(m: Method)
    requires m != NoMethod
    ensures MethodOf(MethodName(m)) == m
  {
  }

  /** ... and recognises no other word. */
  lemma NameOfMethod(word: Text)
    requires MethodOf(word) != NoMethod
    ensures MethodName(MethodOf(word)) == word
  {
  }

  /** The field a header line carries: the first two pieces between ": ",
      when there are two. */
  function FieldOf(line: Text): Option<Field>
  {
    var e := Pieces(line, ColonSpace);
    if |e| >= 2 then Some(Field(e[0], e[1])) else None
  }

  /** One header line entered into the map, if it is one. */
  function PutLine(fs: Fields, line: Text): Fields
  {
    match FieldOf(line)
    case Some(f) => Put(fs, f.key, f.value)
    case None => fs
  }

  /** Header lines entered into the map one after the other. */
  function PutLines(fs: Fields, lines: seq<Text>): Fields
  {
    if lines == [] then fs else PutLine(PutLines(fs, lines[..|lines| - 1]), lines[|lines| - 1])
  }

  /** What ParseRtspRequest returns and leaves in the request it is given:
      the method is cleared first; lines between the request line and the
      last line are header fields; the last line is the body when the map
      then holds Content-type and a header line otherwise. */
  function ParsedRequest(text: Text, req: Request): Outcome<Request>
  {
    RequestFromLines(Pieces(text, Crlf), req)
  }

  /** ParsedRequest once the text is split into lines. */
  function RequestFromLines(lines: seq<Text>, req: Request): Outcome<Request>
  {
    var cleared := req.(requestMethod := NoMethod);
    if |lines| < 2 then Outcome(-1, cleared)
    else
      var words := Pieces(lines[0], " ");
      if |words| < 3 then Outcome(-2, cleared)
      else if MethodOf(words[0]) == NoMethod then Outcome(-3, cleared)
      else
        var fs := PutLines(req.fields, lines[1..|lines| - 1]);
        var last := lines[|lines| - 1];
        var started := cleared.(requestMethod := MethodOf(words[0]), url := words[1], version := words[2]);
        if Get(fs, ContentType).Some? then Outcome(0, started.(fields := fs, content := last))
        else Outcome(0, started.(fields := PutLine(fs, last)))
  }

  /** The outcomes of ParseRtspRequest: a failure leaves only the method
      cleared; success sets a method the request line names. */
  lemma ParsedRequestOutcome(text: Text, req: Request)
    ensures var o := ParsedRequest(text, req); var code, r := o.code, o.result;
            (code == 0 || code == -1 || code == -2 || code == -3) &&
            (code != 0 ==> r == req.(requestMethod := NoMethod)) &&
            (code == 0 <==> r.requestMethod != NoMethod) &&
            (code == 0 ==> Pieces(Pieces(text, Crlf)[0], " ")[..3] ==
                           [MethodName(r.requestMethod), r.url, r.version])
  {
    var o := ParsedRequest(text, req);
    if o.code == 0 {
      NameOfMethod(Pieces(Pieces(text, Crlf)[0], " ")[0]);
    }
  }

  /** ParseRtspRequest (BaseClass/CommonTools/RtspParser.cpp:32-96). */
  method ParseRtspRequest(text: Text, req: Request) returns (code: int, r: Request)
    ensures Outcome(code, r) == ParsedRequest(text, req)
  {
    r := req.(requestMethod := NoMethod);
    var lines := Split(text, Crlf);
    if |lines| < 2 {
      return -1, r;
    }
    var words := Split(lines[0], " ");
    if |words| < 3 {
      return -2, r;
    }
    var m := MethodOf(words[0]);
    if m == NoMethod {
      return -3, r;
    }
    r := r.(requestMethod := m, url := words[1], version := words[2]);
    var fs := req.fields;
    for i := 1 to |lines| - 1
      invariant fs == PutLines(req.fields, lines[1..i])
    {
      var e := Split(lines[i], ColonSpace);
      if |e| >= 2 {
        fs := Put(fs, e[0], e[1]);
      }
      assert lines[1..i + 1][..i - 1] == lines[1..i];
    }
    var last := lines[|lines| - 1];
    if Get(fs, ContentType).Some? {
      r := r.(fields := fs, content := last);
    } else {
      var e := Split(last, ColonSpace);
      if |e| >= 2 {
        fs := Put(fs, e[0], e[1]);
      }
      r := r.(fields := fs);
    }
    code := 0;
  }

  /** What ParseRtspResponse returns and leaves in the response it is
      given: the status line's first three words, and every line, the
      status line and the body included, tried as a header field. */
  function ParsedResponse(text: Text, rsp: Response): Outcome<Response>
  {
    ResponseFromLines(Pieces(text, Crlf), rsp)
  }

  /** ParsedResponse once the text is split into lines. */
  function ResponseFromLines(lines: seq<Text>, rsp: Response): Outcome<Response>
  {
    if |lines| < 2 then Outcome(-1, rsp)
    else
      var words := Pieces(lines[0], " ");
      if |words| < 3 then Outcome(-2, rsp)
      else Outcome(0, rsp.(version := words[0], code := words[1], reason := words[2],
                           fields := PutLines(rsp.fields, lines)))
  }

  /** ParseRtspResponse (BaseClass/CommonTools/RtspParser.cpp:98-130). */
  method ParseRtspResponse(text: Text, rsp: Response) returns (code: int, r: Response)
    ensures Outcome(code, r) == ParsedResponse(text, rsp)
  {
    r := rsp;
    var lines := Split(text, Crlf);
    if |lines| < 2 {
      return -1, r;
    }
    var words := Split(lines[0], " ");
    if |words| < 3 {
      return -2, r;
    }
    r := r.(version := words[0], code := words[1], reason := words[2]);
    var fs := rsp.fields;
    for i := 0 to |lines|
      invariant fs == PutLines(rsp.fields, lines[..i])
    {
      var e := Split(lines[i], ColonSpace);
      if |e| >= 2 {
        fs := Put(fs, e[0], e[1]);
      }
      assert lines[..i + 1][..i] == lines[..i];
    }
    assert lines[..|lines|] == lines;
    r := r.(fields := fs);
    code := 0;
  }

  /** A header line as the writers emit it. */
  function FieldLine(f: Field): Text
  {
    f.key + ColonSpace + f.value
  }

  /** The header lines of a map, in key order. */
  function FieldLines(fs: Fields): (lines: seq<Text>)
    ensures |lines| == |fs|
  {
    if fs == [] then [] else FieldLines(fs[..|fs| - 1]) + [FieldLine(fs[|fs| - 1])]
  }

  /** The Content-length line written before a non-empty body. */
  function LengthLines(content: Text): seq<Text>
  {
    if content == [] then [] else [ContentLength + ColonSpace + Decimal(|content|)]
  }

  function RequestLine(req: Request): Text
  {
    MethodName(req.requestMethod) + " " + req.url + " " + req.version
  }

  function StatusLine(rsp: Response): Text
  {
    rsp.version + " " + rsp.code + " " + rsp.reason
  }

  /** What GetStrRequest returns and writes: nothing for a request without
      method, URL or version; otherwise the request line, the header
      lines, a Content-length line for a body, an empty line, each line
      ended by CRLF, and the body. */
  function RequestText(req: Request): Outcome<Text>
  {
    if req.requestMethod == NoMethod || req.url == [] || req.version == [] then Outcome(-1, [])
    else Outcome(0, Terminated([RequestLine(req)] + FieldLines(req.fields) + LengthLines(req.content) + [[]], Crlf)
             + req.content)
  }

  /** What GetStrResponse returns and writes, in the same layout. */
  function ResponseText(rsp: Response): Outcome<Text>
  {
    if rsp.code == [] || rsp.reason == [] || rsp.version == [] then Outcome(-1, [])
    else Outcome(0, Terminated([StatusLine(rsp)] + FieldLines(rsp.fields) + LengthLines(rsp.content) + [[]], Crlf)
             + rsp.content)
  }

  /** Writing fails exactly when a part of the start line is missing. */
  lemma WriteOutcome(req: Request, rsp: Response)
    ensures RequestText(req).code == 0 <==> req.requestMethod != NoMethod && req.url != [] && req.version != []
    ensures RequestText(req).code != 0 ==> RequestText(req).code == -1 && RequestText(req).result == []
    ensures ResponseText(rsp).code == 0 <==> rsp.code != [] && rsp.reason != [] && rsp.version != []
    ensures ResponseText(rsp).code != 0 ==> ResponseText(rsp).code == -1 && ResponseText(rsp).result == []
  {
  }

  /** GetStrRequest (BaseClass/CommonTools/RtspParser.cpp:132-186). */
  method GetStrRequest(req: Request) returns (code: int, text: Text)
    ensures Outcome(code, text) == RequestText(req)
  {
    text := [];
    if req.requestMethod == NoMethod || req.url == [] || req.version == [] {
      return -1, text;
    }
    text := RequestLine(req) + Crlf;
    text := WriteFields(text, req.fields);
    text := WriteLength(text, req.content);
    text := text + Crlf;
    if |req.content| > 0 {
      text := text + req.content;
    }
    code := 0;
    WrittenLayout(RequestLine(req), req.fields, req.content);
    assert text == Terminated([RequestLine(req)] + FieldLines(req.fields) + LengthLines(req.content) + [[]], Crlf) + req.content;
  }

  /** GetStrResponse (BaseClass/CommonTools/RtspParser.cpp:188-226). */
  method GetStrResponse(rsp: Response) returns (code: int, text: Text)
    ensures Outcome(code, text) == ResponseText(rsp)
  {
    text := [];
    if rsp.code == [] || rsp.reason == [] || rsp.version == [] {
      return -1, text;
    }
    text := StatusLine(rsp) + Crlf;
    text := WriteFields(text, rsp.fields);
    text := WriteLength(text, rsp.content);
    text := text + Crlf;
    if |rsp.content| > 0 {
      text := text + rsp.content;
    }
    code := 0;
    WrittenLayout(StatusLine(rsp), rsp.fields, rsp.content);
    assert text == Terminated([StatusLine(rsp)] + FieldLines(rsp.fields) + LengthLines(rsp.content) + [[]], Crlf) + rsp.content;
  }

  /** The loop both writers run over the map: one line per field, in key
      order. */
  method WriteFields(text: Text, fs: Fields) returns (out: Text)
    ensures out == text + Terminated(FieldLines(fs), Crlf)
  {
    out := text;
    for i := 0 to |fs|
      invariant out == text + Terminated(FieldLines(fs[..i]), Crlf)
    {
      assert fs[..i + 1][..i] == fs[..i];
      TerminatedAppend(FieldLines(fs[..i]), FieldLine(fs[i]), Crlf);
      out := out + fs[i].key + ColonSpace + fs[i].value + Crlf;
    }
    assert fs[..|fs|] == fs;
  }

  /** The Content-length line both writers add before a body. */
  method WriteLength(text: Text, content: Text) returns (out: Text)
    ensures out == text + Terminated(LengthLines(content), Crlf)
  {
    out := text;
    if |content| > 0 {
      out := out + ContentLength + ColonSpace + Decimal(|content|) + Crlf;
    }
  }

  /** The writers' text, assembled piece by piece, is the layout
      RequestText and ResponseText describe. */
  lemma WrittenLayout(first: Text, fs: Fields, content: Text)
    ensures first + Crlf + Terminated(FieldLines(fs), Crlf) + Terminated(LengthLines(content), Crlf) + Crlf
              + (if |content| > 0 then content else [])
            == Terminated([first] + FieldLines(fs) + LengthLines(content) + [[]], Crlf) + content
  {
    var a, b, c := [first], FieldLines(fs), LengthLines(content);
    TerminatedConcat(a + b + c, [[]], Crlf);
    TerminatedConcat(a + b, c, Crlf);
    TerminatedConcat(a, b, Crlf);
    assert Terminated(a, Crlf) == first + Crlf + Terminated([], Crlf);
  }

  lemma {:induction false} TerminatedConcat(ps: seq<Text>, qs: seq<Text>, c: Text)
    ensures Terminated(ps + qs, c) == Terminated(ps, c) + Terminated(qs, c)
  {
    if ps == [] {
      assert ps + qs == qs;
    } else {
      assert (ps + qs)[1..] == ps[1..] + qs;
      TerminatedConcat(ps[1..], qs, c);
    }
  }

  lemma {:induction false} TerminatedAppend(ps: seq<Text>, p: Text, c: Text)
    ensures Terminated(ps + [p], c) == Terminated(ps, c) + p + c
  {
    if ps != [] {
      assert (ps + [p])[1..] == ps[1..] + [p];
      TerminatedAppend(ps[1..], p, c);
    } else {
      assert [] + [p] == [p];
      assert [p][1..] == [];
    }
  }
}
