/** The receive side of an RTSP connection, shared by the server session
    (BaseClass/RTSPServer/RTSPServerSession.cpp:225-476) and the client
    (BaseClass/RTSPClient/RTSPClient.cpp:362-611): the bytes read from the
    socket collect in a buffer, and HandleMsg cuts from its front, one
    after the other, '$'-framed interleaved RTP/RTCP packets (section
    10.12 of RFC 2326) and RTSP requests and responses with their bodies.
    The two files differ in the channel parity of RTP and in the request
    test; the handlers a message is passed to are recorded as events. */
module RtspFraming {
  import opened Bytes
  import opened CLib
  import opened RtspParser
  import opened RtspFields
  import opened RtspMessage

  datatype Role = Server | Client

  /** The '$' that opens an interleaved frame. */
  const Dollar: byte := 0x24

  /** The blank line that ends an RTSP header. */
  const Blank: Text := "\r\n\r\n"

  /** The bytes read as characters, one per byte. */
  function TextOf(b: seq<byte>): (t: Text)
    ensures |t| == |b| && forall i :: 0 <= i < |b| ==> t[i] as int == b[i] as int
  {
    seq(|b|, i requires 0 <= i < |b| => b[i] as int as char)
  }

  /** The C string that starts the text: up to its first NUL, or all of it. */
  function CString(t: Text): (c: Text)
    ensures c <= t
    ensures forall i :: 0 <= i < |c| ==> c[i] != '\0'
    ensures |c| < |t| ==> t[|c|] == '\0'
  {
    if t == [] || t[0] == '\0' then [] else [t[0]] + CString(t[1..])
  }

  /** RTP frames have an odd channel on the server and an even one on the
      client (RTSPServerSession.cpp:258-266, RTSPClient.cpp:394-402). */
  predicate IsRtpMsg(role: Role, data: Packet)
    requires |data| >= 2
  {
    data[0] == Dollar && data[1] % 2 == (if role == Server then 1 else 0)
  }

  predicate IsRtcpMsg(role: Role, data: Packet)
    requires |data| >= 2
  {
    data[0] == Dollar && data[1] % 2 == (if role == Server then 0 else 1)
  }

  /** FindRtpMsg and FindRtcpMsg: an interleaved frame is complete when
      the big-endian length in bytes 2-3 and its 4-byte prefix are all
      there (RTSPServerSession.cpp:293-321, RTSPClient.cpp:429-457). */
  function FindInterleaved(data: Packet): (r: Option<nat>)
    requires |data| >= 4
    ensures r.Some? <==> Be16(data[2], data[3]) + 4 <= |data|
    ensures r.Some? ==> r.value == Be16(data[2], data[3]) + 4
  {
    var len := Be16(data[2], data[3]);
    if len + 4 <= |data| then Some(len + 4) else None
  }

  /** The size of the RTSP header at the front: up to and including the
      first blank line. */
  function HeaderEnd(data: Packet): Option<nat>
  {
    var e := Find(TextOf(data), Blank, 0);
    if e < 0 then None else Some(e + 4)
  }

  /** FindRtspMsg (RTSPServerSession.cpp:268-291, RTSPClient.cpp:404-427):
      the first "\r\n\r\n" and the size of the message it ends. The loop
      bound size - 4 is unsigned, so the callers' size above 4 is needed. */
  method FindRtspMsg(data: Packet) returns (complete: bool, msgSize: nat)
    requires |data| >= 4
    ensures complete <==> HeaderEnd(data).Some?
    ensures complete ==> msgSize == HeaderEnd(data).value && 4 <= msgSize <= |data|
    ensures !complete ==> msgSize == 0
  {
    msgSize := 0;
    complete := false;
    ghost var t := TextOf(data);
    var len := 0;
    var i := 0;
    while i <= |data| - 4
      invariant 0 <= i <= |data| - 3 && len == i
      invariant Find(t, Blank, 0) == Find(t, Blank, i)
      decreases |data| - i
    {
      if data[i] == 0x0D && data[i + 1] == 0x0A && data[i + 2] == 0x0D && data[i + 3] == 0x0A {
        assert t[i..i + 4] == Blank;
        complete := true;
        len := len + 4;
        break;
      }
      assert t[i..i + 4] != Blank by {
        assert t[i..i + 4][0] == t[i] && t[i..i + 4][1] == t[i + 1];
        assert t[i..i + 4][2] == t[i + 2] && t[i..i + 4][3] == t[i + 3];
      }
      len := len + 1;
      i := i + 1;
    }
    if complete {
      msgSize := len;
    }
  }

  /** The method words a request may start with, in the order the test
      tries them. */
  const RequestWords: seq<Text> := ["OPTIONS ", "DESCRIBE ", "PAUSE ", "PLAY ", "SETUP ", "RECORD ",
                                    "GET_PARAMETER ", "SET_PARAMETER ", "TEARDOWN ", "ANNOUNCE ", "REDIRECT "]

  /** IsRtspRequestMsg of the server (RTSPServerSession.cpp:225-241): the
      C string at the front starts with one of the method words. */
  predicate IsRtspRequestMsg(data: Packet)
  {
    exists i :: 0 <= i < |RequestWords| && RequestWords[i] <= CString(TextOf(data))
  }

  /** IsRtspResponseMsg (RTSPServerSession.cpp:243-256,
      RTSPClient.cpp:379-392): the first nine bytes are "RTSP/1.0 ". */
  predicate IsRtspResponseMsg(data: Packet)
    requires |data| >= 9
  {
    TextOf(data[..9]) == "RTSP/1.0 "
  }

  /** What the handlers receive. */
  datatype Event = RtpFrame(frame: Packet) | RtcpFrame(frame: Packet)
                 | RequestIn(req: Request) | ResponseIn(rsp: Response)

  /** One pass of HandleMsg's loop: wait for more bytes, take n bytes off
      the front (handing a message over or dropping one that does not
      parse), clear the buffer, or throw: std::string refuses the length
      a negative Content-length converts to. */
  datatype Action = Wait | Take(n: nat, event: Option<Event>) | Drop | Throw

  /** How much body a parsed header announces. The test adds the int to a
      uint32_t, so it is taken modulo 2^32. */
  datatype Body = NoBody | Body(len: nat) | Pending | Broken

  function BodyOf(data: Packet, n: nat, fields: Fields): (b: Body)
    requires n <= |data|
    ensures b.Body? ==> n + b.len <= |data|
  {
    match Get(fields, ContentLength)
    case None => NoBody
    case Some(v) =>
      var cl := Atoi(v);
      if (n + cl) % U32 > |data| then Pending
      else if cl < 0 || n + cl > |data| then Broken
      else Body(cl)
  }

  /** The response branch once a header end is found
      (RTSPServerSession.cpp:371-405). */
  function ResponseAction(data: Packet, n: nat): (a: Action)
    requires 4 <= n <= |data|
    ensures a.Take? ==> n <= a.n <= |data|
  {
    AfterResponse(data, n, ParsedResponse(TextOf(data[..n]), NewResponse))
  }

  /** What the parse result and the Content-length field make of it. */
  function AfterResponse(data: Packet, n: nat, p: Outcome<Response>): (a: Action)
    requires 4 <= n <= |data|
    ensures a.Take? ==> n <= a.n <= |data|
  {
    if p.code != 0 then Take(n, None)
    else
      match BodyOf(data, n, p.result.fields)
      case NoBody => Take(n, Some(ResponseIn(p.result)))
      case Body(len) => Take(n + len, Some(ResponseIn(p.result.(content := TextOf(data[n..n + len])))))
      case Pending => Wait
      case Broken => Throw
  }

  /** The request branch (RTSPServerSession.cpp:414-454). */
  function RequestAction(data: Packet, n: nat): (a: Action)
    requires 4 <= n <= |data|
    ensures a.Take? ==> n <= a.n <= |data|
  {
    AfterRequest(data, n, ParsedRequest(TextOf(data[..n]), NewRequest))
  }

  function AfterRequest(data: Packet, n: nat, p: Outcome<Request>): (a: Action)
    requires 4 <= n <= |data|
    ensures a.Take? ==> n <= a.n <= |data|
  {
    if p.code != 0 then Take(n, None)
    else
      match BodyOf(data, n, p.result.fields)
      case NoBody => Take(n, Some(RequestIn(p.result)))
      case Body(len) => Take(n + len, Some(RequestIn(p.result.(content := TextOf(data[n..n + len])))))
      case Pending => Wait
      case Broken => Throw
  }

  /** One pass of HandleMsg (RTSPServerSession.cpp:329-470,
      RTSPClient.cpp:465-605). Every pass that goes on takes at least the
      4 bytes of a frame prefix or of a blank line, or clears the buffer,
      so the loop ends. */
  function Decide(role: Role, data: Packet): (a: Action)
    ensures a.Take? ==> 4 <= a.n <= |data|
  {
    if |data| <= 4 then Wait
    else if IsRtpMsg(role, data) then
      match FindInterleaved(data)
      case None => Wait
      case Some(n) => Take(n, Some(RtpFrame(data[..n])))
    else if IsRtcpMsg(role, data) then
      match FindInterleaved(data)
      case None => Wait
      case Some(n) => Take(n, Some(RtcpFrame(data[..n])))
    else RtspAction(data)
  }

  /** The RTSP part of a pass: a response or a request with its body, or
      anything else, which clears the buffer. */
  function RtspAction(data: Packet): (a: Action)
    requires |data| > 4
    ensures a.Take? ==> 4 <= a.n <= |data|
  {
    if |data| < 19 then Wait
    else if IsRtspResponseMsg(data) then
      match HeaderEnd(data)
      case None => Wait
      case Some(n) => ResponseAction(data, n)
    else if IsRtspRequestMsg(data) then
      match HeaderEnd(data)
      case None => Wait
      case Some(n) => RequestAction(data, n)
    else Drop
  }

  /** What HandleMsg leaves: the bytes still buffered, the messages handed
      over in order, and false when it threw. */
  datatype Drained = Drained(rest: Packet, events: seq<Event>, ok: bool)

  function Drain(role: Role, data: Packet): Drained
    decreases |data|
  {
    match Decide(role, data)
    case Wait => Drained(data, [], true)
    case Drop => Drained([], [], true)
    case Throw => Drained([], [], false)
    case Take(n, ev) =>
      var d := Drain(role, data[n..]);
      Drained(d.rest, (if ev.Some? then [ev.value] else []) + d.events, d.ok)
  }

  /** The response branch of HandleMsg as the source writes it. */
  method HandleResponse(data: Packet) returns (a: Action)
    requires |data| >= 19
    ensures a == (match HeaderEnd(data) case None => Wait case Some(n) => ResponseAction(data, n))
  {
    var complete, msgSize := FindRtspMsg(data);
    if !complete {
      return Wait;
    }
    var code, rsp := ParseRtspResponse(TextOf(data[..msgSize]), NewResponse);
    a := TakeResponse(data, msgSize, code, rsp);
  }

  method TakeResponse(data: Packet, msgSize: nat, code: int, rsp: Response) returns (a: Action)
    requires 4 <= msgSize <= |data|
    ensures a == AfterResponse(data, msgSize, Outcome(code, rsp))
  {
    if code != 0 {
      return Take(msgSize, None);
    }
    var v := Get(rsp.fields, ContentLength);
    if v.None? {
      return Take(msgSize, Some(ResponseIn(rsp)));
    }
    var cl := Atoi(v.value);
    if (msgSize + cl) % U32 > |data| {
      return Wait;
    }
    if cl < 0 || msgSize + cl > |data| {
      return Throw;
    }
    a := Take(msgSize + cl, Some(ResponseIn(rsp.(content := TextOf(data[msgSize..msgSize + cl])))));
  }

  /** The request branch of HandleMsg as the source writes it. */
  method HandleRequest(data: Packet) returns (a: Action)
    requires |data| >= 19
    ensures a == (match HeaderEnd(data) case None => Wait case Some(n) => RequestAction(data, n))
  {
    var complete, msgSize := FindRtspMsg(data);
    if !complete {
      return Wait;
    }
    var code, req := ParseRtspRequest(TextOf(data[..msgSize]), NewRequest);
    a := TakeRequest(data, msgSize, code, req);
  }

  method TakeRequest(data: Packet, msgSize: nat, code: int, req: Request) returns (a: Action)
    requires 4 <= msgSize <= |data|
    ensures a == AfterRequest(data, msgSize, Outcome(code, req))
  {
    if code != 0 {
      return Take(msgSize, None);
    }
    var v := Get(req.fields, ContentLength);
    if v.None? {
      return Take(msgSize, Some(RequestIn(req)));
    }
    var cl := Atoi(v.value);
    if (msgSize + cl) % U32 > |data| {
      return Wait;
    }
    if cl < 0 || msgSize + cl > |data| {
      return Throw;
    }
    a := Take(msgSize + cl, Some(RequestIn(req.(content := TextOf(data[msgSize..msgSize + cl])))));
  }

  /** The receive buffer of a session or client and the messages its
      handlers have been given. */
  class Receiver {
    const role: Role
    var pending: Packet
    var events: seq<Event>

    constructor(role: Role)
      ensures this.role == role && pending == [] && events == []
    {
      this.role := role;
      pending := [];
      events := [];
    }

    /** Bytes arriving from the socket. */
    method Receive(d: Packet)
      modifies this
      ensures pending == old(pending) + d && events == old(events)
    {
      pending := pending + d;
    }

    /** HandleMsg: every complete message at the front is handed over;
        false when the source throws. */
    method HandleMsg() returns (ok: bool)
      modifies this
      ensures var d := Drain(role, old(pending));
              pending == d.rest && events == old(events) + d.events && ok == d.ok
    {
      ghost var d0 := Drain(role, pending);
      while true
        invariant Drain(role, pending).rest == d0.rest && Drain(role, pending).ok == d0.ok
        invariant events + Drain(role, pending).events == old(events) + d0.events
        decreases |pending|
      {
        var data := pending;
        if |data| <= 4 {
          break;
        }
        var a := NextAction(role, data);
        DrainStep(role, data);
        match a
        case Wait =>
          break;
        case Drop =>
          pending := [];
        case Throw =>
          pending := [];
          return false;
        case Take(n, ev) =>
          ghost var before := events;
          ghost var later := Drain(role, data[n..]);
          pending := data[n..];
          if ev.Some? {
            events := events + [ev.value];
          }
          TakeStep(before, events, ev, later.events, old(events) + d0.events);
      }
      ok := true;
    }
  }

  /** The classification of one pass of HandleMsg as the source writes it. */
  method NextAction(role: Role, data: Packet) returns (a: Action)
    requires |data| > 4
    ensures a == Decide(role, data)
  {
    if IsRtpMsg(role, data) {
      var found := FindInterleaved(data);
      if found.None? {
        return Wait;
      }
      return Take(found.value, Some(RtpFrame(data[..found.value])));
    } else if IsRtcpMsg(role, data) {
      var found := FindInterleaved(data);
      if found.None? {
        return Wait;
      }
      return Take(found.value, Some(RtcpFrame(data[..found.value])));
    }
    if |data| < 19 {
      return Wait;
    }
    if IsRtspResponseMsg(data) {
      a := HandleResponse(data);
    } else if IsRtspRequestMsg(data) {
      a := HandleRequest(data);
    } else {
      a := Drop;
    }
  }

  /** One pass of the loop against Drain. */
  lemma DrainStep(role: Role, data: Packet)
    ensures Decide(role, data).Wait? ==> Drain(role, data) == Drained(data, [], true)
    ensures Decide(role, data).Drop? ==> Drain(role, data) == Drained([], [], true)
    ensures Decide(role, data).Throw? ==> Drain(role, data) == Drained([], [], false)
    ensures Decide(role, data).Take? ==>
              var a := Decide(role, data);
              var d := Drain(role, data[a.n..]);
              Drain(role, data) == Drained(d.rest, (if a.event.Some? then [a.event.value] else []) + d.events, d.ok)
  {
  }

  /** The events handed over so far and those still to come add up. */
  lemma TakeStep(before: seq<Event>, after: seq<Event>, ev: Option<Event>, later: seq<Event>, total: seq<Event>)
    requires after == before + (if ev.Some? then [ev.value] else [])
    requires before + ((if ev.Some? then [ev.value] else []) + later) == total
    ensures after + later == total
  {
    var added := if ev.Some? then [ev.value] else [];
    assert (before + added) + later == before + (added + later);
  }

  /** An interleaved RTP frame of the role: '$', a channel of the right
      parity, a length that covers the rest, and more than the 4 bytes
      of its prefix. */
  predicate IsFrame(role: Role, f: Packet)
  {
    |f| > 4 && IsRtpMsg(role, f) && Be16(f[2], f[3]) + 4 == |f|
  }

  /** The frames sent back to back, then the tail. */
  function Stream(frames: seq<Packet>, tail: Packet): Packet
  {
    if frames == [] then tail else frames[0] + Stream(frames[1..], tail)
  }

  /** The frames as the RTP handler receives them. */
  function RtpEvents(frames: seq<Packet>): seq<Event>
  {
    if frames == [] then [] else [RtpFrame(frames[0])] + RtpEvents(frames[1..])
  }

  /** A frame at the front is taken whole, whatever follows it. */
  lemma FrameTaken(role: Role, f: Packet, rest: Packet)
    requires IsFrame(role, f)
    ensures Decide(role, f + rest) == Take(|f|, Some(RtpFrame(f)))
    ensures (f + rest)[|f|..] == rest
  {
    var data := f + rest;
    assert data[..|f|] == f;
    assert data[0] == f[0] && data[1] == f[1] && data[2] == f[2] && data[3] == f[3];
    FrameAtFront(role, data, |f|);
  }

  lemma FrameAtFront(role: Role, data: Packet, n: nat)
    requires |data| > 4 && IsRtpMsg(role, data) && Be16(data[2], data[3]) + 4 == n <= |data|
    ensures Decide(role, data) == Take(n, Some(RtpFrame(data[..n])))
  {
  }

  /** Frames sent back to back are handed over one by one, in order, and
      what follows them is framed as it would be alone. */
  lemma {:induction false} DrainFrames(role: Role, frames: seq<Packet>, tail: Packet)
    requires forall i :: 0 <= i < |frames| ==> IsFrame(role, frames[i])
    ensures var d := Drain(role, tail);
            Drain(role, Stream(frames, tail)) == Drained(d.rest, RtpEvents(frames) + d.events, d.ok)
  {
    if frames != [] {
      var f := frames[0];
      var more := Stream(frames[1..], tail);
      DrainFrontFrame(role, f, more);
      DrainFrames(role, frames[1..], tail);
      Compose(Drain(role, f + more), Drain(role, more), Drain(role, tail), RtpFrame(f), RtpEvents(frames[1..]));
    }
  }

  lemma DrainFrontFrame(role: Role, f: Packet, more: Packet)
    requires IsFrame(role, f)
    ensures var d := Drain(role, more); Drain(role, f + more) == Drained(d.rest, [RtpFrame(f)] + d.events, d.ok)
  {
    FrameTaken(role, f, more);
    DrainTake(role, f + more, |f|, RtpFrame(f));
  }

  lemma Compose(x: Drained, y: Drained, d: Drained, e: Event, es: seq<Event>)
    requires x == Drained(y.rest, [e] + y.events, y.ok)
    requires y == Drained(d.rest, es + d.events, d.ok)
    ensures x == Drained(d.rest, ([e] + es) + d.events, d.ok)
  {
    ConsAssoc(e, es, d.events);
  }

  lemma ConsAssoc<T>(x: T, a: seq<T>, b: seq<T>)
    ensures [x] + (a + b) == ([x] + a) + b
  {
  }

  /** Taking a message off the front hands it over before what follows. */
  lemma DrainTake(role: Role, data: Packet, n: nat, ev: Event)
    requires n <= |data| && Decide(role, data) == Take(n, Some(ev))
    ensures var d := Drain(role, data[n..]); Drain(role, data) == Drained(d.rest, [ev] + d.events, d.ok)
  {
  }

  /** A frame that has only partly arrived stays in the buffer untouched. */
  lemma PartialFrameWaits(role: Role, f: Packet, k: nat)
    requires IsFrame(role, f) && 4 < k < |f|
    ensures Drain(role, f[..k]) == Drained(f[..k], [], true)
  {
    var data := f[..k];
    assert data[0] == f[0] && data[1] == f[1] && data[2] == f[2] && data[3] == f[3];
  }

  /** A body shorter than its Content-length is waited for: the header
      stays buffered until the whole body is there. */
  lemma ShortBodyWaits(data: Packet, n: nat, fields: Fields)
    requires n <= |data| < 0x8000_0000
    requires Get(fields, ContentLength).Some?
    requires var cl := Atoi(Get(fields, ContentLength).value); 0 <= cl < 0x8000_0000 && n + cl > |data|
    ensures BodyOf(data, n, fields) == Pending
  {
  }

  /** A negative Content-length no further back than the header start
      passes the unsigned test, and the copy of the body then throws. */
  lemma NegativeLengthThrows(data: Packet, n: nat, fields: Fields)
    requires n <= |data|
    requires Get(fields, ContentLength).Some?
    requires var cl := Atoi(Get(fields, ContentLength).value); 0 - n <= cl < 0
    ensures BodyOf(data, n, fields) == Broken
  {
  }
}
