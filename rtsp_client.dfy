/** The parts of the RTSP client (BaseClass/RTSPClient/RTSPClient.cpp)
    that decide where things go: the server address taken from an
    rtsp:// URL, the interleaved channel pair SETUP asks for per track
    and the track an incoming RTP frame is routed to by its channel.
    The client's receive loop is RtspFraming's, with the Client role. */
module RtspClient {
  import opened Bytes
  import opened CLib
  import opened RtspParser
  import opened RtspFraming
  import RtspServerSession

  const Prefix: Text := "rtsp://"

  /** The RTSP port of RFC 2326, used when the URL names none. */
  const DefaultPort := 554

  /** What AnalyzeUrl hands back: success, the server IP and the port. */
  datatype Address = Address(ok: bool, ip: Text, port: int)

  /** AnalyzeUrl (RTSPClient.cpp:276-300): the URL must start with
      "rtsp://"; the host is what follows up to the first '/', the IP is
      the host up to its first ':' and the port is atoi of the rest,
      stored into a uint16_t, or 554 when there is no ':'. */
  function AnalyzeUrl(url: Text): (r: Address)
    ensures r.ok <==> Prefix <= url
    ensures !r.ok ==> r == Address(false, "", DefaultPort)
    ensures 0 <= r.port < 0x1_0000
  {
    if Find(url, Prefix, 0) != 0 then Address(false, "", DefaultPort)
    else HostAddress(HostOf(url[|Prefix|..]))
  }

  /** The host part: up to the first '/'. */
  function HostOf(rest: Text): Text
  {
    var slash := Find(rest, "/", 0);
    if slash < 0 then rest else rest[..slash]
  }

  /** IP and port of a host part. */
  function HostAddress(host: Text): (r: Address)
    ensures r.ok && 0 <= r.port < 0x1_0000
  {
    var colon := Find(host, ":", 0);
    if colon < 0 then Address(true, host, DefaultPort)
    else Address(true, host[..colon], Wrap16(Atoi(host[colon + 1..])))
  }

  /** A URL that starts with "rtsp://" is read from its host part. */
  lemma AfterPrefix(rest: Text)
    ensures AnalyzeUrl(Prefix + rest) == HostAddress(HostOf(rest))
  {
    assert (Prefix + rest)[0..|Prefix|] == Prefix;
    assert (Prefix + rest)[|Prefix|..] == rest;
  }

  /** The text before the first ch, or all of it when there is none,
      holds no ch. */
  lemma BeforeFirst(s: Text, ch: char)
    ensures var e := Find(s, [ch], 0); Avoids(if e < 0 then s else s[..e], ch)
  {
    var e := Find(s, [ch], 0);
    FindFirst(s, [ch], 0);
    var t := if e < 0 then s else s[..e];
    forall j | 0 <= j < |t|
      ensures t[j] != ch
    {
      assert !At(s, [ch], j);
      assert s[j..j + 1] == [s[j]];
    }
  }

  /** The IP AnalyzeUrl finds holds neither '/' nor ':'. */
  lemma AnalyzedIp(url: Text)
    requires AnalyzeUrl(url).ok
    ensures Avoids(AnalyzeUrl(url).ip, '/') && Avoids(AnalyzeUrl(url).ip, ':')
  {
    var rest := url[|Prefix|..];
    var host := HostOf(rest);
    BeforeFirst(rest, '/');
    BeforeFirst(host, ':');
    var colon := Find(host, ":", 0);
    if colon >= 0 {
      forall j | 0 <= j < colon
        ensures host[..colon][j] != '/'
      {
        assert host[..colon][j] == host[j];
      }
    }
  }

  /** The host part of "host/path" with a host free of '/' is the host. */
  lemma HostBeforeSlash(host: Text, path: Text)
    requires Avoids(host, '/')
    ensures HostOf(host + "/" + path) == host
  {
    AvoidsFree(host, "/");
    FindAfterPiece(host, "/", path);
    assert (host + "/" + path)[..|host|] == host;
  }

  /** "ip:digits" with a plain IP gives that IP and the digits' value. */
  lemma HostWithPort(ip: Text, digits: Text)
    requires Avoids(ip, ':')
    ensures HostAddress(ip + ":" + digits) == Address(true, ip, Wrap16(Atoi(digits)))
  {
    var host := ip + ":" + digits;
    AvoidsFree(ip, ":");
    FindAfterPiece(ip, ":", digits);
    assert host[..|ip|] == ip;
    assert host[|ip| + 1..] == digits;
  }

  /** A URL written as rtsp://ip:port/path gives back that IP and port. */
  lemma AnalyzeUrlReads(ip: Text, port: nat, path: Text)
    requires Avoids(ip, '/') && Avoids(ip, ':') && port < 0x1_0000
    ensures AnalyzeUrl(Prefix + ip + ":" + Decimal(port) + "/" + path) == Address(true, ip, port)
  {
    RtspServerSession.DecimalAvoids(port, '/');
    AnalyzeUrlParts(ip, Decimal(port), path);
    AtoiDecimal(port, []);
    assert Decimal(port) + [] == Decimal(port);
  }

  /** Digits ahead of a path: the port is read from them. */
  lemma AnalyzeUrlParts(ip: Text, digits: Text, path: Text)
    requires Avoids(ip, '/') && Avoids(ip, ':') && Avoids(digits, '/')
    ensures AnalyzeUrl(Prefix + ip + ":" + digits + "/" + path) == Address(true, ip, Wrap16(Atoi(digits)))
  {
    HostParts(ip, digits, path);
    UrlOfHost(ip + ":" + digits, path);
    HostGroup(ip, digits, path);
  }

  lemma HostGroup(ip: Text, digits: Text, path: Text)
    ensures Prefix + (ip + ":" + digits) + "/" + path == Prefix + ip + ":" + digits + "/" + path
  {
  }

  /** rtsp://host/path is read from its host. */
  lemma UrlOfHost(host: Text, path: Text)
    ensures AnalyzeUrl(Prefix + host + "/" + path) == HostAddress(HostOf(host + "/" + path))
  {
    AfterPrefix(host + "/" + path);
    Regroup(Prefix, host, path);
  }

  /** The host of "ip:digits/path" and the address it gives. */
  lemma HostParts(ip: Text, digits: Text, path: Text)
    requires Avoids(ip, '/') && Avoids(ip, ':') && Avoids(digits, '/')
    ensures HostOf(ip + ":" + digits + "/" + path) == ip + ":" + digits
    ensures HostAddress(ip + ":" + digits) == Address(true, ip, Wrap16(Atoi(digits)))
  {
    AvoidsConcat(ip, ":", '/');
    AvoidsConcat(ip + ":", digits, '/');
    HostBeforeSlash(ip + ":" + digits, path);
    HostWithPort(ip, digits);
  }

  lemma Regroup(a: Text, host: Text, path: Text)
    ensures a + host + "/" + path == a + (host + "/" + path)
  {
  }

  /** Without a ':' the port is 554. */
  lemma AnalyzeUrlDefaultPort(ip: Text, path: Text)
    requires Avoids(ip, '/') && Avoids(ip, ':')
    ensures AnalyzeUrl(Prefix + ip + "/" + path) == Address(true, ip, DefaultPort)
  {
    assert Prefix + ip + "/" + path == Prefix + (ip + "/" + path);
    AfterPrefix(ip + "/" + path);
    HostBeforeSlash(ip, path);
    AvoidsFree(ip, ":");
    PiecesOfFree(ip, ":");
    assert Find(ip, ":", 0) < 0;
  }

  /** The client and the server read the same URL consistently: the
      client connects to the IP and port in it, and the server streams
      the resource it names. */
  lemma ClientAndServerAgree(ip: Text, port: nat, kind: Text, name: Text)
    requires Avoids(ip, '/') && Avoids(ip, ':') && Avoids(ip, '?') && port < 0x1_0000
    requires Avoids(kind, '/') && Avoids(kind, '?') && kind != []
    requires Avoids(name, '/') && Avoids(name, '?') && name != []
    ensures var url := Prefix + ip + ":" + Decimal(port) + "/" + kind + "/" + name;
            var t := RtspServerSession.Dissect(url);
            AnalyzeUrl(url) == Address(true, ip, port) &&
            t.kind == Some(kind) && t.query.None? &&
            t.resource == (if kind == "device" then Some("/dev/" + name)
                           else if kind == "file" then Some(name) else None)
  {
    ClientReads(ip, port, kind, name);
    ServerReads(ip, Decimal(port), kind, name);
  }

  /** The client's half of ClientAndServerAgree. */
  lemma ClientReads(ip: Text, port: nat, kind: Text, name: Text)
    requires Avoids(ip, '/') && Avoids(ip, ':') && port < 0x1_0000
    ensures AnalyzeUrl(Prefix + ip + ":" + Decimal(port) + "/" + kind + "/" + name) == Address(true, ip, port)
  {
    UrlGroups(ip, Decimal(port), kind, name);
    AnalyzeUrlReads(ip, port, kind + "/" + name);
  }

  /** The server's half of ClientAndServerAgree, for any port digits. */
  lemma ServerReads(ip: Text, digits: Text, kind: Text, name: Text)
    requires Avoids(ip, '/') && Avoids(ip, '?') && Avoids(digits, '/') && Avoids(digits, '?')
    requires Avoids(kind, '/') && Avoids(kind, '?') && kind != []
    requires Avoids(name, '/') && Avoids(name, '?') && name != []
    ensures var t := RtspServerSession.Dissect(Prefix + ip + ":" + digits + "/" + kind + "/" + name);
            t.kind == Some(kind) && t.query.None? &&
            t.resource == (if kind == "device" then Some("/dev/" + name)
                           else if kind == "file" then Some(name) else None)
  {
    UrlGroups(ip, digits, kind, name);
    AvoidsConcat(ip, ":", '/');
    AvoidsConcat(ip + ":", digits, '/');
    AvoidsConcat(ip, ":", '?');
    AvoidsConcat(ip + ":", digits, '?');
    RtspServerSession.DissectReads(ip + ":" + digits, kind, name, None);
  }

  /** The URL of ClientAndServerAgree, grouped as each side reads it. */
  lemma UrlGroups(ip: Text, digits: Text, kind: Text, name: Text)
    ensures Prefix + ip + ":" + digits + "/" + kind + "/" + name ==
            Prefix + ip + ":" + digits + "/" + (kind + "/" + name)
    ensures Prefix + ip + ":" + digits + "/" + kind + "/" + name ==
            "rtsp://" + (ip + ":" + digits + "/" + kind + "/" + name) + RtspServerSession.QueryPart(None)
  {
    assert RtspServerSession.QueryPart(None) == [];
  }

  /** The track of an interleaved frame: (msg[1] >> 1) + 1
      (RTSPClient.cpp:671). */
  function TrackOf(channel: byte): (t: int)
    ensures 1 <= t <= 128
    ensures t == channel as int / 2 + 1
  {
    (channel >> 1) as int + 1
  }

  /** The interleaved channels SETUP over TCP asks for: (trackid - 1) << 1
      for RTP and the next for RTCP (RTSPClient.cpp:1152-1157). */
  function Channels(trackid: int): (int, int)
  {
    var id := (trackid - 1) * 2;
    (id, id + 1)
  }

  /** Every track up to 128 gets a channel pair that fits the frame's
      channel byte, is read back as that track, and has the parity the
      client's framing expects: even for RTP, odd for RTCP. */
  lemma ChannelsMapBack(trackid: int)
    requires 1 <= trackid <= 128
    ensures var (rtp, rtcp) := Channels(trackid);
            0 <= rtp < rtcp < 256 &&
            TrackOf(rtp as byte) == trackid && TrackOf(rtcp as byte) == trackid &&
            (rtp as byte) % 2 == 0 && (rtcp as byte) % 2 == 1
  {
    var (rtp, rtcp) := Channels(trackid);
    ByteValue(rtp);
    ByteValue(rtcp);
    ParityOf(rtp as byte);
    ParityOf(rtcp as byte);
  }

  /** A byte's remainder mod 2 is that of its value. */
  lemma ParityOf(b: byte)
    ensures (b % 2) as int == (b as int) % 2
  {
  }

  /** Where OnRecvRtp passes a frame. */
  datatype Delivery = Video(payload: Packet) | Audio(payload: Packet)

  /** OnRecvRtp's routing (RTSPClient.cpp:669-686): the frame minus its
      4-byte prefix goes to the video or the audio track its channel
      names; a frame of any other track is refused. */
  function Route(msg: Packet, videoTrack: int, audioTrack: int): (r: Option<Delivery>)
    requires |msg| >= 4
    ensures r.Some? <==> TrackOf(msg[1]) == videoTrack || TrackOf(msg[1]) == audioTrack
    ensures r.Some? ==> r.value.payload == msg[4..]
    ensures r.Some? && r.value.Audio? ==> TrackOf(msg[1]) != videoTrack
  {
    var t := TrackOf(msg[1]);
    if t == videoTrack then Some(Video(msg[4..]))
    else if t == audioTrack then Some(Audio(msg[4..]))
    else None
  }

  /** The frame the server sends for a packet reaches the client whole,
      ahead of whatever follows it, and a client whose video is track 1
      hands the packet itself to its video path. */
  lemma ServerFrameReachesClient(p: Packet, tail: Packet, audioTrack: int)
    requires 0 < |p| < 0x1_0000 && audioTrack != 1
    ensures var f := RtspServerSession.TcpFrame(p);
            var d := Drain(Client, tail);
            Drain(Client, f + tail) == Drained(d.rest, [RtpFrame(f)] + d.events, d.ok) &&
            Route(f, 1, audioTrack) == Some(Video(p))
  {
    var f := RtspServerSession.TcpFrame(p);
    DrainFrontFrame(Client, f, tail);
  }

  /** The client's receiving state: the track IDs its DESCRIBE exchange
      set and what OnRecvVideo and OnRecvAudio were handed. */
  class Client {
    var videoTrack: int
    var audioTrack: int
    var delivered: seq<Delivery>

    /** A client whose DESCRIBE exchange set the two track IDs; the
        constructor itself leaves both at -1 (RTSPClient.cpp:37-38). */
    constructor (videoTrack: int, audioTrack: int)
      ensures this.videoTrack == videoTrack && this.audioTrack == audioTrack && delivered == []
    {
      this.videoTrack, this.audioTrack := videoTrack, audioTrack;
      delivered := [];
    }

    /** OnRecvRtp (RTSPClient.cpp:669-686). */
    method OnRecvRtp(msg: Packet) returns (ret: int)
      requires |msg| >= 4
      modifies this`delivered
      ensures var r := Route(msg, videoTrack, audioTrack);
              && ret == (if r.Some? then 0 else -1)
              && delivered == old(delivered) + (if r.Some? then [r.value] else [])
    {
      var trackId := (msg[1] >> 1) as int + 1;
      if trackId == videoTrack {
        delivered := delivered + [Video(msg[4..])];
      } else if trackId == audioTrack {
        delivered := delivered + [Audio(msg[4..])];
      } else {
        return -1;
      }
      ret := 0;
    }
  }

  /** IsRtspRequestMsg of the client as written (RTSPClient.cpp:362-377):
      strcmp compares the whole C string, so only a text that is exactly
      a method word and a space, up to a NUL, passes. */
  predicate IsRtspRequestMsgAsWritten(data: Packet)
  {
    exists i :: 0 <= i < |RequestWords| && CString(TextOf(data)) == RequestWords[i]
  }

  /** The RTSP part of the client's HandleMsg pass with that test
      (RTSPClient.cpp:502-605). */
  function RtspActionAsWritten(data: Packet): (a: Action)
    requires |data| > 4
  {
    if |data| < 19 then Wait
    else if IsRtspResponseMsg(data) then
      match HeaderEnd(data)
      case None => Wait
      case Some(n) => ResponseAction(data, n)
    else if IsRtspRequestMsgAsWritten(data) then
      match HeaderEnd(data)
      case None => Wait
      case Some(n) => RequestAction(data, n)
    else Drop
  }

  /** A C string is at least as long as the run of non-NUL characters it
      starts with. */
  lemma {:induction false} CStringAtLeast(t: Text, k: nat)
    requires k <= |t| && forall j :: 0 <= j < k ==> t[j] != '\0'
    ensures |CString(t)| >= k
  {
    if k > 0 {
      CStringAtLeast(t[1..], k - 1);
    }
  }

  /** No method word is longer than 14 characters. */
  lemma WordsShort()
    ensures forall i :: 0 <= i < |RequestWords| ==> |RequestWords[i]| <= 14
  {
  }

  /** A request of 19 bytes or more without a NUL among its first 19, as
      every request the writer produces is, fails the client's strcmp
      test, so the client clears its whole buffer instead of handling
      the request; the prefix test the server uses recognises it. */
  lemma RequestDroppedAsWritten(data: Packet, i: int)
    requires 0 <= i < |RequestWords| && |data| >= 19
    requires RequestWords[i] <= TextOf(data)
    requires forall j :: 0 <= j < 19 ==> data[j] != 0
    ensures !IsRtspRequestMsgAsWritten(data) && RtspActionAsWritten(data) == Drop
    ensures IsRtspRequestMsg(data) && RtspAction(data) != Drop
  {
    var t := TextOf(data);
    CStringAtLeast(t, 19);
    WordsShort();
    NotResponse(data, i);
    var w := RequestWords[i];
    assert w <= CString(t) by {
      assert CString(t) <= t;
      forall j | 0 <= j < |w|
        ensures CString(t)[j] == w[j]
      {
        assert t[j] == w[j];
      }
    }
  }

  /** A text that starts with a method word does not start with
      "RTSP/1.0 ". */
  lemma NotResponse(data: Packet, i: int)
    requires 0 <= i < |RequestWords| && |data| >= 19
    requires RequestWords[i] <= TextOf(data)
    ensures !IsRtspResponseMsg(data)
  {
    var w := RequestWords[i];
    var t := TextOf(data);
    assert t[0] == w[0] && t[1] == w[1];
    assert TextOf(data[..9])[0] == t[0] && TextOf(data[..9])[1] == t[1];
  }

  /** The prefix test recognises every text that starts with a method
      word, whatever follows it. */
  lemma RequestRecognised(data: Packet, i: int)
    requires 0 <= i < |RequestWords|
    requires RequestWords[i] <= TextOf(data)
    ensures IsRtspRequestMsg(data)
  {
    var w := RequestWords[i];
    var t := TextOf(data);
    forall j | 0 <= j < |w|
      ensures t[j] != '\0'
    {
      assert t[j] == w[j];
    }
    CStringAtLeast(t, |w|);
    assert w <= CString(t) by {
      forall j | 0 <= j < |w|
        ensures CString(t)[j] == w[j]
      {
        assert t[j] == w[j];
      }
    }
  }
}
