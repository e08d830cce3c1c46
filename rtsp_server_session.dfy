/** The settings and request-target logic of one RTSP server session
    (BaseClass/RTSPServer/RTSPServerSession.cpp): the video type,
    resolution and frame rate a client may ask for in the query part of
    its DESCRIBE URL, and the dissection of that URL into the resource the
    session streams ("rtsp://host/device/video0" is the capture device
    /dev/video0, "rtsp://host/file/name" a file). The framing of the bytes
    the session receives is RtspFraming's, with the Server role. */
module RtspServerSession {
  import opened Bytes
  import opened CLib
  import opened RtspParser
  import opened RtspFields
  import opened RtspMessage
  import opened RtspFraming

  /** VideoType: the two encodings a session can stream. */
  datatype VideoType = H264 | Mjpg

  /** The stream settings a session keeps. */
  datatype Settings = Settings(video: VideoType, width: int, height: int, fps: int)

  /** The settings the constructor gives (RTSPServerSession.cpp:33-36). */
  const Defaults := Settings(H264, 1280, 720, 25)

  /** SetVideoType's choice: "mpeg" is MJPEG, everything else H.264. */
  function VideoNamed(t: Text): (v: VideoType)
    ensures v == Mjpg <==> t == "mpeg"
  {
    if t == "mpeg" then Mjpg else H264
  }

  /** SetResolution (RTSPServerSession.cpp:586-608): "W*H" with both
      numbers positive; -1 when the text is not two pieces around '*',
      -2 when a number is not positive, and then nothing changes. */
  function Resized(s: Settings, t: Text): (r: (int, Settings))
    ensures r.0 == 0 <==> var p := Pieces(t, "*"); |p| == 2 && Atoi(p[0]) > 0 && Atoi(p[1]) > 0
    ensures r.0 == -1 <==> |Pieces(t, "*")| != 2
    ensures r.0 == 0 || r.0 == -1 || r.0 == -2
    ensures r.0 != 0 ==> r.1 == s
    ensures r.0 == 0 ==> r.1.width > 0 && r.1.height > 0 && r.1.video == s.video && r.1.fps == s.fps
  {
    var p := Pieces(t, "*");
    if |p| != 2 then (-1, s)
    else
      var w := Atoi(p[0]);
      var h := Atoi(p[1]);
      if w <= 0 || h <= 0 then (-2, s)
      else (0, s.(width := w, height := h))
  }

  /** SetFps (RTSPServerSession.cpp:610-622): a positive number, else -1
      and nothing changes. */
  function Paced(s: Settings, t: Text): (r: (int, Settings))
    ensures r.0 == 0 <==> Atoi(t) > 0
    ensures r.0 == 0 || r.0 == -1
    ensures r.0 == 0 ==> r.1 == s.(fps := Atoi(t))
    ensures r.0 != 0 ==> r.1 == s
  {
    var f := Atoi(t);
    if f <= 0 then (-1, s) else (0, s.(fps := f))
  }

  /** One "key=value" item of the query (RTSPServerSession.cpp:633-645):
      an item that is not two pieces around '=' or names another key
      changes nothing. */
  function Item(s: Settings, item: Text): (r: Settings)
    ensures var kv := Pieces(item, "=");
            |kv| != 2 || (kv[0] != "image" && kv[0] != "resolution" && kv[0] != "fps") ==> r == s
  {
    var kv := Pieces(item, "=");
    if |kv| != 2 then s
    else if kv[0] == "image" then s.(video := VideoNamed(kv[1]))
    else if kv[0] == "resolution" then Resized(s, kv[1]).1
    else if kv[0] == "fps" then Paced(s, kv[1]).1
    else s
  }

  /** The items applied in order, the last one first peeled off. */
  function Items(s: Settings, items: seq<Text>): Settings
  {
    if items == [] then s else Item(Items(s, items[..|items| - 1]), items[|items| - 1])
  }

  /** ParseExtendedParame (RTSPServerSession.cpp:624-650): the query cut
      at '&' and every item applied. */
  function Extended(s: Settings, query: Text): Settings
  {
    if query == "" then s else Items(s, Pieces(query, "&"))
  }

  /** Applying two runs of items one after the other. */
  lemma {:induction false} ItemsConcat(s: Settings, a: seq<Text>, b: seq<Text>)
    ensures Items(s, a + b) == Items(Items(s, a), b)
    decreases |b|
  {
    if b == [] {
      assert a + b == a;
    } else {
      var ab := a + b;
      assert ab[..|ab| - 1] == a + b[..|b| - 1];
      ItemsConcat(s, a, b[..|b| - 1]);
    }
  }

  /** Items the session does not know leave the settings alone: the
      query may carry parameters meant for someone else. */
  lemma {:induction false} ForeignItems(s: Settings, items: seq<Text>)
    requires forall i :: 0 <= i < |items| ==> var kv := Pieces(items[i], "=");
               |kv| != 2 || (kv[0] != "image" && kv[0] != "resolution" && kv[0] != "fps")
    ensures Items(s, items) == s
    decreases |items|
  {
    if items != [] {
      ForeignItems(s, items[..|items| - 1]);
    }
  }

  /** Of two items for the same key, the later wins. */
  lemma LaterItemWins(s: Settings, items: seq<Text>, f: nat, g: nat)
    requires f > 0 && g > 0
    ensures Items(s, items + ["fps=" + Decimal(f), "fps=" + Decimal(g)]) == Items(s, items).(fps := g)
  {
    var x := "fps=" + Decimal(f);
    var y := "fps=" + Decimal(g);
    ItemsConcat(s, items, [x, y]);
    ItemsPair(Items(s, items), x, y);
    FpsItem(Items(s, items), f);
    FpsItem(Items(s, items).(fps := f), g);
  }

  /** The item "fps=F" sets the frame rate to F. */
  lemma FpsItem(s: Settings, f: nat)
    requires f > 0
    ensures Item(s, "fps=" + Decimal(f)) == s.(fps := f)
  {
    assert "fps=" + Decimal(f) == "fps" + "=" + Decimal(f);
    KeyValue("fps", Decimal(f));
    AtoiDecimal(f, []);
    assert Decimal(f) + [] == Decimal(f);
  }

  /** A key and a value without '=' split back into the two. */
  lemma KeyValue(k: Text, v: Text)
    requires Avoids(k, '=') && Avoids(v, '=') && v != []
    ensures Pieces(k + "=" + v, "=") == [k, v]
  {
    AvoidsFree(k, "=");
    AvoidsFree(v, "=");
    PiecesAfterPiece(k, "=", v);
    PiecesOfFree(v, "=");
  }

  /** Decimal digits avoid every character that is not a digit. */
  lemma DecimalAvoids(n: nat, ch: char)
    requires !IsDigit(ch)
    ensures Avoids(Decimal(n), ch)
  {
  }

  /** The query "image=mpeg&resolution=W*H&fps=F" a client writes. */
  function ClientQuery(w: nat, h: nat, f: nat): Text
  {
    Join(["image=mpeg", "resolution=" + Decimal(w) + "*" + Decimal(h), "fps=" + Decimal(f)], "&")
  }

  /** ClientQuery sets MJPEG at W by H pixels and F frames a second. */
  lemma QueryReads(s: Settings, w: nat, h: nat, f: nat)
    requires w > 0 && h > 0 && f > 0
    ensures Extended(s, ClientQuery(w, h, f)) == Settings(Mjpg, w, h, f)
  {
    var a := "image=mpeg";
    var b := "resolution=" + Decimal(w) + "*" + Decimal(h);
    var c := "fps=" + Decimal(f);
    QueryPieces(a, b, c, w, h, f);
    assert ClientQuery(w, h, f) != "";
    var s1 := s.(video := Mjpg);
    var s2 := s1.(width := w, height := h);
    ItemsTriple(s, a, b, c);
    ImageItem(s);
    ResolutionItem(s1, w, h);
    FpsItem(s2, f);
  }

  /** The three items of ClientQuery are the pieces of the query. */
  lemma QueryPieces(a: Text, b: Text, c: Text, w: nat, h: nat, f: nat)
    requires a == "image=mpeg" && b == "resolution=" + Decimal(w) + "*" + Decimal(h)
    requires c == "fps=" + Decimal(f)
    ensures Pieces(Join([a, b, c], "&"), "&") == [a, b, c]
  {
    DecimalAvoids(w, '&');
    DecimalAvoids(h, '&');
    DecimalAvoids(f, '&');
    AvoidsConcat("resolution=", Decimal(w), '&');
    AvoidsConcat("resolution=" + Decimal(w), "*", '&');
    AvoidsConcat("resolution=" + Decimal(w) + "*", Decimal(h), '&');
    AvoidsConcat("fps=", Decimal(f), '&');
    AvoidsFree(a, "&");
    AvoidsFree(b, "&");
    AvoidsFree(c, "&");
    PiecesOfJoin([a, b, c], "&");
  }

  lemma ItemsPair(s: Settings, x: Text, y: Text)
    ensures Items(s, [x, y]) == Item(Item(s, x), y)
  {
    assert [x, y][..1] == [x];
    assert [x][..0] == [];
    assert Items(s, [x]) == Item(s, x);
  }

  lemma ItemsTriple(s: Settings, x: Text, y: Text, z: Text)
    ensures Items(s, [x, y, z]) == Item(Item(Item(s, x), y), z)
  {
    assert [x, y, z][..2] == [x, y];
    ItemsPair(s, x, y);
  }

  /** The item "image=mpeg" selects MJPEG. */
  lemma ImageItem(s: Settings)
    ensures Item(s, "image=mpeg") == s.(video := Mjpg)
  {
    assert "image=mpeg" == "image" + "=" + "mpeg";
    KeyValue("image", "mpeg");
  }

  /** The item "resolution=W*H" sets that resolution. */
  lemma ResolutionItem(s: Settings, w: nat, h: nat)
    requires w > 0 && h > 0
    ensures Item(s, "resolution=" + Decimal(w) + "*" + Decimal(h)) == s.(width := w, height := h)
  {
    var size := Decimal(w) + "*" + Decimal(h);
    assert "resolution=" + Decimal(w) + "*" + Decimal(h) == "resolution" + "=" + size;
    DecimalAvoids(w, '=');
    DecimalAvoids(h, '=');
    AvoidsConcat(Decimal(w), "*", '=');
    AvoidsConcat(Decimal(w) + "*", Decimal(h), '=');
    KeyValue("resolution", size);
    ResolutionReads(s, w, h);
  }

  /** "W*H" with positive numbers is that resolution. */
  lemma ResolutionReads(s: Settings, w: nat, h: nat)
    requires w > 0 && h > 0
    ensures Resized(s, Decimal(w) + "*" + Decimal(h)) == (0, s.(width := w, height := h))
  {
    DecimalAvoids(w, '*');
    DecimalAvoids(h, '*');
    AvoidsFree(Decimal(w), "*");
    AvoidsFree(Decimal(h), "*");
    PiecesAfterPiece(Decimal(w), "*", Decimal(h));
    PiecesOfFree(Decimal(h), "*");
    AtoiDecimal(w, []);
    AtoiDecimal(h, []);
    assert Decimal(w) + [] == Decimal(w);
    assert Decimal(h) + [] == Decimal(h);
  }

  /** What HandleDescribeRequest makes of a request URL
      (RTSPServerSession.cpp:669-725): its result code, the query it
      hands to ParseExtendedParame, the resource type it records and the
      resource it will open. */
  datatype Target = Target(code: int, query: Option<Text>, kind: Option<Text>, resource: Option<Text>)

  const Scheme: Text := "://"

  /** The URL is cut at "://" into exactly the scheme "rtsp" and the rest
      (-1, -2); the rest is cut at '?' and, when that gives two pieces,
      the second is the query; the part before the '?' must be three
      pieces around '/' (-3): the host, the resource type and the name.
      The type is recorded even when it is neither "device" (the name is
      a device under /dev/) nor "file" (-4). */
  function Dissect(url: Text): (t: Target)
    ensures t.code in {0, -1, -2, -3, -4}
    ensures t.code == 0 <==> t.resource.Some?
    ensures t.code == 0 || t.code == -4 <==> t.kind.Some?
    ensures t.code == -1 || t.code == -2 ==> t.query.None?
    ensures t.code == -1 <==> |Pieces(url, Scheme)| != 2
    ensures t.code == 0 ==> (t.kind == Some("device") && |t.resource.value| >= 5 && t.resource.value[..5] == "/dev/") ||
                            t.kind == Some("file")
    ensures t.code == -4 ==> t.kind.value != "device" && t.kind.value != "file"
  {
    var temp := Pieces(url, Scheme);
    if |temp| != 2 then Target(-1, None, None, None)
    else if temp[0] != "rtsp" then Target(-2, None, None, None)
    else
      var q := Pieces(temp[1], "?");
      var path := if q == [] then [] else q[0];
      var query := if |q| == 2 then Some(q[1]) else None;
      var parts := Pieces(path, "/");
      if |parts| != 3 then Target(-3, query, None, None)
      else if parts[1] == "device" then Target(0, query, Some(parts[1]), Some("/dev/" + parts[2]))
      else if parts[1] == "file" then Target(0, query, Some(parts[1]), Some(parts[2]))
      else Target(-4, query, Some(parts[1]), None)
  }

  /** The first of two or more pieces is the text before the first
      occurrence of the separator. */
  lemma LeadingPiece(src: Text, c: Text)
    requires |c| > 0 && |Pieces(src, c)| >= 2
    ensures var p := Pieces(src, c)[0];
            |p| + |c| <= |src| && src[..|p|] == p && src[|p|..|p| + |c|] == c
  {
    var e := Find(src, c, 0);
    assert e >= 0;
    assert At(src, c, e);
  }

  /** Every URL the session accepts past the scheme checks starts with
      "rtsp://". */
  lemma AcceptedScheme(url: Text)
    requires Dissect(url).code !in {-1, -2}
    ensures |url| >= 7 && url[..7] == "rtsp://"
  {
    LeadingPiece(url, Scheme);
    assert url[..7] == url[..4] + url[4..7];
  }

  /** host/kind/name with no '/' inside any of the three and a kind that
      is not empty has no two slashes in a row, so no "://". */
  lemma PathHasNoScheme(host: Text, kind: Text, name: Text)
    requires Avoids(host, '/') && Avoids(kind, '/') && Avoids(name, '/') && kind != [] && name != []
    ensures !Contains(host + "/" + kind + "/" + name, Scheme)
  {
    var p := host + "/" + kind + "/" + name;
    var m := |host| + 1 + |kind|;
    forall i | 0 <= i < |p|
      ensures p[i] == '/' ==> i == |host| || i == m
    {
      if i < |host| {
        assert p[i] == host[i];
      } else if |host| < i < m {
        assert p[i] == kind[i - |host| - 1];
      } else if i > m {
        assert p[i] == name[i - m - 1];
      }
    }
    forall i | 0 <= i && i + 3 <= |p|
      ensures !At(p, Scheme, i)
    {
      assert p[i..i + 3][1] == p[i + 1];
      assert p[i..i + 3][2] == p[i + 2];
    }
  }

  /** A URL written as rtsp://host/kind/name, optionally followed by
      '?' and a query, dissects back into its parts. */
  lemma DissectReads(host: Text, kind: Text, name: Text, query: Option<Text>)
    requires Avoids(host, '/') && Avoids(kind, '/') && Avoids(name, '/') && kind != [] && name != []
    requires Avoids(host, '?') && Avoids(kind, '?') && Avoids(name, '?')
    requires query.Some? ==> query.value != [] && Avoids(query.value, '?') && !Contains(query.value, Scheme)
    ensures var path := host + "/" + kind + "/" + name;
            var url := "rtsp://" + path + QueryPart(query);
            var t := Dissect(url);
            t.query == query && t.code == (if kind == "device" || kind == "file" then 0 else -4) &&
            t.kind == Some(kind) &&
            t.resource == (if kind == "device" then Some("/dev/" + name) else if kind == "file" then Some(name) else None)
  {
    var path := host + "/" + kind + "/" + name;
    var rest := path + QueryPart(query);
    var url := "rtsp://" + path + QueryPart(query);
    assert url == "rtsp" + Scheme + rest;
    AvoidsFree("rtsp", Scheme);
    PiecesAfterPiece("rtsp", Scheme, rest);
    RestHasNoScheme(host, kind, name, query);
    PiecesOfFree(rest, Scheme);
    assert Pieces(url, Scheme) == ["rtsp", rest];
    PathPieces(host, kind, name, query);
    SlashPieces(host, kind, name);
  }

  /** The '?' and query that may follow the path of a URL. */
  function QueryPart(query: Option<Text>): Text
  {
    if query.Some? then "?" + query.value else ""
  }

  /** The text after "rtsp://" holds no further "://". */
  lemma RestHasNoScheme(host: Text, kind: Text, name: Text, query: Option<Text>)
    requires Avoids(host, '/') && Avoids(kind, '/') && Avoids(name, '/') && kind != [] && name != []
    requires query.Some? ==> query.value != [] && !Contains(query.value, Scheme)
    ensures !Contains(host + "/" + kind + "/" + name + QueryPart(query), Scheme)
  {
    var path := host + "/" + kind + "/" + name;
    PathHasNoScheme(host, kind, name);
    if query.Some? {
      var v := query.value;
      var r := path + ("?" + v);
      forall i | 0 <= i && i + 3 <= |r|
        ensures !At(r, Scheme, i)
      {
        if i + 3 <= |path| {
          assert r[i..i + 3] == path[i..i + 3];
          assert !At(path, Scheme, i);
        } else if i > |path| {
          assert r[i..i + 3] == v[i - |path| - 1..i - |path| + 2];
          assert !At(v, Scheme, i - |path| - 1);
        } else {
          assert r[i..i + 3][|path| - i] == r[|path|];
        }
      }
      assert path + QueryPart(query) == r;
    } else {
      assert path + [] == path;
    }
  }

  /** Cutting the rest at '?' gives the path and then the query. */
  lemma PathPieces(host: Text, kind: Text, name: Text, query: Option<Text>)
    requires Avoids(host, '?') && Avoids(kind, '?') && Avoids(name, '?') && name != []
    requires query.Some? ==> query.value != [] && Avoids(query.value, '?')
    ensures var path := host + "/" + kind + "/" + name;
            Pieces(path + QueryPart(query), "?") ==
            [path] + (if query.Some? then [query.value] else [])
  {
    var path := host + "/" + kind + "/" + name;
    AvoidsConcat(host, "/", '?');
    AvoidsConcat(host + "/", kind, '?');
    AvoidsConcat(host + "/" + kind, "/", '?');
    AvoidsConcat(host + "/" + kind + "/", name, '?');
    AvoidsFree(path, "?");
    if query.Some? {
      AvoidsFree(query.value, "?");
      PiecesAfterPiece(path, "?", query.value);
      PiecesOfFree(query.value, "?");
      assert path + ("?" + query.value) == path + "?" + query.value;
    } else {
      PiecesOfFree(path, "?");
      assert path + [] == path;
    }
  }

  /** Cutting the path at '/' gives host, kind and name. */
  lemma SlashPieces(host: Text, kind: Text, name: Text)
    requires Avoids(host, '/') && Avoids(kind, '/') && Avoids(name, '/') && name != []
    ensures Pieces(host + "/" + kind + "/" + name, "/") == [host, kind, name]
  {
    AvoidsFree(host, "/");
    AvoidsFree(kind, "/");
    AvoidsFree(name, "/");
    assert host + "/" + kind + "/" + name == host + "/" + (kind + "/" + name);
    PiecesAfterPiece(host, "/", kind + "/" + name);
    PiecesAfterPiece(kind, "/", name);
    PiecesOfFree(name, "/");
  }

  /** MakeSdp (RTSPServerSession.cpp:1012-1027, 1095-1098): a file
      resource yields an empty description at once; a device's
      description comes from the capture device, given here as
      deviceSdp (None when the device cannot be read). */
  function MadeSdp(kind: Text, deviceSdp: Option<Text>): (r: Option<Text>)
    ensures kind == "file" ==> r == Some("")
    ensures kind != "file" && kind != "device" ==> r.None?
  {
    if kind == "device" then deviceSdp
    else if kind == "file" then Some("")
    else None
  }

  /** The response HandleDescribeRequest sends (RTSPServerSession.cpp:
      655-743): CSeq and Session copied from the request, 400 with the
      reason of the failure, or 200 with the description as content. */
  function DescribeResponse(req: Request, code: int, sdp: Text): (rsp: Response)
    ensures rsp.version == "RTSP/1.0"
    ensures rsp.code == (if code == 0 then "200" else "400")
    ensures code == 0 ==> rsp.content == sdp
    ensures code != 0 ==> rsp.content == []
  {
    var f0: Fields := [];
    var cseq := Get(req.fields, "CSeq");
    var f1 := if cseq.Some? then Put(f0, "CSeq", cseq.value) else f0;
    var session := Get(req.fields, "Session");
    var f2 := if session.Some? then Put(f1, "Session", session.value) else f1;
    if code == 0 then Response("RTSP/1.0", "200", "OK", Put(f2, ContentType, "application/sdp"), sdp)
    else if code == -4 then Response("RTSP/1.0", "400", "not support resouce type", f2, [])
    else if code == -5 then Response("RTSP/1.0", "400", "Resource Not Reachable", f2, [])
    else Response("RTSP/1.0", "400", "Bad Request", f2, [])
  }

  /** A response always carries the request's sequence number back. */
  lemma ResponseEchoesCSeq(req: Request, code: int, sdp: Text)
    requires Ordered(req.fields)
    ensures Get(DescribeResponse(req, code, sdp).fields, "CSeq") == Get(req.fields, "CSeq")
  {
    var cseq := Get(req.fields, "CSeq");
    var f0: Fields := [];
    var f1 := if cseq.Some? then Put(f0, "CSeq", cseq.value) else f0;
    if cseq.Some? {
      PutGet(f0, "CSeq", cseq.value, "CSeq");
      PutOrdered(f0, "CSeq", cseq.value);
    }
    var session := Get(req.fields, "Session");
    var f2 := if session.Some? then Put(f1, "Session", session.value) else f1;
    if session.Some? {
      PutGet(f1, "Session", session.value, "CSeq");
      PutOrdered(f1, "Session", session.value);
    }
    if code == 0 {
      PutGet(f2, ContentType, "application/sdp", "CSeq");
    }
  }

  /** An RTSPServerSession's stream settings and resource. */
  class Session {
    var video: VideoType
    var width: int
    var height: int
    var fps: int
    var resourceType: Text
    var resource: Text

    function Current(): Settings
      reads this
    {
      Settings(video, width, height, fps)
    }

    /** The constructor's settings (RTSPServerSession.cpp:21-57). */
    constructor ()
      ensures Current() == Defaults && resourceType == [] && resource == []
    {
      video, width, height, fps := H264, 1280, 720, 25;
      resourceType, resource := [], [];
    }

    /** SetVideoType (RTSPServerSession.cpp:575-584). */
    method SetVideoType(t: Text) returns (ret: int)
      modifies this`video
      ensures ret == 0 && video == VideoNamed(t)
    {
      video := if t == "mpeg" then Mjpg else if t == "h264" then H264 else H264;
      ret := 0;
    }

    /** SetResolution (RTSPServerSession.cpp:586-608). */
    method SetResolution(resolution: Text) returns (ret: int)
      modifies this`width, this`height
      ensures (ret, Current()) == Resized(old(Current()), resolution)
    {
      var temp := Split(resolution, "*");
      if |temp| != 2 {
        return -1;
      }
      var w := Atoi(temp[0]);
      var h := Atoi(temp[1]);
      if w <= 0 || h <= 0 {
        return -2;
      }
      width, height := w, h;
      ret := 0;
    }

    /** SetFps (RTSPServerSession.cpp:610-622). */
    method SetFps(t: Text) returns (ret: int)
      modifies this`fps
      ensures (ret, Current()) == Paced(old(Current()), t)
    {
      var f := Atoi(t);
      if f <= 0 {
        return -1;
      }
      fps := f;
      ret := 0;
    }

    /** ParseExtendedParame (RTSPServerSession.cpp:624-650): a failing
        item is logged and skipped, so the result is always 0. */
    method ParseExtendedParame(query: Text) returns (ret: int)
      modifies this`video, this`width, this`height, this`fps
      ensures ret == 0 && Current() == Extended(old(Current()), query)
    {
      if query != "" {
        var param := Split(query, "&");
        for i := 0 to |param|
          invariant Current() == Items(old(Current()), param[..i])
        {
          var item := param[i];
          assert param[..i + 1][..i] == param[..i];
          var temp := Split(item, "=");
          if |temp| == 2 {
            var r;
            if temp[0] == "image" {
              r := SetVideoType(temp[1]);
            } else if temp[0] == "resolution" {
              r := SetResolution(temp[1]);
            } else if temp[0] == "fps" {
              r := SetFps(temp[1]);
            } else {
              r := -999;
            }
          }
        }
        assert param[..|param|] == param;
      }
      ret := 0;
    }

    /** HandleDescribeRequest (RTSPServerSession.cpp:652-754). The
        description of a device comes in as deviceSdp and whether the
        response could be written to the socket as sent. */
    method HandleDescribeRequest(req: Request, deviceSdp: Option<Text>, sent: bool)
      returns (ret: int, rsp: Response)
      modifies this
      ensures var t := Dissect(req.url);
              var sdp := if t.code == 0 then MadeSdp(t.kind.value, deviceSdp) else None;
              var code := if t.code == 0 && sdp.None? then -5 else t.code;
              && ret == (if sent then code else -5)
              && rsp == DescribeResponse(req, code, if sdp.Some? then sdp.value else [])
              && Current() == (if t.query.Some? then Extended(old(Current()), t.query.value) else old(Current()))
              && resourceType == (if t.kind.Some? then t.kind.value else old(resourceType))
              && resource == (if t.resource.Some? then t.resource.value else old(resource))
    {
      var t := Dissect(req.url);
      if t.query.Some? {
        var _ := ParseExtendedParame(t.query.value);
      }
      if t.kind.Some? {
        resourceType := t.kind.value;
      }
      if t.resource.Some? {
        resource := t.resource.value;
      }
      var code := t.code;
      var sdp: Text := [];
      if code == 0 {
        var made := MadeSdp(resourceType, deviceSdp);
        if made.None? {
          code := -5;
        } else {
          sdp := made.value;
        }
      }
      rsp := DescribeResponse(req, code, sdp);
      ret := if sent then code else -5;
    }
  }

  /** A DESCRIBE for a capture device, with a query, leaves the session
      streaming /dev/name with the settings the query names. */
  lemma DescribeDevice(host: Text, name: Text, s: Settings, w: nat, h: nat, f: nat)
    requires Avoids(host, '/') && Avoids(host, '?') && Avoids(name, '/') && Avoids(name, '?') && name != []
    requires w > 0 && h > 0 && f > 0
    ensures var query := ClientQuery(w, h, f);
            var t := Dissect("rtsp://" + host + "/device/" + name + "?" + query);
            t.code == 0 && t.resource == Some("/dev/" + name) && t.query == Some(query) &&
            Extended(s, t.query.value) == Settings(Mjpg, w, h, f)
  {
    var query := ClientQuery(w, h, f);
    QueryAvoids(w, h, f);
    DissectReads(host, "device", name, Some(query));
    assert "rtsp://" + (host + "/" + "device" + "/" + name) + ("?" + query) ==
           "rtsp://" + host + "/device/" + name + "?" + query;
    QueryReads(s, w, h, f);
  }

  /** The query of DescribeDevice has no '?' and no "://". */
  lemma QueryAvoids(w: nat, h: nat, f: nat)
    ensures Avoids(ClientQuery(w, h, f), '?') && !Contains(ClientQuery(w, h, f), Scheme)
  {
    var a := "image=mpeg";
    var b := "resolution=" + Decimal(w) + "*" + Decimal(h);
    var c := "fps=" + Decimal(f);
    DecimalAvoids(w, '?');
    DecimalAvoids(h, '?');
    DecimalAvoids(f, '?');
    DecimalAvoids(w, ':');
    DecimalAvoids(h, ':');
    DecimalAvoids(f, ':');
    AvoidsConcat("resolution=", Decimal(w), '?');
    AvoidsConcat("resolution=" + Decimal(w), "*", '?');
    AvoidsConcat("resolution=" + Decimal(w) + "*", Decimal(h), '?');
    AvoidsConcat("fps=", Decimal(f), '?');
    AvoidsConcat("resolution=", Decimal(w), ':');
    AvoidsConcat("resolution=" + Decimal(w), "*", ':');
    AvoidsConcat("resolution=" + Decimal(w) + "*", Decimal(h), ':');
    AvoidsConcat("fps=", Decimal(f), ':');
    JoinAvoids([a, b, c], "&", '?');
    JoinAvoids([a, b, c], "&", ':');
    AvoidsFree(ClientQuery(w, h, f), Scheme);
  }

  /** The interleaved frame SendVideo writes over the RTSP connection
      (RTSPServerSession.cpp:1306-1315): '$', channel 0, the packet's
      length big-endian, then the packet. */
  function TcpFrame(p: Packet): (f: Packet)
    requires 0 < |p| < 0x1_0000
    ensures |f| == |p| + 4 && f[4..] == p
    ensures IsFrame(Client, f)
  {
    Be16Split(|p|);
    [Dollar, 0, HiByte(|p|), LoByte(|p|)] + p
  }

  /** The server sends RTP on channel 0, which its own receive side
      classifies as RTCP: only the client's parity matches the sender. */
  lemma OwnFrameReadsAsRtcp(p: Packet)
    requires 0 < |p| < 0x1_0000
    ensures IsRtcpMsg(Server, TcpFrame(p)) && !IsRtpMsg(Server, TcpFrame(p))
  {
  }
}
