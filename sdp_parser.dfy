/** The SDP reader of BaseClass/CommonTools/SdpParser.cpp (sections 5
    and 6 of RFC 4566, with the `rtpmap` attribute): the text is cut into
    CRLF lines, every `key=value` line is stored in a field map, the lines
    before the first `m=` make the session description and the lines from
    it on make the media description, whose `rtpmap` and `control`
    attributes are then read into payload type, format, clock rate and
    track. The maps are std::unordered_map<std::string, std::string>. */
module Sdp {
  import opened Bytes
  import opened CLib
  import opened RtspParser

  type FieldMap = map<Text, Text>

  /** SdpParser::MediaDescription; nPayloadType is a uint8_t. */
  datatype MediaDescription = MediaDescription(
    trackId: int, range: Text, payloadType: int, format: Text, clockRate: int, field: FieldMap)

  /** The values the struct's constructor gives (SdpParser.h:22-27). */
  const NewMedia := MediaDescription(-1, "", 96, "", 0, map[])

  /** ParseMediaInfo's return code and the description as it leaves it. */
  datatype Info = Info(code: int, media: MediaDescription)

  /** ParseMediaInfo (SdpParser.cpp:104-151). It changes the description
      in place step by step, so an error after the rtpmap words leaves the
      fields read so far behind. field.at("m") throws for a description
      without an `m` entry; ParsedSections shows that the parser only
      hands over descriptions that have one. */
  function MediaInfo(d: MediaDescription): (r: Info)
    ensures r.media.field == d.field
    ensures r.code == -1 <==> "rtpmap" !in d.field
    ensures r.code == 0 <==>
              "rtpmap" in d.field && "control" in d.field &&
              var items := Pieces(d.field["rtpmap"], " ");
              |items| >= 2 && |Pieces(items[1], "/")| >= 2 && |Pieces(d.field["control"], "=")| >= 2
    ensures r.code == -4 ==> "control" !in d.field
    ensures r.code != 0 ==> r.media.trackId == d.trackId && r.media.range == d.range
    ensures r.code == -1 || r.code == -2 ==> r.media == d
  {
    if "rtpmap" !in d.field then Info(-1, d)
    else
      var items := Pieces(d.field["rtpmap"], " ");
      if |items| < 2 then Info(-2, d)
      else
        var d1 := d.(payloadType := Atoi(items[0]) % 256);
        var info := Pieces(items[1], "/");
        if |info| < 2 then Info(-3, d1)
        else
          var d2 := d1.(format := info[0], clockRate := Atoi(info[1]));
          if "control" !in d.field then Info(-4, d2)
          else
            var track := Pieces(d.field["control"], "=");
            if |track| < 2 then Info(-5, d2)
            else
              Info(0, d2.(trackId := Atoi(track[1]),
                          range := if "range" in d.field then d.field["range"] else d.range))
  }

  /** An `a=` value split at its first ':' into name and value; without a
      ':' both are the whole value, since npos + 1 wraps round to 0. */
  function Attribute(value: Text): (Text, Text)
  {
    var p := Find(value, ":", 0);
    if p < 0 then (value, value) else (value[..p], value[p + 1..])
  }

  /** The key and value a line stores, or None for a line without '='. */
  function Entry(line: Text): Option<(Text, Text)>
  {
    var pos := Find(line, "=", 0);
    if pos < 0 then None
    else if line[..pos] == "a" then Some(Attribute(line[pos + 1..]))
    else Some((line[..pos], line[pos + 1..]))
  }

  predicate IsMediaLine(line: Text)
  {
    var pos := Find(line, "=", 0);
    pos >= 0 && line[..pos] == "m"
  }

  /** fields[key] = value for the entry of the line. */
  function Record(fields: FieldMap, line: Text): FieldMap
  {
    match Entry(line)
    case None => fields
    case Some(kv) => fields[kv.0 := kv.1]
  }

  /** The locals of Parse's loop and the two members it writes. */
  datatype Scan = Scan(
    description: FieldMap, current: MediaDescription, inMedia: bool,
    session: FieldMap, media: seq<MediaDescription>)

  function Start(session: FieldMap, media: seq<MediaDescription>): Scan
  {
    Scan(map[], NewMedia, false, session, media)
  }

  /** What an `m=` line does before it is stored (SdpParser.cpp:39-58). */
  function Flush(s: Scan): Scan
  {
    if s.description == map[] then s
    else if s.inMedia then
      var info := MediaInfo(s.current);
      s.(current := info.media,
         media := if info.code == 0 then s.media + [info.media] else s.media,
         description := map[])
    else s.(session := s.description, description := map[])
  }

  /** One pass of the loop of Parse (SdpParser.cpp:26-86). */
  function Step(s: Scan, line: Text): Scan
  {
    if Entry(line).None? then s
    else
      var s1 := if IsMediaLine(line) then Flush(s).(inMedia := true) else s;
      if s1.inMedia then s1.(current := s1.current.(field := Record(s1.current.field, line)))
      else s1.(description := Record(s1.description, line))
  }

  function ScanAll(s: Scan, lines: seq<Text>): Scan
    decreases |lines|
  {
    if lines == [] then s else ScanAll(Step(s, lines[0]), lines[1..])
  }

  /** After the loop: the last media description (SdpParser.cpp:88-99). */
  function Finish(s: Scan): Scan
  {
    if s.current.field == map[] then s
    else
      var info := MediaInfo(s.current);
      s.(current := info.media, media := if info.code == 0 then s.media + [info.media] else s.media)
  }

  /** The session and media lists after Parse(sdp). */
  function Parsed(session: FieldMap, media: seq<MediaDescription>, sdp: Text): Scan
  {
    Finish(ScanAll(Start(session, media), Pieces(sdp, Crlf)))
  }

  /** The map the lines build, each stored over what came before. */
  function Collect(fields: FieldMap, lines: seq<Text>): FieldMap
    decreases |lines|
  {
    if lines == [] then fields else Collect(Record(fields, lines[0]), lines[1..])
  }

  /** The index of the first `m=` line, or the number of lines. */
  function FirstMedia(lines: seq<Text>): (k: nat)
    ensures k <= |lines|
    ensures forall i :: 0 <= i < k ==> !IsMediaLine(lines[i])
    ensures k < |lines| ==> IsMediaLine(lines[k])
  {
    if lines == [] || IsMediaLine(lines[0]) then 0 else 1 + FirstMedia(lines[1..])
  }

  class SdpParser {
    var session: FieldMap
    var media: seq<MediaDescription>

    constructor()
      ensures session == map[] && media == []
    {
      session := map[];
      media := [];
    }

    /** SdpParser::Parse (SdpParser.cpp:15-102). */
    method Parse(sdp: Text) returns (r: int)
      modifies this
      ensures r == 0
      ensures var p := Parsed(old(session), old(media), sdp); session == p.session && media == p.media
    {
      var lines := Split(sdp, Crlf);
      var description: FieldMap := map[];
      var current := NewMedia;
      var inMedia := false;
      ghost var start := Start(session, media);
      for i := 0 to |lines|
        invariant ScanAll(Scan(description, current, inMedia, session, media), lines[i..]) == ScanAll(start, lines)
      {
        ghost var before := Scan(description, current, inMedia, session, media);
        assert lines[i..] == [lines[i]] + lines[i + 1..];
        var line := lines[i];
        var pos := Find(line, "=", 0);
        if pos < 0 {
          continue;
        }
        var key := line[..pos];
        var value := line[pos + 1..];
        if key == "m" {
          if description != map[] {
            if inMedia {
              var info := MediaInfo(current);
              current := info.media;
              if info.code == 0 {
                media := media + [current];
              }
            } else {
              session := description;
            }
            description := map[];
          }
          inMedia := true;
        } else if key == "a" {
          var p := Find(value, ":", 0);
          if p < 0 {
            key := value;
          } else {
            key := value[..p];
            value := value[p + 1..];
          }
        }
        if inMedia {
          current := current.(field := current.field[key := value]);
        } else {
          description := description[key := value];
        }
        assert Scan(description, current, inMedia, session, media) == Step(before, line);
      }
      if current.field != map[] {
        var info := MediaInfo(current);
        current := info.media;
        if info.code == 0 {
          media := media + [current];
        }
      }
      r := 0;
    }
  }

  /** Once in the media part, every line goes into the one media
      description: the flush at an `m=` line never fires again, because
      the session map it tests stays empty (SdpParser.cpp:39-61). */
  lemma {:induction false} ScanAfter(s: Scan, lines: seq<Text>)
    requires s.inMedia && s.description == map[]
    ensures ScanAll(s, lines) == s.(current := s.current.(field := Collect(s.current.field, lines)))
    decreases |lines|
  {
    if lines != [] {
      var s1 := Step(s, lines[0]);
      assert s1 == s.(current := s.current.(field := Record(s.current.field, lines[0])));
      ScanAfter(s1, lines[1..]);
    }
  }

  /** Before the first `m=` line every line goes into the session map. */
  lemma {:induction false} ScanBefore(s: Scan, lines: seq<Text>)
    requires !s.inMedia && s.current.field == map[]
    requires forall i :: 0 <= i < |lines| ==> !IsMediaLine(lines[i])
    ensures ScanAll(s, lines) == s.(description := Collect(s.description, lines))
    decreases |lines|
  {
    if lines != [] {
      var s1 := Step(s, lines[0]);
      assert s1 == s.(description := Record(s.description, lines[0]));
      ScanBefore(s1, lines[1..]);
    }
  }

  lemma {:induction false} ScanConcat(s: Scan, a: seq<Text>, b: seq<Text>)
    ensures ScanAll(s, a + b) == ScanAll(ScanAll(s, a), b)
    decreases |a|
  {
    if a == [] {
      assert a + b == b;
    } else {
      assert (a + b)[0] == a[0] && (a + b)[1..] == a[1..] + b;
      ScanConcat(Step(s, a[0]), a[1..], b);
    }
  }

  /** The whole scan: the lines before the first `m=` make the session
      map, saved when the `m=` arrives if it is not empty; every line from
      the `m=` on goes into one media description. */
  lemma ScanFromStart(s: Scan, lines: seq<Text>)
    requires !s.inMedia && s.current.field == map[]
    ensures var k := FirstMedia(lines);
            var r := ScanAll(s, lines);
            if k == |lines| then r == s.(description := Collect(s.description, lines))
            else
              var before := Collect(s.description, lines[..k]);
              r == s.(description := map[], inMedia := true,
                      session := if before == map[] then s.session else before,
                      current := s.current.(field := Collect(map[], lines[k..])))
  {
    var k := FirstMedia(lines);
    if k == |lines| {
      ScanBefore(s, lines);
    } else {
      assert lines == lines[..k] + lines[k..];
      ScanConcat(s, lines[..k], lines[k..]);
      ScanBefore(s, lines[..k]);
      var s1 := ScanAll(s, lines[..k]);
      assert lines[k..][0] == lines[k] && lines[k..][1..] == lines[k + 1..];
      MediaStep(s1, lines[k]);
      ScanAfter(Step(s1, lines[k]), lines[k + 1..]);
    }
  }

  /** The first `m=` line: the session map is saved or kept, and the media
      part begins with the line's own entry. */
  lemma MediaStep(s: Scan, line: Text)
    requires !s.inMedia && s.current.field == map[] && IsMediaLine(line)
    ensures Step(s, line) == s.(description := map[], inMedia := true,
                                session := if s.description == map[] then s.session else s.description,
                                current := s.current.(field := Record(map[], line)))
  {
  }

  /** Storing never removes a key. */
  lemma {:induction false} CollectKeys(fields: FieldMap, lines: seq<Text>)
    ensures fields.Keys <= Collect(fields, lines).Keys
    decreases |lines|
  {
    if lines != [] {
      CollectKeys(Record(fields, lines[0]), lines[1..]);
    }
  }

  /** What Parse leaves behind. Without any `m=` line neither the session
      nor the media list changes. Otherwise the lines before the first
      `m=` replace the session map unless there are none, and all the
      lines from it on, whatever further `m=` lines they hold, are merged
      into a single media description, which holds an `m` entry and is
      appended exactly when ParseMediaInfo accepts it
      (SdpParser.cpp:26-101). */
  lemma ParsedSections(session: FieldMap, media: seq<MediaDescription>, sdp: Text)
    ensures var lines := Pieces(sdp, Crlf);
            var k := FirstMedia(lines);
            var p := Parsed(session, media, sdp);
            if k == |lines| then p.session == session && p.media == media
            else
              var before := Collect(map[], lines[..k]);
              var merged := Collect(map[], lines[k..]);
              var info := MediaInfo(NewMedia.(field := merged));
              "m" in merged &&
              p.session == (if before == map[] then session else before) &&
              p.media == media + (if info.code == 0 then [info.media] else [])
  {
    var lines := Pieces(sdp, Crlf);
    var k := FirstMedia(lines);
    var s := Start(session, media);
    ScanFromStart(s, lines);
    if k < |lines| {
      MediaMerged(lines, k);
      var before := Collect(map[], lines[..k]);
      FinishMedia(ScanAll(s, lines), session, media, before, Collect(map[], lines[k..]));
    }
  }

  /** The lines from an `m=` line on hold an `m` entry. */
  lemma MediaMerged(lines: seq<Text>, k: nat)
    requires k < |lines| && IsMediaLine(lines[k])
    ensures "m" in Collect(map[], lines[k..])
  {
    assert lines[k..] == [lines[k]] + lines[k + 1..];
    assert "m" in Record(map[], lines[k]);
    CollectKeys(Record(map[], lines[k]), lines[k + 1..]);
  }

  /** Finish on a scan that has just gathered one merged media part. */
  lemma FinishMedia(r: Scan, session: FieldMap, media: seq<MediaDescription>, before: FieldMap, merged: FieldMap)
    requires "m" in merged
    requires r == Start(session, media).(description := map[], inMedia := true,
                                         session := if before == map[] then session else before,
                                         current := NewMedia.(field := merged))
    ensures var info := MediaInfo(NewMedia.(field := merged));
            Finish(r).session == (if before == map[] then session else before) &&
            Finish(r).media == media + (if info.code == 0 then [info.media] else [])
  {
  }

  /** A name and a value joined by ':' split back apart; a value
      without ':' is both name and value. */
  lemma AttributeReads(name: Text, value: Text)
    requires Avoids(name, ':')
    ensures Attribute(name + ":" + value) == (name, value)
  {
    AvoidsFree(name, ":");
    FindAfterPiece(name, ":", value);
    var t := name + ":" + value;
    assert t[..|name|] == name && t[|name| + 1..] == value;
  }

  lemma AttributeWhole(value: Text)
    requires Avoids(value, ':')
    ensures Attribute(value) == (value, value)
  {
    AvoidsFree(value, ":");
    var r := Find(value, ":", 0);
    assert r == -1 || At(value, ":", r);
  }

  /** Text split at an unbordered separator it holds once. */
  lemma OnePiece(a: Text, c: Text, b: Text)
    requires |c| > 0 && Unbordered(c) && Avoids(a, c[0]) && Avoids(b, c[0]) && b != []
    ensures Pieces(a + c + b, c) == [a, b]
  {
    AvoidsFree(a, c);
    AvoidsFree(b, c);
    PiecesAfterPiece(a, c, b);
    PiecesOfFree(b, c);
  }

  lemma DecimalRead(n: nat)
    ensures Atoi(Decimal(n)) == n
    ensures Avoids(Decimal(n), ' ') && Avoids(Decimal(n), '/') && Avoids(Decimal(n), '=')
  {
    AtoiDecimal(n, []);
    assert Decimal(n) + [] == Decimal(n);
  }

  /** The rtpmap "pt name/rate" and control "prefix=track" attributes of
      the server's own SDP (RTSPServerSession.cpp:1080-1090) read back as
      the numbers and the name written there. */
  lemma MediaInfoReads(d: MediaDescription, pt: nat, name: Text, rate: nat, prefix: Text, track: nat)
    requires "rtpmap" in d.field && d.field["rtpmap"] == Decimal(pt) + " " + (name + "/" + Decimal(rate))
    requires Avoids(name, ' ') && Avoids(name, '/')
    requires "control" in d.field && d.field["control"] == prefix + "=" + Decimal(track)
    requires Avoids(prefix, '=')
    ensures MediaInfo(d) == Info(0, d.(payloadType := pt % 256, format := name, clockRate := rate,
                                      trackId := track,
                                      range := if "range" in d.field then d.field["range"] else d.range))
  {
    DecimalRead(pt);
    DecimalRead(rate);
    DecimalRead(track);
    var encoding := name + "/" + Decimal(rate);
    assert Unbordered(" ") && Unbordered("/") && Unbordered("=");
    AvoidsConcat(name + "/", Decimal(rate), ' ') by {
      AvoidsConcat(name, "/", ' ');
    }
    OnePiece(Decimal(pt), " ", encoding);
    OnePiece(name, "/", Decimal(rate));
    OnePiece(prefix, "=", Decimal(track));
  }
}
