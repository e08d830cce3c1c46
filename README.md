# XiHe video link: a verified Dafny model of its FEC core and media plumbing

XiHe is a real-time video transport stack for a remote-controlled vehicle
link. A camera stream is encoded to H.264 or MJPEG, cut into RTP packets,
protected by forward error correction and sent over a lossy wireless link.
RTSP does the signalling, SDP describes the media, and an on-screen display
(OSD) draws text bitmaps over the picture.

The heart of the stack is a two-dimensional parity FEC in the style of
RFC 8627. Media packets fill a `rows x columns` grid. Every full row and
every full column yields a repair packet: the XOR of the packets' headers,
lengths and payloads. The receiver rebuilds any single lost packet of a
line from the rest of the line and its repair packet. A rebuilt packet is
fed back into the grid, so one repair can unlock the next. The decoder
keeps a pool of such grids and a 65536-slot reorder ring indexed by RTP
sequence number. It hands packets on in sequence order, skips over holes
that stay open too long, and asks the sender for lost packets with RTCP
generic NACKs (section 6.2.1 of RFC 4585). The encoder keeps a bounded
cache of sent packets to answer those NACKs.

The model follows the C++ source file by file:

| source | Dafny module(s) | form |
|---|---|---|
| BaseClass/FEC/FEC2DTable.cpp | `FecGrid`, `FecRepair`, `FecTableSpec`, `FecFuel`, `FecTable` | class `Table` over `array2`/`array` fields, specified by functions on a `Store` value |
| BaseClass/FEC/FECEncoder.cpp | `FecEncoder` | class `Encoder` (cache list and map, sequence counter) |
| BaseClass/FEC/FECDecoder.cpp | `FecDecoderSpec`, `FecPool`, `FecDecoder` | class `Decoder` (reorder ring as an `array`, table pool, cache list), specified by functions on an `Order` value |
| BaseClass/RTPPacketizer/H264RTPpacketizer.cpp | `RtpPacket`, `H264Packetizer` | class `H264RTPpacketizer` writing an `array` buffer |
| BaseClass/RTPPacketizer/MJPEGRTPpacketizer.cpp | `MjpegPacketizer` | class `MJPEGRTPpacketizer` |
| BaseClass/RTPParser/H264RTPParser.cpp | `H264RtpParser` | class `H264RTPParser` (reassembly buffer) |
| BaseClass/MediaEncoder/VideoEncoder.cpp (`FindSPS`, `FindPPS`) | `AnnexB` | loops specified by "first index such that" functions |
| BaseClass/CommonTools/ExBuff.cpp, FlexibleBuff.cpp | `ExBuffer`, `FlexibleBuffer` | classes over an `array` |
| BaseClass/CommonTools/RtspParser.cpp | `RtspParser`, `RtspFields`, `RtspMessage`, `RtspRoundTrip` | functions on strings |
| BaseClass/CommonTools/SdpParser.cpp | `Sdp` | class `SdpParser` |
| BaseClass/RTSPServer/RTSPServerSession.cpp | `RtspFraming`, `RtspServerSession` | framing loop as class `Receiver`, session settings as class `Session` |
| BaseClass/RTSPClient/RTSPClient.cpp | `RtspClient` (framing shared with `RtspFraming`) | URL analysis functions, class `Client` for channel routing |
| BaseClass/OSD/Bitmap.cpp | `OsdBitmap`, `OsdLayout` | class `Bitmap` over an `array2` of bytes |

`Bytes` and `CLib` hold shared helpers: byte and sequence-number
arithmetic, and the library calls `atoi` and `std::to_string` the
source relies on. Packets are `seq<bv8>`. Sequence numbers are integers in
`0..65535` with wrap-around written out. The source's fixed-width fields
are `bv16`/`bv32` or bounded integers.

`FecEncoder.Encoder.Init` returns the table's own `Init` code when the
table cannot be set up: BaseClass/FEC/FECEncoder.cpp:51 sets
`nFailRet = -2`, but :63 returns `ret`, and the model returns `ret`.
The NACK the decoder writes is not the one the encoder parses; see
`## Left out`.

Two behaviours of the RTSP side are stated as lemmas rather than corrected:
- `Sdp.SdpParser.Parse` folds every line after the first `m=` line into a
  single media description (BaseClass/CommonTools/SdpParser.cpp:15-102).
- The server classifies odd interleaved channels as RTP and even ones as
  RTCP. Its own video goes out on channel 0, which it would itself read as
  RTCP (`RtspServerSession.OwnFrameReadsAsRtcp`). The client uses the
  opposite parity, which matches the sender
  (`RtspClient.ServerFrameReachesClient`).

Several source defects were found while stating natural contracts. Each is
modelled twice: once as written, with a lemma that exhibits the defect,
and once corrected, with the intended property proved. The rest of the
model uses the corrected definition. They are listed under `## Findings`.

## Model

One row per member that models or states something about the source. Class members are written `Module.Class.Member`.

| member | source | states |
|---|---|---|
| FecGrid.WindowRanges | BaseClass/FEC/FEC2DTable.cpp:230-245 | the window starts at base; without a wrap Range1 ends at base+n-1 and Range2 is left as it was; past 65535 Range1 ends at 65535 and Range2 is [0, base+n-1-65536] |
| FecGrid.WindowMembership | BaseClass/FEC/FEC2DTable.cpp:219-245 | after UpdataRange(base) on cleared ranges, IsSeqInRange(s) holds iff (s - base) mod 65536 < rows*cols, on both sides of the 65535 -> 0 wrap |
| FecGrid.EmptyWindow | BaseClass/FEC/FEC2DTable.cpp:200-204 | the cleared ranges (min INT32_MAX, max INT32_MIN) accept no sequence number |
| FecGrid.SeqAt | BaseClass/FEC/FEC2DTable.cpp:640 | the sequence number a cell stands for is a 16-bit value |
| FecGrid.CellOf | BaseClass/FEC/FEC2DTable.cpp:247-257 | corrected addressing: a column below cols and row*cols + col equal to the offset (s - base) mod 65536 |
| FecGrid.CellOfInverse | BaseClass/FEC/FEC2DTable.cpp:640 | every sequence number of the window lands on a row below rows, and base + row*cols + col maps back to it |
| FecGrid.SeqAtCell | BaseClass/FEC/FEC2DTable.cpp:678 | conversely the sequence number of any cell maps back to that cell and lies in the window |
| FecGrid.CalcAsWrittenAgrees | BaseClass/FEC/FEC2DTable.cpp:247-257 | CalculateRowAndColumn as written (n = k + 1, col = n % C - 1) agrees with CellOf off the last column |
| FecGrid.CalcAsWrittenLastColumn | BaseClass/FEC/FEC2DTable.cpp:247-257 | in the last column the as-written code yields column 2^32 - 1, outside every table |
| FecGrid.OffsetAsWritten | BaseClass/FEC/FEC2DTable.cpp:249-253 | adding 65536 to a sequence number below the base gives the offset modulo 65536 |
| FecGrid.Count | BaseClass/FEC/FEC2DTable.h:90-91 | the number of filled cells of a line is at most its length |
| FecGrid.CountFull | BaseClass/FEC/FEC2DTable.cpp:278 | a line's counter reaches its length iff every cell is filled |
| FecGrid.CountFill | BaseClass/FEC/FEC2DTable.cpp:274-276 | filling an empty cell raises the line's count by exactly one |
| FecGrid.EmptyCounters | BaseClass/FEC/FEC2DTable.cpp:176-183 | zeroed counters agree with the cleared grid |
| FecGrid.PlaceCounters | BaseClass/FEC/FEC2DTable.cpp:272-276 | storing into an empty cell raises exactly that row's and that column's counter by one, and the counters keep agreeing with the grid |
| FecGrid.Place | BaseClass/FEC/FEC2DTable.cpp:272 | the grid keeps its shape, the cell holds the packet and every other cell is unchanged |
| FecGrid.LastEmpty | BaseClass/FEC/FEC2DTable.cpp:634-643 | the cell the repair loop remembers is empty and every later cell is filled; -1 means the line is full |
| FecGrid.OneHole | BaseClass/FEC/FEC2DTable.cpp:623-643 | a line whose counter is one short has exactly one empty cell, the one LastEmpty names |
| FecGrid.TwoHoles | BaseClass/FEC/FEC2DTable.cpp:623 | a line with two empty cells is at least two short of full |
| FecGrid.FilledHoled | BaseClass/FEC/FEC2DTable.cpp:634-643 | the packets of a line that lost its k-th are the others in order, and k is the empty cell found |
| FecGrid.FullRepairable | BaseClass/FEC/FEC2DTable.cpp:392-433 | a full line of source packets gives CreateRepairPacket at least one packet, each with an RTP header |
| FecGrid.Tagged | BaseClass/FEC/FEC2DTable.cpp:428-429 | the repair packet keeps its length and carries the two line tags in bytes 22 and 23 |
| FecGrid.LineRecover | BaseClass/FEC/FEC2DTable.cpp:646-651 | a rebuilt packet has an RTP header and carries the empty cell's sequence number in bytes 2-3 |
| FecGrid.LineRecoverLost | BaseClass/FEC/FEC2DTable.cpp:620-656 | round trip of one line: with the repair packet built for ps and ps's k-th packet lost, the line yields exactly that packet |
| FecRepair.MaxLen | BaseClass/FEC/FEC2DTable.cpp:392-411 | the longest packet of a line: no packet is longer and, for a non-empty line, one packet has that length |
| FecRepair.RepairHeader | BaseClass/FEC/FEC2DTable.cpp:332-367 | the RTP and FEC header of a repair packet is 24 bytes |
| FecRepair.RepairPayloadOf | BaseClass/FEC/FEC2DTable.cpp:370-381 | the repair payload runs to the end of the longest packet: MaxLen - 12 bytes |
| FecRepair.RepairPacketOf | BaseClass/FEC/FEC2DTable.cpp:321-389 | CreateRepairPacket: the repair packet is 12 bytes longer than the longest packet of the line |
| FecRepair.RepairPacketFor | BaseClass/FEC/FEC2DTable.cpp:321-389 | the packet CreateRepairPacket builds carries the XOR sums (bytes 12-19) and the XOR payload the receiver reads |
| FecRepair.RepairPayloadAt | BaseClass/FEC/FEC2DTable.cpp:370-381 | byte i of the repair payload is the XOR of byte i - 12 over the line, short packets counting as 0 |
| FecRepair.SsrcOf | BaseClass/FEC/FEC2DTable.cpp:747-750 | the SSRC given to a rebuilt packet is four bytes, those of the first survivor; with no survivor, where the source reads through the null `data[0]`, the model gives zero |
| FecRepair.RecoveredHeader | BaseClass/FEC/FEC2DTable.cpp:719-742 | the header Repair writes is 12 bytes |
| FecRepair.RecoveredPayload | BaseClass/FEC/FEC2DTable.cpp:744-761 | the payload Repair writes for a length n is n - 12 bytes |
| FecRepair.RecoverPacket | BaseClass/FEC/FEC2DTable.cpp:696-775 | corrected Repair: a rebuilt packet has the XOR-derived length, at least 12 and at most the repair packet's length less 12; no packet when the derived length does not fit |
| FecRepair.SumsWithout | BaseClass/FEC/FEC2DTable.cpp:346-354 | the XOR sums of a line are those of the survivors with the lost packet folded in, whichever packet is lost |
| FecRepair.XorAtWithout | BaseClass/FEC/FEC2DTable.cpp:370-381 | the same for payload byte j |
| FecRepair.RecoverLength | BaseClass/FEC/FEC2DTable.cpp:698-704 | the length field of the repair packet XORed with the survivors' lengths gives the lost packet's length |
| FecRepair.RecoverHeader | BaseClass/FEC/FEC2DTable.cpp:719-742 | the header Repair rebuilds is the lost packet's header with version 2 and the first survivor's SSRC |
| FecRepair.HeaderBack | BaseClass/FEC/FEC2DTable.cpp:731-738 | XORing the survivors' sums with the FEC header gives back bytes 0-1 and 4-7 of the lost packet |
| FecRepair.RecoverPayload | BaseClass/FEC/FEC2DTable.cpp:744-761 | the payload Repair rebuilds is the lost packet's payload |
| FecRepair.RecoverLost | BaseClass/FEC/FEC2DTable.cpp:696-775 | XOR round trip: from a line's repair packet and all packets but the k-th, Repair rebuilds the k-th up to its unprotected fields |
| FecRepair.LoneLossSsrcZero | BaseClass/FEC/FEC2DTable.cpp:747-750 | on a line one packet wide, the loss of its packet leaves no survivor; the repair packet alone still rebuilds a packet, which carries SSRC zero and so differs from the lost one whenever that SSRC is not zero |
| FecRepair.RecoverLostExactly | BaseClass/FEC/FEC2DTable.cpp:696-775 | a lost version-2 packet whose SSRC is that of the first survivor comes back exactly once its sequence number is written in |
| FecRepair.Restored | BaseClass/FEC/FEC2DTable.cpp:731-742 | what the receiver rebuilds has the lost packet's length |
| FecRepair.RestoredExact | BaseClass/FEC/FEC2DTable.cpp:731-742 | restoring changes nothing in a version-2 packet with the first survivor's SSRC, bytes 2-3 aside |
| FecRepair.FirstByteBits | BaseClass/FEC/FEC2DTable.cpp:357 | byte 0 (read back at line 731) goes through the FEC header as 0x40 or its low 6 bits and comes back as 0x80 or the same bits |
| FecTableSpec.InTableCell | BaseClass/FEC/FEC2DTable.cpp:267-271 | a sequence number IsSeqInRange accepts has a base set and lands on a cell of the grid that maps back to it |
| FecTableSpec.BuildRow | BaseClass/FEC/FEC2DTable.cpp:392-433 | CreateRepairPacketByRow yields a packet iff the row's slot is empty and the row is full; the packet has the 24 header bytes and the tags (cols + 1, r + 1) |
| FecTableSpec.BuildColumn | BaseClass/FEC/FEC2DTable.cpp:435-476 | CreateRepairPacketByColumn yields a packet iff the column's slot is empty and the column is full; the tags are (c + 1, rows + 1) |
| FecTableSpec.ClearedNotFull | BaseClass/FEC/FEC2DTable.cpp:160-205 | a cleared table has no full row or column |
| FecTableSpec.Restart | BaseClass/FEC/FEC2DTable.cpp:262-316 | the state a source packet is stored in is well formed, has a base and a window holding the packet's sequence number |
| FecTableSpec.OpenedGood | BaseClass/FEC/FEC2DTable.cpp:230-245 | a cleared table whose window UpdataRange opens at s is well formed and accepts s |
| FecTableSpec.MakeRepairStep | BaseClass/FEC/FEC2DTable.cpp:259-319 | RecvPacketAndMakeRepair keeps the table well formed: counters agree with the cells, every cell holds the packet of its sequence number |
| FecTableSpec.StoreSource | BaseClass/FEC/FEC2DTable.cpp:269-310 | storing a source packet in its cell and offering its row and column keeps the table well formed |
| FecTableSpec.EmitAfter | BaseClass/FEC/FEC2DTable.cpp:278-309 | building the row's and then the column's repair packet keeps the table well formed |
| FecTableSpec.PlaceGood | BaseClass/FEC/FEC2DTable.cpp:272-276 | storing a source packet in the empty cell of its sequence number keeps the table well formed |
| FecTableSpec.MakeRepairStores | BaseClass/FEC/FEC2DTable.cpp:259-319 | after the sender's insertion the packet's sequence number is in the window and its cell holds a packet with that sequence number |
| FecTableSpec.EmitKeepsCells | BaseClass/FEC/FEC2DTable.cpp:278-309 | building repair packets changes neither the base nor any cell |
| FecTableSpec.MakeRepairKeeps | BaseClass/FEC/FEC2DTable.cpp:267-310 | a packet inside the open window never clears the table: the base stays and every filled cell keeps its packet |
| FecTableSpec.MakeRepairRestarts | BaseClass/FEC/FEC2DTable.cpp:262-316 | a packet outside the window (or in a cleared table) restarts the table at it: base = its sequence number, it sits in cell (0, 0) and every other cell is empty |
| FecTableSpec.EmitRow | BaseClass/FEC/FEC2DTable.cpp:278-292 | the row's repair packet is handed out first exactly when the row is full and its slot was empty, and it is kept in the slot |
| FecTableSpec.EmitColumn | BaseClass/FEC/FEC2DTable.cpp:293-308 | the column's repair packet comes last, exactly when the column is full and its slot was empty; at most two repair packets in all |
| FecTableSpec.MakeRepairEmitsRow | BaseClass/FEC/FEC2DTable.cpp:272-292 | a row repair packet is emitted exactly when the insertion completes a row with an empty slot; a packet whose cell is taken changes nothing and emits nothing |
| FecTableSpec.MakeRepairEmitsColumn | BaseClass/FEC/FEC2DTable.cpp:272-308 | the same for the column, whose repair packet comes last with tags naming the column |
| FecTableSpec.MakeRepairOutputSized | BaseClass/FEC/FEC2DTable.cpp:259-319 | the sender hands out at most two repair packets per source packet, each with 24 header bytes |
| FecTableSpec.MakeRepairUnfold | BaseClass/FEC/FEC2DTable.cpp:259-319 | one level of RecvPacketAndMakeRepair: a taken cell returns the restarted state unchanged, an empty one stores the packet and emits |
| FecTableSpec.TagBytes | BaseClass/FEC/FEC2DTable.cpp:428-472 | a row packet's byte 22 (cols + 1) equals no column index + 1, and a column packet's byte 23 (rows + 1) no row index + 1 |
| FecTableSpec.TagIndexBack | BaseClass/FEC/FEC2DTable.cpp:514-515 | a tag written as n + 1 reads back as n |
| FecTableSpec.TryRepairStep | BaseClass/FEC/FEC2DTable.cpp:494-581 | RecvPacketAndTryRepair keeps the table well formed |
| FecTableSpec.RepairArrives | BaseClass/FEC/FEC2DTable.cpp:505-551 | the repair-packet branch keeps the table well formed |
| FecTableSpec.FileRepair | BaseClass/FEC/FEC2DTable.cpp:514-547 | filing a repair packet by its tags keeps the table well formed |
| FecTableSpec.SourceArrives | BaseClass/FEC/FEC2DTable.cpp:552-578 | the source-packet branch keeps the table well formed |
| FecTableSpec.AfterRow | BaseClass/FEC/FEC2DTable.cpp:569-576 | trying the row and receiving what it rebuilds keeps the table well formed |
| FecTableSpec.AfterColumn | BaseClass/FEC/FEC2DTable.cpp:560-567 | trying the column and receiving what it rebuilds keeps the table well formed |
| FecTableSpec.Forward | BaseClass/FEC/FEC2DTable.cpp:563-566 | handing out a rebuilt packet and receiving it in turn keeps the table well formed |
| FecTableSpec.ExtendsBase | BaseClass/FEC/FEC2DTable.cpp:507-511 | taking a base in a cleared table loses nothing |
| FecTableSpec.TryRepairExtends | BaseClass/FEC/FEC2DTable.cpp:494-581 | the receiver never loses anything: no packet or repair packet is dropped or replaced, and the base never moves once set |
| FecTableSpec.RepairExtends | BaseClass/FEC/FEC2DTable.cpp:505-551 | the same for the repair-packet branch |
| FecTableSpec.FileRepairExtends | BaseClass/FEC/FEC2DTable.cpp:514-547 | the same for filing a repair packet |
| FecTableSpec.SourceExtends | BaseClass/FEC/FEC2DTable.cpp:552-578 | the same for the source-packet branch |
| FecTableSpec.AfterRowExtends | BaseClass/FEC/FEC2DTable.cpp:569-576 | the same for a row repair and its cascade |
| FecTableSpec.AfterColumnExtends | BaseClass/FEC/FEC2DTable.cpp:560-567 | the same for a column repair and its cascade |
| FecTableSpec.ForwardExtends | BaseClass/FEC/FEC2DTable.cpp:563-566 | the same for re-receiving a rebuilt packet |
| FecTableSpec.TryRepairSized | BaseClass/FEC/FEC2DTable.cpp:563-572 | every packet handed to the RTP callback has an RTP header and a length the 16-bit size fields hold |
| FecTableSpec.FileRepairSized | BaseClass/FEC/FEC2DTable.cpp:514-581 | the same after a repair packet |
| FecTableSpec.SourceSized | BaseClass/FEC/FEC2DTable.cpp:552-581 | the same after a source packet |
| FecTableSpec.AfterRowSized | BaseClass/FEC/FEC2DTable.cpp:569-576 | the same for a row repair |
| FecTableSpec.AfterColumnSized | BaseClass/FEC/FEC2DTable.cpp:560-567 | the same for a column repair |
| FecTableSpec.ForwardSized | BaseClass/FEC/FEC2DTable.cpp:563-566 | the same for a cascade |
| FecTableSpec.TryRepairStoresSource | BaseClass/FEC/FEC2DTable.cpp:552-580 | an accepted source packet ends up in its cell (or finds it holding its sequence number) and the call returns 0 |
| FecTableSpec.TryRepairTags | BaseClass/FEC/FEC2DTable.cpp:514-547 | code 0 iff the tags name a row (col = cols, row < rows) or a column (row = rows, col < cols); -2, -3, -4 for the three bad shapes; the named slot gets the corrected store |
| FecTableSpec.FileRepairTags | BaseClass/FEC/FEC2DTable.cpp:514-547 | the same, stated for the filing step |
| FecTableSpec.ReceiverRebuildsRow | BaseClass/FEC/FEC2DTable.cpp:392-581 | sender and receiver meet: the row repair packet built for ps, reaching a receiver whose row lost ps[k], makes it hand out exactly ps[k] first |
| FecTableSpec.RowRepairArrives | BaseClass/FEC/FEC2DTable.cpp:514-576 | a row repair packet for the table's base with an empty slot is stored there, the row is tried and the call returns 0 |
| FecTableSpec.AfterRowFirst | BaseClass/FEC/FEC2DTable.cpp:569-574 | a packet the row rebuilds is the first one handed out |
| FecTableSpec.SlotFilledGood | BaseClass/FEC/FEC2DTable.cpp:524-527 | filling an empty row slot keeps the table well formed |
| FecTableSpec.ReceiverRebuildsColumn | BaseClass/FEC/FEC2DTable.cpp:435-581 | the same for a column repair packet and a column that lost ps[k] |
| FecTableSpec.ColumnRepairArrives | BaseClass/FEC/FEC2DTable.cpp:528-567 | a column repair packet for the base with an empty slot is stored, the column is tried and the call returns 0 |
| FecTableSpec.AfterColumnFirst | BaseClass/FEC/FEC2DTable.cpp:560-565 | a packet the column rebuilds is the first one handed out |
| FecTableSpec.ColumnSlotFilledGood | BaseClass/FEC/FEC2DTable.cpp:537-540 | filling an empty column slot keeps the table well formed |
| FecTableSpec.RowRecoverLost | BaseClass/FEC/FEC2DTable.cpp:620-656 | corrected TryRepairByRow: a row holding ps but ps[k], with the repair packet built for ps, rebuilds exactly ps[k] |
| FecTableSpec.ColumnRecoverLost | BaseClass/FEC/FEC2DTable.cpp:658-694 | corrected TryRepairByColumn: the same for a column |
| FecTableSpec.BuiltRepairFor | BaseClass/FEC/FEC2DTable.cpp:321-429 | a tagged repair packet the sender builds is a repair packet for its line |
| FecTableSpec.AsWrittenSlotStaysEmpty | BaseClass/FEC/FEC2DTable.cpp:524-540 | with the store as written a slot that starts empty stays empty whatever repair packets arrive |
| FecTableSpec.SlotKeepsFirst | BaseClass/FEC/FEC2DTable.cpp:524-527 | with the corrected store the first repair packet to reach an empty slot is the one kept |
| FecTableSpec.RowRecoverAsWritten | BaseClass/FEC/FEC2DTable.cpp:620-656 | TryRepairByRow as written: a row is rebuilt only when its counter is both rows - 1 and cols - 1, so only on a square table |
| FecTableSpec.RowRecoverAsWrittenMisses | BaseClass/FEC/FEC2DTable.cpp:620-656 | on a 2 x 4 table whose row lost its k-th packet and holds the row's repair packet, the as-written TryRepairByRow gives nothing while the corrected one rebuilds exactly the lost packet |
| FecTableSpec.ColumnRecoverAsWritten | BaseClass/FEC/FEC2DTable.cpp:658-694 | TryRepairByColumn as written: a column is rebuilt only when cols == rows - 1, and the rebuilt packet is a well-sized media packet whose sequence number is never written |
| FecTableSpec.ColumnRecoverAsWrittenSquare | BaseClass/FEC/FEC2DTable.cpp:658-694 | on a square table the as-written TryRepairByColumn never rebuilds a column |
| FecTableSpec.ColumnRecoverAsWrittenSeqZero | BaseClass/FEC/FEC2DTable.cpp:658-694 | on a 3 x 2 table a column that lost its k-th packet is rebuilt as written with bytes 2-3 zero, while the corrected ColumnRecover gives exactly the lost packet |
| FecTableSpec.LengthSumsPair | BaseClass/FEC/FEC2DTable.cpp:358-364 | the length field over two packets is the XOR of their lengths, byte by byte |
| FecTableSpec.RepairLengthAsWrittenWrong | BaseClass/FEC/FEC2DTable.cpp:703-765 | for lost 20-byte and kept 30-byte packets the as-written Repair allocates 10 bytes while the derived length is 20 |
| FecTableSpec.PairLengthField | BaseClass/FEC/FEC2DTable.cpp:358-364 | a repair packet over a 20-byte and a 30-byte packet carries 10 in its length field |
| FecTable.XorInto | BaseClass/FEC/FEC2DTable.cpp:370-381 | each target byte j + off becomes its old value XOR the line's byte j; every other byte is unchanged |
| FecTable.XorBytes | BaseClass/FEC/FEC2DTable.cpp:765-768 | each byte j becomes its old value XOR byte j + off of the repair packet; every other byte is unchanged |
| FecTable.XorHeader | BaseClass/FEC/FEC2DTable.cpp:346-364 | the header loop computes the XOR sums of bytes 0, 1, 4-7 and of the lengths over the line |
| FecTable.CreateRepairPacket | BaseClass/FEC/FEC2DTable.cpp:321-389 | the bytes built are the repair packet of the line (its properties are FecRepair.RepairPacketFor and FecRepair.RecoverLost) |
| FecTable.RepairPayload | BaseClass/FEC/FEC2DTable.cpp:370-381 | the payload loop computes the XOR payload of the line |
| FecTable.Repair | BaseClass/FEC/FEC2DTable.cpp:696-775 | the bytes rebuilt are the corrected recovery RecoverPacket, so FecRepair.RecoverLost applies to them |
| FecTable.RecoverPayload | BaseClass/FEC/FEC2DTable.cpp:752-768 | the payload loops compute the XOR of the survivors with the repair payload |
| FecTable.CollectRow | BaseClass/FEC/FEC2DTable.cpp:399-420 | full iff the row has no empty cell; then the row's packets in order and their maximum length |
| FecTable.CollectColumn | BaseClass/FEC/FEC2DTable.cpp:442-463 | the same down a column |
| FecTable.RowBuilt | BaseClass/FEC/FEC2DTable.cpp:392-433 | a full row with an empty slot yields its packets' repair packet tagged (cols + 1, r + 1) |
| FecTable.ColumnBuilt | BaseClass/FEC/FEC2DTable.cpp:435-476 | a full column with an empty slot yields its packets' repair packet tagged (c + 1, rows + 1) |
| FecTable.ClearGrid | BaseClass/FEC/FEC2DTable.cpp:162-173 | every cell becomes empty |
| FecTable.ClearSlots | BaseClass/FEC/FEC2DTable.cpp:185-198 | every repair slot becomes empty |
| FecTable.ClearCounters | BaseClass/FEC/FEC2DTable.cpp:175-183 | every counter becomes 0 |
| FecTable.NewStorage | BaseClass/FEC/FEC2DTable.cpp:94-150 | fresh, distinct storage of the given dimensions: empty grid, zero counters, empty slots |
| FecTable.ClearedInv | BaseClass/FEC/FEC2DTable.cpp:160-205 | a cleared table with zero counters and empty ranges satisfies the table invariant |
| FecTable.PlaceInv | BaseClass/FEC/FEC2DTable.cpp:272-276 | storing in an empty cell and counting it keeps the table invariant |
| FecTable.GatherRow | BaseClass/FEC/FEC2DTable.cpp:630-643 | the row scan yields the row's packets in order and its last empty column |
| FecTable.GatherColumn | BaseClass/FEC/FEC2DTable.cpp:668-684 | the column scan yields the column's packets in order and its last empty row |
| FecTable.RecoverInto | BaseClass/FEC/FEC2DTable.cpp:645-652 | the packet rebuilt from a line, with the empty cell's sequence number in bytes 2-3 |
| FecTable.RowRecoverIs | BaseClass/FEC/FEC2DTable.cpp:620-656 | one packet short of a full row with a stored repair packet, TryRepairByRow is the recovery of that row |
| FecTable.ColumnRecoverIs | BaseClass/FEC/FEC2DTable.cpp:658-694 | the same for a column |
| FecTable.Table.constructor | BaseClass/FEC/FEC2DTable.cpp:4-17 | a new table holds no storage, keeps the payload type and has no output |
| FecTable.Table.ReleaseAll | BaseClass/FEC/FEC2DTable.cpp:24-84 | the storage goes, the dimensions become 0 and the base -1 |
| FecTable.Table.Init | BaseClass/FEC/FEC2DTable.cpp:86-158 | a row or column of 0 or above 32 gives -1 with nothing allocated; allocation k failing gives -(k + 1) after ReleaseAll; otherwise 0 and a cleared table of the given dimensions |
| FecTable.Table.ClearTable | BaseClass/FEC/FEC2DTable.cpp:160-205 | every cell, counter and slot emptied, base -1, both ranges empty; dimensions kept |
| FecTable.Table.IsSeqInRange | BaseClass/FEC/FEC2DTable.cpp:219-228 | s lies in Range1 or Range2 iff it lies in the window of the table's base |
| FecTable.Table.UpdataRange | BaseClass/FEC/FEC2DTable.cpp:230-245 | the base becomes s and the ranges become the window opened at s |
| FecTable.Table.CalculateRowAndColumn | BaseClass/FEC/FEC2DTable.cpp:247-257 | corrected: the cell of a windowed s lies in the grid and maps back to s |
| FecTable.Table.IsCanRecvPacket | BaseClass/FEC/FEC2DTable.cpp:583-618 | false without storage; a repair packet iff the table is cleared or bytes 20-21 name its base; a source packet iff it is in the window |
| FecTable.Table.CreateRepairPacketByRow | BaseClass/FEC/FEC2DTable.cpp:392-433 | the loop over the row array computes BuildRow |
| FecTable.Table.CreateRepairPacketByColumn | BaseClass/FEC/FEC2DTable.cpp:435-476 | the loop down the column computes BuildColumn |
| FecTable.Table.PlacePacket | BaseClass/FEC/FEC2DTable.cpp:272-276 | the cell gets the packet and the two counters rise; the invariant holds |
| FecTable.Table.OfferRow | BaseClass/FEC/FEC2DTable.cpp:278-292 | the row's repair packet, if built, goes into its slot and to the FEC output |
| FecTable.Table.OfferColumn | BaseClass/FEC/FEC2DTable.cpp:293-308 | the column's repair packet, if built, goes into its slot and to the FEC output |
| FecTable.Table.StoreSourcePacket | BaseClass/FEC/FEC2DTable.cpp:267-310 | the in-window part of RecvPacketAndMakeRepair follows StoreSource |
| FecTable.Table.OfferLines | BaseClass/FEC/FEC2DTable.cpp:278-308 | row then column offered, following EmitAfter |
| FecTable.Table.RecvPacketAndMakeRepair | BaseClass/FEC/FEC2DTable.cpp:259-319 | always 0; new table = MakeRepairStep and the FEC output grows by exactly its repair packets (properties in FecTableSpec.MakeRepair*) |
| FecTable.Table.TryRepairByRow | BaseClass/FEC/FEC2DTable.cpp:620-656 | corrected threshold cols - 1: yields RowRecover |
| FecTable.Table.TryRepairByColumn | BaseClass/FEC/FEC2DTable.cpp:658-694 | corrected threshold rows - 1 and the empty cell's sequence number written into the rebuilt packet (the source never writes it; see Findings): yields ColumnRecover, which ColumnRecoverLost proves rebuilds exactly the lost packet |
| FecTable.Table.RecvPacketAndTryRepair | BaseClass/FEC/FEC2DTable.cpp:494-581 | -1 and no change without storage; otherwise new table, RTP output and code are TryRepairStep's |
| FecTable.Table.ReceiveRepair | BaseClass/FEC/FEC2DTable.cpp:505-551 | the repair branch follows RepairArrives |
| FecTable.Table.FileRepairPacket | BaseClass/FEC/FEC2DTable.cpp:514-581 | filing by tags and trying the line follows FileRepair |
| FecTable.Table.KeepRowSlot | BaseClass/FEC/FEC2DTable.cpp:524-527 | corrected store: the row slot takes the packet only when empty |
| FecTable.Table.KeepColumnSlot | BaseClass/FEC/FEC2DTable.cpp:537-540 | corrected store: the column slot takes the packet only when empty |
| FecTable.Table.ReceiveSource | BaseClass/FEC/FEC2DTable.cpp:552-578 | the source branch follows SourceArrives |
| FecTable.Table.RepairLines | BaseClass/FEC/FEC2DTable.cpp:560-578 | the column, then the row, is tried; output is the column's then the row's |
| FecTable.Table.RepairRow | BaseClass/FEC/FEC2DTable.cpp:569-576 | follows AfterRow |
| FecTable.Table.RepairColumn | BaseClass/FEC/FEC2DTable.cpp:560-567 | follows AfterColumn |
| FecTable.Table.Emit | BaseClass/FEC/FEC2DTable.cpp:563-566 | a rebuilt packet goes to the RTP output and back into the table, following Forward |
| FecTable.Table.OutputRtp | BaseClass/FEC/FEC2DTable.cpp:486-492 | the RTP output grows by the packet and nothing else changes |
| FecTable.Table.OutputFec | BaseClass/FEC/FEC2DTable.cpp:478-484 | the FEC output grows by the packet |
| FecPool.FrontPool | BaseClass/FEC/FECDecoder.cpp:206-224 | erasing table k and pushing it to the front keeps every table well formed and owned apart, and moves exactly table k's state to the front |
| FecPool.TryRepairTable | BaseClass/FEC/FECDecoder.cpp:222 | RecvPacketAndTryRepair on one pool table leaves it well formed and in the state, with the rebuilt packets, of FecTableSpec.TryRepairStep |
| FecPool.ClearAndRepair | BaseClass/FEC/FECDecoder.cpp:233-237 | ClearTable then RecvPacketAndTryRepair gives the TryRepairStep of a cleared table, whatever the table held before |
| FecPool.DrainInto | BaseClass/FEC/FECDecoder.cpp:239-250 | the cache pass leaves the table in the state, and the cache with the packets, that FecDecoderSpec.Drain names |
| FecPool.DrainOne | BaseClass/FEC/FECDecoder.cpp:241-244 | a cached packet is taken exactly when IsCanRecvPacket holds for it, and then the table makes its repairs as MakeRepairStep says; otherwise the table is unchanged |
| FecPool.TryRepairIn | BaseClass/FEC/FECDecoder.cpp:222 | RecvPacketAndTryRepair on table k changes table k as TryRepairStep says and leaves every other table's storage unchanged |
| FecPool.RecycleIn | BaseClass/FEC/FECDecoder.cpp:233-250 | recycling table b (clear, take the packet, drain the cache) gives it the state of Drain after TryRepairStep on a cleared table; the other tables are untouched |
| FecPool.TakeAt | BaseClass/FEC/FECDecoder.cpp:220-224 | the found branch yields the pool states and rebuilt packets of FecDecoderSpec.ReceiveAt: table k repaired and moved to the front |
| FecPool.RecycleBack | BaseClass/FEC/FECDecoder.cpp:227-250 | the repair-packet branch yields the pool states, remaining cache and rebuilt packets of FecDecoderSpec.Recycled: the back table cleared, moved to the front and fed the packet then the cache |
| FecPool.FindIn | BaseClass/FEC/FECDecoder.cpp:204-218 | the index found is FecDecoderSpec.FindTable: the first table, front to back, whose IsCanRecvPacket holds, or -1 |
| FecPool.PlaceIn | BaseClass/FEC/FECDecoder.cpp:204-267 | the new pool, new cache and rebuilt packets are FecDecoderSpec.Receive of the old ones; the pool stays well formed and a cache of at most 51 packets stays at most 51 |
| FecPool.MakeTables | BaseClass/FEC/FECDecoder.cpp:91-103 | the loop succeeds exactly when the dimensions are valid and no table's allocation fails; then it yields n fresh tables, cleared, owned apart |
| FecPool.NewTable | BaseClass/FEC/FECDecoder.cpp:93-95 | a fresh table whose Init succeeds exactly when the dimensions are valid and no allocation fails, and then is cleared |
| FecPool.Grow | BaseClass/FEC/FECDecoder.cpp:94 | push_back of a new table appends its state to the pool's states and keeps the tables owned apart |
| FecFuel.HolesPlace | BaseClass/FEC/FEC2DTable.cpp:553-557 | storing a packet into an empty cell leaves exactly one empty cell fewer |
| FecFuel.HolesBound | BaseClass/FEC/FEC2DTable.cpp:127-140 | a table of rows by columns has at most rows * columns empty cells |
| FecFuel.ExtendsHoles | BaseClass/FEC/FEC2DTable.cpp:494-581 | a table state reached from another by RecvPacketAndTryRepair (cells only filled) has no more empty cells |
| FecFuel.FillsHole | BaseClass/FEC/FEC2DTable.cpp:551-557 | a source packet that lands in an empty cell implies the table had an empty cell |
| FecFuel.RowRecoverFills | BaseClass/FEC/FEC2DTable.cpp:571-575 | a packet TryRepairByRow rebuilds, unless it carries the repair payload type, lands in the row's empty cell when fed back |
| FecFuel.ColumnRecoverFills | BaseClass/FEC/FEC2DTable.cpp:562-566 | a packet TryRepairByColumn rebuilds, unless it carries the repair payload type, lands in the column's empty cell when fed back |
| FecFuel.TryRepairFuel | BaseClass/FEC/FEC2DTable.cpp:494-581 | with recursion depth at least the table's empty cells, one more level changes neither state, rebuilt packets nor return code |
| FecFuel.FileRepairFuel | BaseClass/FEC/FEC2DTable.cpp:506-578 | the same for filing a repair packet and trying its line |
| FecFuel.SourceFuel | BaseClass/FEC/FEC2DTable.cpp:549-578 | the same for storing a source packet and trying its column and row |
| FecFuel.AfterRowFuel | BaseClass/FEC/FEC2DTable.cpp:571-578 | the same for the row attempt |
| FecFuel.AfterColumnFuel | BaseClass/FEC/FEC2DTable.cpp:562-569 | the same for the column attempt |
| FecFuel.ForwardFuel | BaseClass/FEC/FEC2DTable.cpp:565-566 | the same for handing out a rebuilt packet and receiving it again |
| FecFuel.ForwardUnfold | BaseClass/FEC/FEC2DTable.cpp:565-566 | handing out a rebuilt packet outputs it first, then whatever its own RecvPacketAndTryRepair outputs |
| FecFuel.FuelSuffices | BaseClass/FEC/FEC2DTable.cpp:494-581 | the recursion of RecvPacketAndTryRepair is bounded: with depth rows * columns and no rebuilt packet carrying the repair payload type, any deeper bound gives the same result |
| FecFuel.FuelStable | BaseClass/FEC/FEC2DTable.cpp:494-581 | any bound at or above the number of empty cells gives the same result |
| FecFuel.ReceiveFuelSuffices | BaseClass/FEC/FECDecoder.cpp:195-270 | the decoder's table work on the whole pool gives the same result for every bound from rows * columns up |
| FecFuel.FecPayloadLoops | BaseClass/FEC/FEC2DTable.cpp:571-575 | the exception: a rebuilt packet that carries the repair payload type and names its own table and row is stored nowhere and rebuilt again, so it is output once per level of recursion, without bound |
| FecFuel.RecoverNeedsSlot | BaseClass/FEC/FEC2DTable.cpp:620-656 | TryRepairByRow rebuilds only when the table has a base sequence and the row holds its repair packet |
| FecFuel.RepairRefiles | BaseClass/FEC/FEC2DTable.cpp:514-527 | a repair packet for a row whose slot is taken leaves the table as it is (the first repair packet is kept) and only tries the row again |
| FecEncoder.Forget | BaseClass/FEC/FECEncoder.cpp:196-201 | a key stays in the map exactly when it was there and is not among the evicted ones, with its packet unchanged |
| FecEncoder.CachedInv | BaseClass/FEC/FECEncoder.cpp:186-204 | caching keeps the cache at most 200 entries, its list free of repeats and holding exactly the map's keys |
| FecEncoder.CachedHolds | BaseClass/FEC/FECEncoder.cpp:191-194 | after caching, the packet's sequence number is cached, with the earlier packet of that number when there was one and with this packet otherwise |
| FecEncoder.CachedFifo | BaseClass/FEC/FECEncoder.cpp:194-201 | eviction is first in first out: a new number appended to a full cache drops exactly the oldest entry, to a cache with room drops nothing, and every other entry keeps its packet |
| FecEncoder.CachedKeepsAll | BaseClass/FEC/FECEncoder.cpp:196 | while the cache has room no entry is dropped or changed |
| FecEncoder.StampReads | BaseClass/FEC/FECEncoder.cpp:162-169 | a stamped repair packet reads back with the marker bit, the encoder's payload type, the counter as sequence number and the SSRC; bytes 0, 4-7 and 12 on are the table's |
| FecEncoder.StampAllAt | BaseClass/FEC/FECEncoder.cpp:160-176 | the i-th repair packet handed on carries the counter advanced i times (mod 65536) as its sequence number |
| FecEncoder.StampAllSplit | BaseClass/FEC/FECEncoder.cpp:170 | two batches stamped one after the other are numbered as one batch: the second continues where the first left the counter |
| FecEncoder.PidAt | BaseClass/FEC/FECEncoder.cpp:114 | the PID of a NACK item is a 16-bit sequence number |
| FecEncoder.BitsLostStep | BaseClass/FEC/FECEncoder.cpp:118-125 | each inner step appends PID + j + 1 exactly when bit 7 of the shifted BLP is set, and shifts the BLP left by one in 16 bits |
| FecEncoder.ShiftStep | BaseClass/FEC/FECEncoder.cpp:120-124 | one shift brings the next bit of the BLP's low byte up to bit 7 |
| FecEncoder.ShiftedLow | BaseClass/FEC/FECEncoder.cpp:124 | after i shifts bit 7 of the BLP holds its original bit 7 - i |
| FecEncoder.BitsLostLowByte | BaseClass/FEC/FECEncoder.cpp:118-125 | the first eight steps list exactly PID + 1 for bit 7 down to PID + 8 for bit 0 of the BLP |
| FecEncoder.NoLowByte | BaseClass/FEC/FECEncoder.cpp:118-125 | from the ninth step on the low byte has been shifted out and nothing more is listed |
| FecEncoder.ItemLostMeaning | BaseClass/FEC/FECEncoder.cpp:117-125 | one NACK item lists its PID and then at most eight further numbers, those the BLP's low byte flags |
| FecEncoder.HighByteIgnored | BaseClass/FEC/FECEncoder.cpp:118-125 | bits 15-8 of the BLP never change what is listed |
| FecEncoder.ResendCached | BaseClass/FEC/FECEncoder.cpp:128-137 | everything re-sent is a cached packet; if every listed number is cached one packet goes out per listed number; if none is, nothing goes out |
| FecEncoder.ResendAppend | BaseClass/FEC/FECEncoder.cpp:130-136 | the re-send of two lists one after the other is the re-send of the first, then of the second |
| FecEncoder.NackOneItem | BaseClass/FEC/FECEncoder.cpp:101-140 | a NACK of one item with an empty BLP re-sends exactly the cached packet it names |
| FecEncoder.NoneFlagged | BaseClass/FEC/FECEncoder.cpp:120 | an all-zero BLP lists no further number |
| FecEncoder.Encoder.constructor | BaseClass/FEC/FECEncoder.cpp:7-14 | payload type 99, counter 0, SSRC 0x55667788, no table and an empty cache |
| FecEncoder.Encoder.Init | BaseClass/FEC/FECEncoder.cpp:35-64 | -1 and nothing changes when a table exists; otherwise success exactly when the dimensions are valid and no allocation fails, giving a cleared table with the encoder's payload type; on failure everything is released |
| FecEncoder.Encoder.ReleaseAll | BaseClass/FEC/FECEncoder.cpp:21-33 | no table and an empty cache afterwards |
| FecEncoder.Encoder.SetPayloadType | BaseClass/FEC/FECEncoder.cpp:142-152 | accepted exactly when the payload type fits 7 bits; a refused one changes nothing |
| FecEncoder.Encoder.SetSSRC | BaseClass/FEC/FECEncoder.cpp:154-158 | always accepted; the SSRC is the new value |
| FecEncoder.Encoder.OnRTPPacket | BaseClass/FEC/FECEncoder.cpp:178-184 | the packet is handed on unchanged |
| FecEncoder.Encoder.OnFECPacket | BaseClass/FEC/FECEncoder.cpp:160-176 | the repair packet is handed on stamped with the current counter, which then advances by one in 16 bits |
| FecEncoder.Encoder.ForwardRepairs | BaseClass/FEC/FECEncoder.cpp:160-176 | each repair packet of a batch is handed on stamped, the counter advancing once per packet |
| FecEncoder.Encoder.CacheRTPPacket | BaseClass/FEC/FECEncoder.cpp:186-204 | the cache list and map become Cached of the old ones, whose invariant and eviction order CachedInv and CachedFifo give |
| FecEncoder.Encoder.RecvRTPPacket | BaseClass/FEC/FECEncoder.cpp:79-99 | the packet is always handed on first; without a table -1 and nothing else; otherwise 0, the packet cached, the table advanced by RecvPacketAndMakeRepair and the repair packets it builds handed on after it, stamped |
| FecEncoder.Encoder.Protect | BaseClass/FEC/FECEncoder.cpp:91 | the table's insertion hands on each repair packet it builds, stamped, as it is built |
| FecEncoder.Encoder.MakeRepairs | BaseClass/FEC/FECEncoder.cpp:91 | the table's insertion alone: its new state and its repair packets, at least 24 bytes each |
| FecEncoder.Encoder.RecvNackPacket | BaseClass/FEC/FECEncoder.cpp:101-140 | -1 and nothing sent when the item count does not fit the length; otherwise 0 and the cached packet of every number the items list re-sent, in order |
| FecEncoder.Encoder.ResendAll | BaseClass/FEC/FECEncoder.cpp:128-137 | every listed number found in the cache has its packet handed on again, in list order |
| FecEncoder.Encoder.LostItems | BaseClass/FEC/FECEncoder.cpp:111-126 | the outer loop builds exactly the lost list of the first n items, in item order |
| FecEncoder.Encoder.PushItem | BaseClass/FEC/FECEncoder.cpp:114-125 | one item appends its PID and then what its BLP flags |
| FecEncoder.Encoder.BlpStep | BaseClass/FEC/FECEncoder.cpp:120-124 | one inner step appends PID + i + 1 exactly when bit 7 of the BLP is set and shifts the BLP left by one |
| FecDecoderSpec.Next | BaseClass/FEC/FECDecoder.cpp:303 | incrementing a uint16_t sequence number stays a sequence number |
| FecDecoderSpec.NextWraps | BaseClass/FEC/FECDecoder.cpp:354 | the increment is the 16-bit one: 65535 is followed by 0 |
| FecDecoderSpec.Prev | BaseClass/FEC/FECDecoder.cpp:303 | the number before s on the ring, the one whose increment gives s |
| FecDecoderSpec.Dist | BaseClass/FEC/FECDecoder.cpp:394-416 | the number of increments from s to t, below 65536, zero exactly when s equals t |
| FecDecoderSpec.RingGap | BaseClass/FEC/FECDecoder.cpp:152 | the distance the short way round the ring, at most 32768, zero exactly when the numbers are equal |
| FecDecoderSpec.DistSplit | BaseClass/FEC/FECDecoder.cpp:394-416 | going from a to c by way of b passes b exactly when b is no further ahead than c, and the distances add up |
| FecDecoderSpec.EmptyOrder | BaseClass/FEC/FECDecoder.cpp:79-137 | the sort array after Init: every slot empty, both counters 0, no packet received |
| FecDecoderSpec.AdmitAsWritten | BaseClass/FEC/FECDecoder.cpp:140-163 | OnRTPPacket as written, with the jump measured on promoted ints, keeps the sort state well formed |
| FecDecoderSpec.AdmitAsWrittenJumpsAtWrap | BaseClass/FEC/FECDecoder.cpp:152 | while the output waits for 65535 the arrival of 0 moves the output point to 0 as written, and with the output step Pop the packets 0 and 65535 leave in the order 0, 65535; the corrected Admit keeps waiting and hands them on as 65535, 0 |
| FecDecoderSpec.Admit | BaseClass/FEC/FECDecoder.cpp:140-163 | the packet is stored in its own slot and becomes the last received; the first packet sets the output point; afterwards the output point is within 100 of the packet's number, and a packet within that distance leaves it where it was |
| FecDecoderSpec.Handed | BaseClass/FEC/FECDecoder.cpp:197-202 | the packets RecvPacket stores: the packet itself unless it carries the decoder's payload type, then those the tables rebuilt |
| FecDecoderSpec.AdmitAllTagged | BaseClass/FEC/FECDecoder.cpp:140-163 | storing packets keeps every stored packet in the slot of its own number; the last one stored is the last received |
| FecDecoderSpec.Pop | BaseClass/FEC/FECDecoder.cpp:297-314 | taking the packet at the output point keeps the sort state well formed |
| FecDecoderSpec.SkipAsWritten | BaseClass/FEC/FECDecoder.cpp:341-370 | SkipPackets as written keeps the sort state well formed |
| FecDecoderSpec.SkipAsWrittenRunsOn | BaseClass/FEC/FECDecoder.cpp:346-362 | over empty slots short of the last received number the loop runs all its steps, hands nothing on and moves the output point that far |
| FecDecoderSpec.SkipAsWrittenOvershoots | BaseClass/FEC/FECDecoder.cpp:346-354 | once everything received has been handed on, the as-written loop moves the output point 11 places past the last received number; the corrected Skip leaves it |
| FecDecoderSpec.SkipAsWrittenProbe | BaseClass/FEC/FECDecoder.cpp:346-354 | with every slot empty, output point 6 and last received 5, the as-written loop ends at 16 and the corrected one at 6 |
| FecDecoderSpec.Skip | BaseClass/FEC/FECDecoder.cpp:341-370 | SkipPackets as intended (never past the last received number) keeps the sort state well formed |
| FecDecoderSpec.SkipAgrees | BaseClass/FEC/FECDecoder.cpp:346-354 | while the output point lies behind the last received number the corrected and the as-written loop agree; otherwise the corrected one does nothing |
| FecDecoderSpec.SkipKeeps | BaseClass/FEC/FECDecoder.cpp:341-370 | SkipPackets hands on at most one packet and changes neither the last received number nor the first-packet flag |
| FecDecoderSpec.SkipQuiet | BaseClass/FEC/FECDecoder.cpp:346-362 | when it finds nothing the slots are unchanged, every slot passed is empty, the output point moved at most 10 places and never past the last received number, and it stopped there or after 10 places |
| FecDecoderSpec.SkipHands | BaseClass/FEC/FECDecoder.cpp:355-361 | when it hands a packet on, that is the packet in the first full slot after the output point, within 10 places and not past the last received number; only that slot is emptied and the output point moves just past it |
| FecDecoderSpec.Tick | BaseClass/FEC/FECDecoder.cpp:292-338 | one pass of the output loop, the two timers given as inputs, keeps the sort state well formed |
| FecDecoderSpec.TickInOrder | BaseClass/FEC/FECDecoder.cpp:292-338 | packets leave in sequence order: a pass hands on at most one packet, the one numbered just behind the new output point; stored packets stay in their slots; nothing happens before the first packet |
| FecDecoderSpec.FindTable | BaseClass/FEC/FECDecoder.cpp:204-218 | the first table, front to back, that can take the packet, or -1 when none can |
| FecDecoderSpec.MoveToFrontOrder | BaseClass/FEC/FECDecoder.cpp:211-223 | erase and push_front only reorder: the chosen table comes first, those before it move back one place, those after it stay |
| FecDecoderSpec.MoveToFrontUpd | BaseClass/FEC/FECDecoder.cpp:222-223 | a table updated and moved to the front comes first, the others follow in their old order |
| FecDecoderSpec.Drain | BaseClass/FEC/FECDecoder.cpp:239-250 | the cache pass keeps the table well formed and never grows the cache |
| FecDecoderSpec.DrainKeepsOut | BaseClass/FEC/FECDecoder.cpp:239-250 | with the table's window open, the cache pass never moves it: the cache keeps exactly the packets outside the window, in order |
| FecDecoderSpec.SameBaseSameTake | BaseClass/FEC/FEC2DTable.cpp:583-618 | which cached packets a table can take depends only on its base sequence number |
| FecDecoderSpec.ReceiveAt | BaseClass/FEC/FECDecoder.cpp:220-224 | the found branch keeps the pool well formed and its size |
| FecDecoderSpec.Recycled | BaseClass/FEC/FECDecoder.cpp:227-250 | the recycling branch keeps the pool well formed and its size, and never grows the cache |
| FecDecoderSpec.Receive | BaseClass/FEC/FECDecoder.cpp:204-267 | RecvPacket's table work keeps the pool well formed and its size, and a cache of at most 51 packets at most 51 |
| FecDecoderSpec.ReceiveFound | BaseClass/FEC/FECDecoder.cpp:206-224 | when a table can take the packet, the first such table gets it and moves to the front, the other tables keep their order and the cache is untouched |
| FecDecoderSpec.ReceiveRecycles | BaseClass/FEC/FECDecoder.cpp:227-250 | a repair packet no table can take recycles the back table: cleared, given the packet and then the cache, and moved to the front |
| FecDecoderSpec.ReceiveCaches | BaseClass/FEC/FECDecoder.cpp:252-266 | any other packet no table can take is cached at the front, the cache first emptied when it holds more than 50 packets |
| FecDecoderSpec.NoLoss | BaseClass/FEC/FECDecoder.cpp:399-400 | a fresh item flags no packet after its PID |
| FecDecoderSpec.BitsApart | BaseClass/FEC/FECDecoder.cpp:411 | distinct places after the PID have distinct BLP bits |
| FecDecoderSpec.BlpBit | BaseClass/FEC/FECDecoder.cpp:411 | bit 15 - i of the BLP is set exactly when the packet i + 1 places after the PID is reported lost |
| FecDecoderSpec.Bits | BaseClass/FEC/FECDecoder.cpp:402-413 | the inner loop moves towards the last received number, one place per step |
| FecDecoderSpec.Scan | BaseClass/FEC/FECDecoder.cpp:394-416 | the corrected outer loop gives well-formed items |
| FecDecoderSpec.BitsStop | BaseClass/FEC/FECDecoder.cpp:402-408 | the inner loop stops on the last received number or sixteen places after the PID |
| FecDecoderSpec.BitsRecord | BaseClass/FEC/FECDecoder.cpp:402-413 | a BLP bit is set exactly when its place was passed, is not the last received number and is empty |
| FecDecoderSpec.ItemCovers | BaseClass/FEC/FECDecoder.cpp:397-414 | an item reports its PID and exactly the empty places the inner loop passed, other than the last received number |
| FecDecoderSpec.ScanReports | BaseClass/FEC/FECDecoder.cpp:394-416 | the corrected scan reports exactly the empty slots strictly between its start and the last received number: nothing present is asked for, nothing missing is left out |
| FecDecoderSpec.ScanLength | BaseClass/FEC/FECDecoder.cpp:419-422 | at most one item per two places passed, so the item count always fits the 16-bit length field |
| FecDecoderSpec.ItemBytes | BaseClass/FEC/FECDecoder.cpp:443-451 | four bytes per item |
| FecDecoderSpec.NackHeader | BaseClass/FEC/FECDecoder.cpp:430-441 | a 12-byte header |
| FecDecoderSpec.NackBytes | BaseClass/FEC/FECDecoder.cpp:419-456 | a NACK of 12 + 4 * items bytes |
| FecDecoderSpec.ItemBytesAppend | BaseClass/FEC/FECDecoder.cpp:444-451 | the bytes of two item lists are the bytes of each in turn |
| FecDecoderSpec.ItemBytesAt | BaseClass/FEC/FECDecoder.cpp:446-449 | item i sits at bytes 4i..4i+3: the PID and then the BLP, big-endian |
| FecDecoderSpec.NackHeaderAt | BaseClass/FEC/FECDecoder.cpp:430-441 | the header is version 2 with FMT 1, packet type 205, the length field count + 2, the sender SSRC and a zero media SSRC (RFC 4585 section 6.2.1) |
| FecDecoderSpec.NackBytesAt | BaseClass/FEC/FECDecoder.cpp:430-451 | the length field and item i sit where RFC 4585 section 6.2.1 puts them |
| FecDecoderSpec.BlpBytes | BaseClass/FEC/FECDecoder.cpp:448-449 | the two bytes written for a BLP read back as that BLP |
| FecDecoderSpec.NackRoundTrip | BaseClass/FEC/FECEncoder.cpp:104-115 | reading a NACK as the encoder does gives back the PID and BLP of every item the decoder wrote, and the length field holds the item count plus two |
| FecDecoderSpec.NackRejectedByEncoder | BaseClass/FEC/FECEncoder.cpp:104-109 | the encoder rejects every NACK the decoder writes: it wants (count + 3) * 4 bytes for the count + 2 it reads |
| FecDecoderSpec.OuterAsWritten | BaseClass/FEC/FECDecoder.cpp:394-416 | one pass of the outer loop as written yields a sequence number |
| FecDecoderSpec.AsWrittenOverFilled | BaseClass/FEC/FECDecoder.cpp:394-416 | as written, over full slots up to the last received number, the loop ends with no items |
| FecDecoderSpec.AsWrittenMissesNext | BaseClass/FEC/FECDecoder.cpp:392-397 | the as-written scan starts one past the output point, so the packet the output loop waits for is never asked for; the corrected scan asks for it |
| FecDecoderSpec.BitsAway | BaseClass/FEC/FECDecoder.cpp:402-413 | over full slots, starting just after the last received number, the inner loop never comes back to it |
| FecDecoderSpec.AsWrittenNeverEnds | BaseClass/FEC/FECDecoder.cpp:394-416 | when the last received number's slot is empty and every other slot is full, the as-written outer loop steps past it, asks for it and never ends, however many passes it is given |
| FecDecoder.Decoder.SortState | BaseClass/FEC/FECDecoder.cpp:142-160 | the sort array and its counters, read as a well-formed value |
| FecDecoder.Decoder.constructor | BaseClass/FEC/FECDecoder.cpp:12-23 | payload type 99, SSRC 0x33445566, no callbacks, no tables, no sort array, counters 0, output loop stopped |
| FecDecoder.Decoder.ReleaseAll | BaseClass/FEC/FECDecoder.cpp:30-77 | the output loop stops; tables, cache and sort array are released and the counters reset |
| FecDecoder.Decoder.Init | BaseClass/FEC/FECDecoder.cpp:79-137 | -1 for no tables, -2 when a table's Init fails, -4 for a missing callback, each after ReleaseAll; 0 exactly when the output loop runs, with tableNum fresh cleared tables, an empty cache and an empty sort array |
| FecDecoder.Decoder.Launch | BaseClass/FEC/FECDecoder.cpp:105-134 | after the table loop: -4 exactly when a callback is missing; otherwise the output loop runs over the new tables |
| FecDecoder.Decoder.Start | BaseClass/FEC/FECDecoder.cpp:105-134 | the decoder takes the new tables and an empty sort array and runs |
| FecDecoder.Decoder.SetDecoderPacketCallback | BaseClass/FEC/FECDecoder.cpp:165-169 | always accepted; the callback is set |
| FecDecoder.Decoder.SetNackPacketCallback | BaseClass/FEC/FECDecoder.cpp:171-175 | always accepted; the callback is set |
| FecDecoder.Decoder.SetPayloadType | BaseClass/FEC/FECDecoder.cpp:177-187 | accepted exactly when the payload type fits 7 bits; a refused one changes nothing |
| FecDecoder.Decoder.SetSSRC | BaseClass/FEC/FECDecoder.cpp:189-193 | always accepted; the SSRC is the new value |
| FecDecoder.Decoder.OnRTPPacket | BaseClass/FEC/FECDecoder.cpp:140-163 | the sort state becomes Admit of the old one, whose properties (own slot, last received, bounded jump) FecDecoderSpec.Admit states |
| FecDecoder.Decoder.AdmitEach | BaseClass/FEC/FECDecoder.cpp:140-163 | OnRTPPacket for each rebuilt packet in turn |
| FecDecoder.Decoder.Place | BaseClass/FEC/FECDecoder.cpp:204-267 | the pool, the cache and the rebuilt packets follow FecDecoderSpec.Receive; the sort state is untouched |
| FecDecoder.Decoder.Install | BaseClass/FEC/FECDecoder.cpp:223 | a new table list and cache are stored; the tables and the sort state are untouched |
| FecDecoder.Decoder.AdmitRunning | BaseClass/FEC/FECDecoder.cpp:140-163 | storing packets leaves the pool and cache as they were |
| FecDecoder.Decoder.RecvPacket | BaseClass/FEC/FECDecoder.cpp:195-270 | always 0; the pool and the cache follow Receive, and OnRTPPacket sees the packet unless it carries the decoder's payload type, then every packet the tables rebuild, in order |
| FecDecoder.Decoder.PopOut | BaseClass/FEC/FECDecoder.cpp:297-305 | the packet at the output point leaves its slot and the output point moves on, as Pop says |
| FecDecoder.Decoder.SkipPackets | BaseClass/FEC/FECDecoder.cpp:341-370 | the sort state and the packet handed on follow the corrected Skip, whose properties SkipHands and SkipQuiet state |
| FecDecoder.Decoder.MakeNackPacket | BaseClass/FEC/FECDecoder.cpp:385-459 | no packet exactly when the corrected scan lists nothing; otherwise the generic NACK of the items it lists |
| FecDecoder.Decoder.OutPacketStep | BaseClass/FEC/FECDecoder.cpp:292-338 | one pass of the output loop follows Tick: handed-on packets go to the decoder callback, NACKs to the NACK callback; the pool and cache are untouched |
| FecDecoder.Decoder.Pass | BaseClass/FEC/FECDecoder.cpp:294-332 | the pass on the sort state follows Tick |
| FecDecoder.ScanAfter | BaseClass/FEC/FECDecoder.cpp:402-413 | the inner loop's stop and its flags are Bits |
| FecDecoder.ScanSlots | BaseClass/FEC/FECDecoder.cpp:390-416 | the outer loop's items are the corrected Scan from the output point |
| FecDecoder.ScanStep | BaseClass/FEC/FECDecoder.cpp:396-414 | passing an empty place adds its item and continues from where the inner loop stopped |
| FecDecoder.NackData | BaseClass/FEC/FECDecoder.cpp:419-451 | the buffer holds exactly NackBytes: header, then PID and BLP of each item |
| FecDecoder.ItemsNext | BaseClass/FEC/FECDecoder.cpp:444-451 | one more item written extends the bytes by that item's four bytes |
| FecDecoder.PutHeader | BaseClass/FEC/FECDecoder.cpp:430-441 | bytes 0-11 become NackHeader |
| FecDecoder.PutItem | BaseClass/FEC/FECDecoder.cpp:446-449 | the four bytes at offset k become the item's bytes, the ones before it unchanged |
| RtpPacket.RtpHeader | BaseClass/RTPPacketizer/H264RTPpacketizer.cpp:269-283 | twelve header bytes, version 2 in byte 0 and the given marker-and-type byte in byte 1 |
| RtpPacket.HeaderSeq | BaseClass/RTPPacketizer/H264RTPpacketizer.cpp:271-273 | the header carries the packetizer's counter as its sequence number |
| RtpPacket.Fragment | BaseClass/RTPPacketizer/H264RTPpacketizer.cpp:294-388 | a fragment is 14 bytes of header, FU indicator and FU header, followed by exactly its chunk |
| RtpPacket.FuCount | BaseClass/RTPPacketizer/H264RTPpacketizer.cpp:193-216 | a unit over 1400 bytes is cut into at least two fragments, enough and no more to hold its bytes after the header byte in pieces of 1398 |
| RtpPacket.FuChunk | BaseClass/RTPPacketizer/H264RTPpacketizer.cpp:198-215 | every fragment carries 1 to 1398 bytes, every one but the last exactly 1398 |
| RtpPacket.FuaPacketAt | BaseClass/RTPPacketizer/H264RTPpacketizer.cpp:193-216 | fragment j is the fragment of kind start, middle or end for chunk j, with the counter advanced j times |
| RtpPacket.FuaPrefix | BaseClass/RTPPacketizer/H264RTPpacketizer.cpp:198-215 | the payloads of the first k fragments are the unit's bytes from index 1 up to where fragment k starts |
| RtpPacket.FuaReassembles | BaseClass/RTPPacketizer/H264RTPpacketizer.cpp:193-216 | the fragments put together give back the unit: its header byte followed by all fragment payloads, in order |
| RtpPacket.FuaShape | BaseClass/RTPPacketizer/H264RTPpacketizer.cpp:294-388 | every fragment is at most 1412 bytes, carries the FU indicator and the FU header of its place, the marker on the last one only, and the counter advanced once per fragment |
| RtpPacket.WriteHeader | BaseClass/RTPPacketizer/H264RTPpacketizer.cpp:269-283 | bytes 0-11 of the buffer become the header; the rest of the buffer stays |
| RtpPacket.WriteFragment | BaseClass/RTPPacketizer/H264RTPpacketizer.cpp:294-388 | the packet handed on is exactly the fragment for the kind and chunk |
| RtpPacket.PacketAsFua | BaseClass/RTPPacketizer/H264RTPpacketizer.cpp:193-216 | the packets handed on are all the fragments of the unit, in order, and the counter advances once per fragment |
| RtpPacket.FuaNext | BaseClass/RTPPacketizer/H264RTPpacketizer.cpp:206-215 | one more fragment handed on extends the fragments so far by fragment k |
| H264Packetizer.SingleNalu | BaseClass/RTPPacketizer/H264RTPpacketizer.cpp:267-292 | a single-NAL packet is the 12-byte header followed by exactly the unit |
| H264Packetizer.NalPackets | BaseClass/RTPPacketizer/H264RTPpacketizer.cpp:179-186 | a unit always gives at least one packet |
| H264Packetizer.StreamAppend | BaseClass/RTPPacketizer/H264RTPpacketizer.cpp:107-191 | two lists of units sent one after the other make one stream, the counter of the second starting where the first left it |
| H264Packetizer.ToSend | BaseClass/RTPPacketizer/H264RTPpacketizer.cpp:122-135 | a stored parameter set goes out exactly before an IDR slice, when it is stored and not marked sent |
| H264Packetizer.StreamOne | BaseClass/RTPPacketizer/H264RTPpacketizer.cpp:179-186 | the stream of one unit is that unit's packets |
| H264Packetizer.PreludeStream | BaseClass/RTPPacketizer/H264RTPpacketizer.cpp:122-135 | before an IDR slice the unsent SPS's packets come first, then the unsent PPS's |
| H264Packetizer.StreamSnoc | BaseClass/RTPPacketizer/H264RTPpacketizer.cpp:177-187 | the unit itself follows its prelude in the same counted stream |
| H264Packetizer.RecvStream | BaseClass/RTPPacketizer/H264RTPpacketizer.cpp:107-191 | what RecvPacket sends for a unit is the stream of the parameter sets due before it, followed by the unit |
| H264Packetizer.PreludeSent | BaseClass/RTPPacketizer/H264RTPpacketizer.cpp:122-135 | the parameter-set packets sent are the stream of the parameter sets due |
| H264Packetizer.Learned | BaseClass/RTPPacketizer/H264RTPpacketizer.cpp:442-458 | a parameter set learned from a buffer is never empty |
| H264Packetizer.NalPacketsShape | BaseClass/RTPPacketizer/H264RTPpacketizer.cpp:179-186 | every packet of a unit is at most 1412 bytes (within the 1528-byte buffer), version 2, numbered by the counter advanced once per packet, with the marker on the last packet only |
| H264Packetizer.StreamSeqs | BaseClass/RTPPacketizer/H264RTPpacketizer.cpp:107-191 | across a whole stream the sequence numbers run on without a gap: packet k carries the counter advanced k times |
| H264Packetizer.LearnedWhole | BaseClass/RTPPacketizer/H264RTPpacketizer.cpp:137-150 | a first SPS unit with no start code inside it is stored whole |
| H264Packetizer.WriteSingle | BaseClass/RTPPacketizer/H264RTPpacketizer.cpp:267-292 | the packet handed on is exactly the single-NAL packet |
| H264Packetizer.SendNal | BaseClass/RTPPacketizer/H264RTPpacketizer.cpp:177-187 | a unit's packets are NalPackets and the counter advances once per packet |
| H264Packetizer.SendStored | BaseClass/RTPPacketizer/H264RTPpacketizer.cpp:218-258 | a stored parameter set's packets, none when nothing is stored; the counter advances once per packet |
| H264Packetizer.SendUnit | BaseClass/RTPPacketizer/H264RTPpacketizer.cpp:122-136 | the parameter sets due, then the unit, as RecvPackets; the counter advances once per packet |
| H264Packetizer.H264RTPpacketizer.constructor | BaseClass/RTPPacketizer/H264RTPpacketizer.cpp:10-26 | payload type 96, SSRC 0x12345678, counter rand() % 65535, no buffer, no parameter sets, no callback |
| H264Packetizer.H264RTPpacketizer.Init | BaseClass/RTPPacketizer/H264RTPpacketizer.cpp:33-56 | 0 with a buffer; -2 exactly when no buffer existed and the allocation fails, and then everything is released |
| H264Packetizer.H264RTPpacketizer.ReleaseAll | BaseClass/RTPPacketizer/H264RTPpacketizer.cpp:58-79 | no buffer, no parameter sets, both marks cleared, no callback |
| H264Packetizer.H264RTPpacketizer.SetPaylodaType | BaseClass/RTPPacketizer/H264RTPpacketizer.cpp:81-97 | accepted exactly when the payload type fits 7 bits; a refused one changes nothing |
| H264Packetizer.H264RTPpacketizer.SetRtpPacketCallbaclk | BaseClass/RTPPacketizer/H264RTPpacketizer.cpp:99-105 | always accepted; the callback is set |
| H264Packetizer.H264RTPpacketizer.SetSSRC | BaseClass/RTPPacketizer/H264RTPpacketizer.cpp:260-265 | always accepted; the SSRC is the new value |
| H264Packetizer.H264RTPpacketizer.SetSPS | BaseClass/RTPPacketizer/H264RTPpacketizer.cpp:390-414 | -1 exactly for missing or empty data, -2 exactly for a failed allocation, otherwise 0 and the SPS replaced; on error the old SPS stays |
| H264Packetizer.H264RTPpacketizer.SetPPS | BaseClass/RTPPacketizer/H264RTPpacketizer.cpp:416-440 | the same for the PPS |
| H264Packetizer.H264RTPpacketizer.UpdateSPSAndPPS | BaseClass/RTPPacketizer/H264RTPpacketizer.cpp:442-458 | the SPS and the PPS found behind start codes in the buffer replace the stored ones; those not found are kept |
| H264Packetizer.H264RTPpacketizer.StoreSps | BaseClass/RTPPacketizer/H264RTPpacketizer.cpp:446-451 | FindSPS then SetSPS: the SPS found replaces the stored one |
| H264Packetizer.H264RTPpacketizer.StorePps | BaseClass/RTPPacketizer/H264RTPpacketizer.cpp:453-457 | FindPPS then SetPPS: the PPS found replaces the stored one |
| H264Packetizer.H264RTPpacketizer.PacketStored | BaseClass/RTPPacketizer/H264RTPpacketizer.cpp:218-258 | a stored parameter set is packetized and handed on; with none, nothing is sent; always 0 |
| H264Packetizer.H264RTPpacketizer.Remember | BaseClass/RTPPacketizer/H264RTPpacketizer.cpp:137-175 | a first SPS or PPS unit marks it sent and, if the copy can be allocated, has both parameter sets looked up in it; any other type clears both marks |
| H264Packetizer.H264RTPpacketizer.Emit | BaseClass/RTPPacketizer/H264RTPpacketizer.cpp:177-187 | the packets for a unit, given the marks and parameter sets seen on entry, are handed on and counted |
| H264Packetizer.H264RTPpacketizer.RecvUnit | BaseClass/RTPPacketizer/H264RTPpacketizer.cpp:119-188 | the packets handed on are RecvPackets of the state on entry, and the marks and parameter sets are updated as the bookkeeping says |
| H264Packetizer.H264RTPpacketizer.RecvPacket | BaseClass/RTPPacketizer/H264RTPpacketizer.cpp:107-191 | -1 and nothing changed exactly for missing or empty data; otherwise 0, the due parameter sets and then the unit handed on with the counter advancing once per packet, and the marks and stored parameter sets updated |
| AnnexB.FirstNal | BaseClass/MediaEncoder/VideoEncoder.cpp:494-506 | the first index from p on that holds a NAL of the type right after a four-byte start code, or the data's length |
| AnnexB.FirstNalFirst | BaseClass/MediaEncoder/VideoEncoder.cpp:494-506 | no such NAL lies before the index found |
| AnnexB.NextStart | BaseClass/MediaEncoder/VideoEncoder.cpp:508-521 | the end scan stops on a start code or at the data's end |
| AnnexB.NextStartFirst | BaseClass/MediaEncoder/VideoEncoder.cpp:508-521 | no start code lies before where the end scan stops |
| AnnexB.NalLengthSpan | BaseClass/MediaEncoder/VideoEncoder.cpp:508-530 | the length reported is the whole NAL: non-empty, ending at a start code or at the end of the data, with no start code inside; 0 when nothing is found |
| AnnexB.Scan | BaseClass/MediaEncoder/VideoEncoder.cpp:494-530 | the two loops give the first NAL of the type and its length |
| AnnexB.FindSPS | BaseClass/MediaEncoder/VideoEncoder.cpp:484-533 | false with no pointer and size 0 for missing or short data or no SPS; otherwise true exactly when an SPS is found, with its position and the length to the next start code |
| AnnexB.FindPPS | BaseClass/MediaEncoder/VideoEncoder.cpp:535-584 | the same scan for a PPS |
| AnnexB.ThreeByteStartMissed | BaseClass/MediaEncoder/VideoEncoder.cpp:497-499 | only four-byte start codes are recognised: an SPS behind 00 00 01 is not found |
| AnnexB.FindsBoth | BaseClass/MediaEncoder/VideoEncoder.cpp:484-584 | on an SPS and a PPS behind four-byte start codes, each is found at its index with its exact length |
| MjpegPacketizer.JpegSingleAsWritten | BaseClass/RTPPacketizer/MJPEGRTPpacketizer.cpp:149-176 | as written, the single packet is 13 + n bytes whose byte 12 is whatever the buffer held, followed by the frame |
| MjpegPacketizer.StaleByteShows | BaseClass/RTPPacketizer/MJPEGRTPpacketizer.cpp:166-169 | after a fragmented frame byte 12 holds that frame's FU indicator, never 0x0a, so the same frame goes out differently depending on what was sent before |
| MjpegPacketizer.JpegSingleShape | BaseClass/RTPPacketizer/MJPEGRTPpacketizer.cpp:149-176 | the corrected single packet: the header with the marker set, 0x0a in byte 12, then the frame, 13 + n bytes, numbered by the counter |
| MjpegPacketizer.JpegPackets | BaseClass/RTPPacketizer/MJPEGRTPpacketizer.cpp:104-111 | a frame always gives at least one packet |
| MjpegPacketizer.JpegPacketsShape | BaseClass/RTPPacketizer/MJPEGRTPpacketizer.cpp:104-111 | every packet of a frame is version 2, at most 1413 bytes (within the 1528-byte buffer), numbered by the counter advanced once per packet, with the marker on the last packet only |
| MjpegPacketizer.JpegRecovers | BaseClass/RTPPacketizer/MJPEGRTPpacketizer.cpp:104-140 | a receiver gets the frame back: from byte 13 of a single packet, or as the first byte followed by the fragment payloads; the FU indicator and header keep only the first byte's low seven bits |
| MjpegPacketizer.WriteSingle | BaseClass/RTPPacketizer/MJPEGRTPpacketizer.cpp:149-176 | the packet handed on is the corrected single packet |
| MjpegPacketizer.SendFrame | BaseClass/RTPPacketizer/MJPEGRTPpacketizer.cpp:104-111 | a frame's packets are JpegPackets and the counter advances once per packet |
| MjpegPacketizer.MJPEGRTPpacketizer.constructor | BaseClass/RTPPacketizer/MJPEGRTPpacketizer.cpp:5-12 | payload type 97, SSRC 0x12345678, counter rand() % 65535, no buffer, no callback |
| MjpegPacketizer.MJPEGRTPpacketizer.Init | BaseClass/RTPPacketizer/MJPEGRTPpacketizer.cpp:19-42 | 0 with a buffer; -2 exactly when no buffer existed and the allocation fails, and then everything is released |
| MjpegPacketizer.MJPEGRTPpacketizer.ReleaseAll | BaseClass/RTPPacketizer/MJPEGRTPpacketizer.cpp:44-54 | no buffer and no callback |
| MjpegPacketizer.MJPEGRTPpacketizer.SetPaylodaType | BaseClass/RTPPacketizer/MJPEGRTPpacketizer.cpp:56-72 | accepted exactly when the payload type fits 7 bits; a refused one changes nothing |
| MjpegPacketizer.MJPEGRTPpacketizer.SetRtpPacketCallbaclk | BaseClass/RTPPacketizer/MJPEGRTPpacketizer.cpp:74-80 | always accepted; the callback is set |
| MjpegPacketizer.MJPEGRTPpacketizer.SetSSRC | BaseClass/RTPPacketizer/MJPEGRTPpacketizer.cpp:142-147 | always accepted; the SSRC is the new value |
| MjpegPacketizer.MJPEGRTPpacketizer.RecvPacket | BaseClass/RTPPacketizer/MJPEGRTPpacketizer.cpp:82-115 | -1 and nothing sent exactly for missing or empty data; otherwise 0, the frame's packets handed on and the counter advanced once per packet |
| H264RtpParser.Output | BaseClass/RTPParser/H264RTPParser.cpp:44-86 | exactly one media packet, the pending bytes with the last timestamp, is handed on when there is a callback, something pending and the copy can be allocated; otherwise nothing |
| H264RtpParser.ShortPacketsPass | BaseClass/RTPParser/H264RTPParser.cpp:93 | as written a 12-byte packet passes the guard though byte 12 is read next, and a 13-byte FU-A packet passes with byte 13 missing and 2^32 - 1 bytes to append |
| H264RtpParser.TooShortExact | BaseClass/RTPParser/H264RTPParser.cpp:93-140 | the corrected guard lets through exactly the packets whose bytes the code goes on to read are present |
| H264RtpParser.RecvCodes | BaseClass/RTPParser/H264RTPParser.cpp:88-154 | in the source's order: -1 exactly for a missing packet, one under 12 bytes, or a version-2 packet too short for the bytes read next; -2 exactly for a packet of 12 or more bytes whose version is not 2 (whatever its length beyond that); -3 exactly for a unit type other than 0-23 and 28; -1 and -2 change nothing; otherwise the payload type, SSRC and timestamp are taken |
| H264RtpParser.RecvFlushesFirst | BaseClass/RTPParser/H264RTPParser.cpp:111-116 | nothing handed on is taken back, and a new timestamp hands on what was pending under the old one first |
| H264RtpParser.DispatchKeeps | BaseClass/RTPParser/H264RTPParser.cpp:118-151 | dispatching never takes back a media packet already handed on |
| H264RtpParser.HeaderFields | BaseClass/RTPParser/H264RTPParser.cpp:105-108 | a packet with a header as the packetizers write it carries its version, payload type, timestamp and SSRC |
| H264RtpParser.AcceptHeader | BaseClass/RTPParser/H264RTPParser.cpp:105-116 | with nothing pending or the same timestamp, taking the header hands nothing on |
| H264RtpParser.RecvHeader | BaseClass/RTPParser/H264RTPParser.cpp:88-118 | a long enough packet with those fields is received by taking them and dispatching on the unit type |
| H264RtpParser.SingleFields | BaseClass/RTPParser/H264RTPParser.cpp:118-125 | a single-NAL packet from the packetizer passes the guard and carries the unit from byte 12 |
| H264RtpParser.ParseSingle | BaseClass/RTPParser/H264RTPParser.cpp:118-125 | a single-NAL packet received with nothing pending is handed on at once as the start code followed by the unit |
| H264RtpParser.FuHeaderRebuilt | BaseClass/RTPParser/H264RTPParser.cpp:134-136 | the NRI of the FU indicator and the type of the FU header give back the unit header without its top bit; the S bit is set on the first fragment only |
| H264RtpParser.FragmentFields | BaseClass/RTPParser/H264RTPParser.cpp:126-146 | a fragment from the packetizer has the bytes the parser reads |
| H264RtpParser.FuMarkerBits | BaseClass/RTPParser/H264RTPParser.cpp:105-106 | a fragment's second byte carries the payload type, with the marker on the last fragment only |
| H264RtpParser.PutFragmentOf | BaseClass/RTPParser/H264RTPParser.cpp:126-146 | a fragment appends the rebuilt header behind a start code on the S bit or with nothing pending, then its chunk; the last one hands the unit on |
| H264RtpParser.DispatchFragment | BaseClass/RTPParser/H264RTPParser.cpp:126 | a long enough FU-A packet goes to the fragment branch |
| H264RtpParser.PutFragmentBits | BaseClass/RTPParser/H264RTPParser.cpp:128-145 | the fragment branch depends only on the S bit, the rebuilt header, the marker and the chunk |
| H264RtpParser.RecvFragment | BaseClass/RTPParser/H264RTPParser.cpp:88-154 | a packet with a fragment's bytes, received with nothing pending or its timestamp already last, does what PutFragmentOf says |
| H264RtpParser.ParseFragment | BaseClass/RTPParser/H264RTPParser.cpp:88-154 | the same for a fragment built by the packetizer |
| H264RtpParser.FeedSnoc | BaseClass/RTPParser/H264RTPParser.cpp:88-154 | feeding one more packet is receiving it after the others |
| H264RtpParser.ChunksJoin | BaseClass/RTPParser/H264RTPParser.cpp:140 | the chunks of the first k fragments, after the header byte, are the unit's first 1 + 1398 k bytes, and all of them the whole unit |
| H264RtpParser.FirstFragmentState | BaseClass/RTPParser/H264RTPParser.cpp:128-140 | the first fragment leaves the start code and the unit's first 1399 bytes pending |
| H264RtpParser.MiddleFragmentState | BaseClass/RTPParser/H264RTPParser.cpp:140 | a middle fragment extends the pending bytes by its chunk |
| H264RtpParser.LastFragmentState | BaseClass/RTPParser/H264RTPParser.cpp:140-145 | the last fragment hands on the whole unit behind the start code and leaves nothing pending |
| H264RtpParser.GatherFirst | BaseClass/RTPParser/H264RTPParser.cpp:126-146 | fed the first fragment with nothing pending, the parser holds the start code and the unit's first 1399 bytes |
| H264RtpParser.GatherNext | BaseClass/RTPParser/H264RTPParser.cpp:126-146 | each middle fragment extends what is pending by 1398 bytes of the unit |
| H264RtpParser.GatherLast | BaseClass/RTPParser/H264RTPParser.cpp:126-146 | the last fragment completes and hands on the unit |
| H264RtpParser.ParseFragments | BaseClass/RTPParser/H264RTPParser.cpp:126-146 | after the first k fragments of a unit the parser holds the start code and the unit's first 1 + 1398 k bytes |
| H264RtpParser.FeedSingle | BaseClass/RTPParser/H264RTPParser.cpp:118-125 | a unit that fits one packet is handed on as the start code followed by the unit |
| H264RtpParser.FeedFragmented | BaseClass/RTPParser/H264RTPParser.cpp:126-146 | a unit split into fragments is handed on once, whole, as the start code followed by the unit |
| H264RtpParser.ParseUnit | BaseClass/RTPParser/H264RTPParser.cpp:88-154 | the round trip with the packetizer: a unit with a clear forbidden bit and type at most 23, packetized and received in order, is handed on exactly once as the start code followed by the unit, with the packetizer's payload type, SSRC and timestamp and nothing left pending |
| H264RtpParser.H264RTPParser.constructor | BaseClass/RTPParser/H264RTPParser.cpp:4-10 | payload type 96, SSRC 0, last timestamp 0, nothing pending, no callback |
| H264RtpParser.H264RTPParser.ReleaseAll | BaseClass/RTPParser/H264RTPParser.cpp:17-26 | nothing pending, no callback, payload type 96, SSRC and timestamp 0 |
| H264RtpParser.H264RTPParser.GetPaylodaType | BaseClass/RTPParser/H264RTPParser.cpp:28-31 | the current payload type |
| H264RtpParser.H264RTPParser.GetSSRC | BaseClass/RTPParser/H264RTPParser.cpp:39-42 | the current SSRC |
| H264RtpParser.H264RTPParser.SetPacketCallbaclk | BaseClass/RTPParser/H264RTPParser.cpp:33-37 | always accepted; the callback is set |
| H264RtpParser.H264RTPParser.OutputMediaPacket | BaseClass/RTPParser/H264RTPParser.cpp:44-86 | the result and the media packets handed on are OutputResult and Output |
| H264RtpParser.H264RTPParser.TakeHeader | BaseClass/RTPParser/H264RTPParser.cpp:105-116 | the header fields taken as Accept says |
| H264RtpParser.H264RTPParser.TakeUnit | BaseClass/RTPParser/H264RTPParser.cpp:118-125 | a single-NAL packet taken as PutUnit says |
| H264RtpParser.H264RTPParser.TakeFragment | BaseClass/RTPParser/H264RTPParser.cpp:126-146 | a fragment taken as PutFragment says |
| H264RtpParser.H264RTPParser.RecvPacket | BaseClass/RTPParser/H264RTPParser.cpp:88-154 | the result and the new state are Recv of the old state: the 12-byte test, then the version test, then the corrected length test, then the unit type; RecvCodes states its codes and ParseUnit its round trip |
| ExBuffer.FirstCapacity | BaseClass/CommonTools/ExBuff.cpp:36 | the first allocation holds the appended bytes and is at least 4 KiB: 4 KiB below that size, twice the size from it on |
| ExBuffer.GrownCapacity | BaseClass/CommonTools/ExBuff.cpp:66 | a reallocation always holds what it must hold, and is either exactly that or the old capacity doubled as a 32-bit value |
| ExBuffer.GrownDoubles | BaseClass/CommonTools/ExBuff.cpp:66 | while the old capacity is below 2^31 a reallocation is the larger of twice the old capacity and what it must hold |
| ExBuffer.CopyIn | BaseClass/CommonTools/ExBuff.cpp:43-75 | the bytes land at the given index and nothing else in the array changes |
| ExBuffer.ExBuff.DataSize | BaseClass/CommonTools/ExBuff.h:13 | the number of unread bytes |
| ExBuffer.ExBuff.constructor | BaseClass/CommonTools/ExBuff.cpp:5-11 | no storage and nothing unread |
| ExBuffer.ExBuff.ReleaseAll | BaseClass/CommonTools/ExBuff.cpp:18-30 | returns 0; the storage is released and nothing is unread |
| ExBuffer.ExBuff.Append | BaseClass/CommonTools/ExBuff.cpp:32-85 | -1 exactly when the first allocation fails, -2 exactly when a needed reallocation fails, and both leave the buffer as it was; on 0 the unread bytes are the old ones followed by the new, kept in place when they fit after the write position, moved to the front when they fit the capacity, and otherwise moved to a buffer of the grown capacity |
| ExBuffer.ExBuff.AppendFirst | BaseClass/CommonTools/ExBuff.cpp:34-46 | the first allocation holds the bytes from the front |
| ExBuffer.ExBuff.AppendInPlace | BaseClass/CommonTools/ExBuff.cpp:49-53 | the bytes are added after the write position |
| ExBuffer.ExBuff.AppendCompacted | BaseClass/CommonTools/ExBuff.cpp:56-63 | the unread bytes move to the front and the new ones follow |
| ExBuffer.ExBuff.AppendMoved | BaseClass/CommonTools/ExBuff.cpp:64-80 | a buffer of the grown capacity holds the unread bytes followed by the new ones |
| ExBuffer.ExBuff.Read | BaseClass/CommonTools/ExBuff.cpp:87-101 | with nothing unread, 0 and no data; otherwise the smaller of the request and the unread count, those first unread bytes, and the rest left unread |
| ExBuffer.ExBuff.GetRawData | BaseClass/CommonTools/ExBuff.cpp:103-109 | the unread bytes and their count; nothing changes |
| ExBuffer.ExBuff.ClearBuff | BaseClass/CommonTools/ExBuff.cpp:111-122 | nothing is left unread; the storage is released exactly when the bound exceeds the capacity and kept otherwise |
| FlexibleBuffer.FlexibleBuff.DataSize | BaseClass/CommonTools/FlexibleBuff.h:13 | the number of bytes held |
| FlexibleBuffer.FlexibleBuff.constructor | BaseClass/CommonTools/FlexibleBuff.cpp:5-10 | no storage and no data |
| FlexibleBuffer.FlexibleBuff.ReleaseAll | BaseClass/CommonTools/FlexibleBuff.cpp:17-25 | returns 0; the storage is released and no data is held |
| FlexibleBuffer.FlexibleBuff.Append | BaseClass/CommonTools/FlexibleBuff.cpp:27-68 | -1 exactly when the first allocation fails, -2 exactly when a needed reallocation fails, and both leave everything as it was; on 0 the data is the old data followed by the new, in place when it fits and otherwise in a buffer of the grown capacity |
| FlexibleBuffer.FlexibleBuff.AppendFirst | BaseClass/CommonTools/FlexibleBuff.cpp:29-41 | the first allocation holds the bytes |
| FlexibleBuffer.FlexibleBuff.AppendInPlace | BaseClass/CommonTools/FlexibleBuff.cpp:44-48 | the bytes are added after the data |
| FlexibleBuffer.FlexibleBuff.AppendMoved | BaseClass/CommonTools/FlexibleBuff.cpp:49-64 | a buffer of the grown capacity holds the data followed by the new bytes |
| FlexibleBuffer.FlexibleBuff.ClearBuff | BaseClass/CommonTools/FlexibleBuff.cpp:70-82 | no data is left; the storage is released exactly when the capacity exceeds the bound |
| FlexibleBuffer.FlexibleBuff.GetRawData | BaseClass/CommonTools/FlexibleBuff.cpp:84-89 | the data and its size, no data before the first allocation; nothing changes |
| RtspParser.Find | BaseClass/CommonTools/RtspParser.cpp:8-15 | find answers -1 (npos) or an index at or after the start where the separator occurs |
| RtspParser.FindFirst | BaseClass/CommonTools/RtspParser.cpp:8-15 | the index find answers is the first occurrence from the start: none lies before it |
| RtspParser.Split | BaseClass/CommonTools/RtspParser.cpp:3-22 | split's result is exactly the pieces between the occurrences of the separator, the last piece dropped when empty |
| RtspParser.PiecesFree | BaseClass/CommonTools/RtspParser.cpp:3-22 | no piece split produces contains the separator |
| RtspParser.PiecesJoin | BaseClass/CommonTools/RtspParser.cpp:3-22 | split gives no pieces exactly for the empty text, and joining its pieces with the separator rebuilds the text, except that a separator at the very end is lost |
| RtspParser.PiecesOfJoin | BaseClass/CommonTools/RtspParser.cpp:3-22 | pieces free of the separator, the last one not empty, joined and split again come back unchanged |
| RtspParser.PiecesTerminated | BaseClass/CommonTools/RtspParser.cpp:3-22 | splitting lines that each end with the separator, followed by any text, gives back the lines and then the pieces of that text: an empty line survives, an empty tail does not |
| RtspParser.PiecesAfterPiece | BaseClass/CommonTools/RtspParser.cpp:8-15 | a piece free of the separator and followed by it is the first piece of the split |
| RtspParser.PiecesOfFree | BaseClass/CommonTools/RtspParser.cpp:18-21 | a text free of the separator is one piece, or none when it is empty |
| RtspParser.FindShift | BaseClass/CommonTools/RtspParser.cpp:15 | find started past a prefix sees only the rest of the text |
| RtspParser.PiecesShift | BaseClass/CommonTools/RtspParser.cpp:11-21 | the pieces after a prefix are the pieces of the rest of the text |
| RtspParser.FindAfterPiece | BaseClass/CommonTools/RtspParser.cpp:8 | in a piece free of the separator and followed by it, find first sees the separator that follows the piece |
| RtspParser.JoinAvoids | BaseClass/CommonTools/RtspParser.cpp:3-22 | pieces without a character that the separator also lacks join into a text without it |
| RtspFields.LessTotal | BaseClass/CommonTools/RtspParser.cpp:76 | std::string's order on keys is total: two different keys are ordered one way or the other |
| RtspFields.LessTransitive | BaseClass/CommonTools/RtspParser.cpp:163-169 | the key order is transitive, so the map iterates in a consistent order |
| RtspFields.LessAsymmetric | BaseClass/CommonTools/RtspParser.cpp:163-169 | the key order is asymmetric |
| RtspFields.LessIrreflexive | BaseClass/CommonTools/RtspParser.cpp:163-169 | no key comes before itself |
| RtspFields.Get | BaseClass/CommonTools/RtspParser.cpp:81 | map::find finds a value exactly when the key is present |
| RtspFields.PutGet | BaseClass/CommonTools/RtspParser.cpp:76 | after map[k] = v, k maps to v and every other key to what it did before |
| RtspFields.PutOrdered | BaseClass/CommonTools/RtspParser.cpp:76 | map[k] = v keeps the keys in strictly increasing order, the order the writers iterate in |
| RtspFields.PutKeys | BaseClass/CommonTools/RtspParser.cpp:76 | after map[k] = v the keys are the old keys and k |
| RtspFields.PutLast | BaseClass/CommonTools/RtspParser.cpp:76 | a key above every key present goes at the end |
| RtspMessage.MethodName | BaseClass/CommonTools/RtspParser.cpp:140-150 | the writer's method word is empty exactly for no method and has no space or line break |
| RtspMessage.MethodOfName | BaseClass/CommonTools/RtspParser.cpp:51-61 | the parser reads back every method word the writer writes |
| RtspMessage.NameOfMethod | BaseClass/CommonTools/RtspParser.cpp:51-61 | the parser recognises no word other than the eleven the writer writes |
| RtspMessage.ParsedRequestOutcome | BaseClass/CommonTools/RtspParser.cpp:32-96 | ParseRtspRequest answers 0, -1, -2 or -3; a failure leaves the request as it was but with the method cleared; success exactly when a method is set, and then the request line's first three words are that method, the URL and the version |
| RtspMessage.ParseRtspRequest | BaseClass/CommonTools/RtspParser.cpp:32-96 | the code and the request are ParsedRequest: fewer than two lines -1, fewer than three words -2, an unknown method -3; the lines between are header fields, and the last line is the body when Content-type is present and a header line otherwise |
| RtspMessage.ParseRtspResponse | BaseClass/CommonTools/RtspParser.cpp:98-130 | the code and the response are ParsedResponse: fewer than two lines -1, fewer than three words -2; otherwise the status line's words and every line, the status line included, tried as a header field |
| RtspMessage.FieldLines | BaseClass/CommonTools/RtspParser.cpp:163-169 | one header line per field of the map |
| RtspMessage.WriteOutcome | BaseClass/CommonTools/RtspParser.cpp:132-226 | writing fails, with -1 and no text, exactly when the method, URL or version (or status code, reason or version) is missing |
| RtspMessage.GetStrRequest | BaseClass/CommonTools/RtspParser.cpp:132-186 | the code and the text are RequestText: the request line, the header lines in key order, Content-length before a body, an empty line, each ended by CRLF, then the body |
| RtspMessage.GetStrResponse | BaseClass/CommonTools/RtspParser.cpp:188-226 | the code and the text are ResponseText, in the same layout with the status line first |
| RtspMessage.WriteFields | BaseClass/CommonTools/RtspParser.cpp:163-169 | the loop over the map appends one CRLF-ended line per field in key order |
| RtspMessage.WriteLength | BaseClass/CommonTools/RtspParser.cpp:171-177 | a Content-length line is appended exactly for a non-empty body |
| RtspMessage.WrittenLayout | BaseClass/CommonTools/RtspParser.cpp:156-183 | the text the writers assemble piece by piece is the lines each ended by CRLF, then the body |
| RtspRoundTrip.FieldLineRead | BaseClass/CommonTools/RtspParser.cpp:73-76 | a header line as the writers emit it reads back as its field and holds no line break |
| RtspRoundTrip.LengthReadable | BaseClass/CommonTools/RtspParser.cpp:174-176 | the Content-length field the writers add is one the parser reads back |
| RtspRoundTrip.FieldLinesRead | BaseClass/CommonTools/RtspParser.cpp:163-169 | the header lines of an ordered map, read into an empty map, give the map back |
| RtspRoundTrip.HeaderRead | BaseClass/CommonTools/RtspParser.cpp:163-177 | the header block read into an empty map gives the fields plus Content-length for a body |
| RtspRoundTrip.WrittenLines | BaseClass/CommonTools/RtspParser.cpp:156-183 | the written text splits into the written lines, then the lines of the body |
| RtspRoundTrip.RequestLineWords | BaseClass/CommonTools/RtspParser.cpp:156-161 | the request line splits at its spaces into method, URL and version |
| RtspRoundTrip.StatusLineWords | BaseClass/CommonTools/RtspParser.cpp:196-201 | the status line splits at its spaces into version, code and the words of the reason |
| RtspRoundTrip.RequestRoundTrip | BaseClass/CommonTools/RtspParser.cpp:32-186 | a request GetStrRequest writes, with readable fields and a one-line body announced by Content-type, ParseRtspRequest reads back with the same method, URL, version and body, and its fields plus Content-length |
| RtspRoundTrip.RequestFromWritten | BaseClass/CommonTools/RtspParser.cpp:70-93 | the written request's lines make the request again |
| RtspRoundTrip.RequestFromHeader | BaseClass/CommonTools/RtspParser.cpp:66-93 | a request line, header lines giving a map and a last line make a request whose body is the last line exactly when the map holds Content-type |
| RtspRoundTrip.ResponseRoundTrip | BaseClass/CommonTools/RtspParser.cpp:98-226 | a response GetStrResponse writes, ParseRtspResponse reads back with the same version and code but only the first word of the reason; the fields gain Content-length and any body line shaped like a header line, and the body itself is never stored |
| RtspRoundTrip.ResponseFromWritten | BaseClass/CommonTools/RtspParser.cpp:108-127 | the written response's lines make that response |
| RtspRoundTrip.BlankLine | BaseClass/CommonTools/RtspParser.cpp:178 | the empty line that ends the header block adds no field |
| RtspFraming.TextOf | BaseClass/RTSPServer/RTSPServerSession.cpp:380 | the message bytes read as characters, one per byte |
| RtspFraming.CString | BaseClass/RTSPServer/RTSPServerSession.cpp:227 | the C string at the front: a prefix without NUL, ended by the first NUL when there is one |
| RtspFraming.FindInterleaved | BaseClass/RTSPServer/RTSPServerSession.cpp:293-321 | an interleaved frame is complete exactly when its 4-byte prefix and the big-endian length in bytes 2-3 are all there, and its size is that length plus 4 |
| RtspFraming.FindRtspMsg | BaseClass/RTSPServer/RTSPServerSession.cpp:268-291 | a message is complete exactly when a blank line occurs, and its size then runs up to and including the first one |
| RtspFraming.BodyOf | BaseClass/RTSPServer/RTSPServerSession.cpp:384-398 | a body announced by Content-length is taken only when it lies within the buffered bytes |
| RtspFraming.ResponseAction | BaseClass/RTSPServer/RTSPServerSession.cpp:374-417 | a response takes at least its header and never more than is buffered |
| RtspFraming.RequestAction | BaseClass/RTSPServer/RTSPServerSession.cpp:418-462 | a request takes at least its header and never more than is buffered |
| RtspFraming.Decide | BaseClass/RTSPServer/RTSPServerSession.cpp:329-473 | every pass that goes on takes at least 4 bytes and no more than are buffered, so HandleMsg ends |
| RtspFraming.HandleResponse | BaseClass/RTSPServer/RTSPServerSession.cpp:374-417 | the response branch waits for the blank line and then does what ResponseAction says |
| RtspFraming.TakeResponse | BaseClass/RTSPServer/RTSPServerSession.cpp:379-411 | a parsed response is taken with its body when the body is all there, waited for otherwise, and a message that does not parse is dropped whole |
| RtspFraming.HandleRequest | BaseClass/RTSPServer/RTSPServerSession.cpp:418-462 | the request branch waits for the blank line and then does what RequestAction says |
| RtspFraming.TakeRequest | BaseClass/RTSPServer/RTSPServerSession.cpp:423-456 | a parsed request is taken with its body when the body is all there, waited for otherwise, and a message that does not parse is dropped whole |
| RtspFraming.NextAction | BaseClass/RTSPServer/RTSPServerSession.cpp:333-467 | one pass classifies the buffer as Decide does: RTP or RTCP frames by the channel parity, then at least 19 bytes for a response or a request, and anything else clears the buffer |
| RtspFraming.Receiver.constructor | BaseClass/RTSPServer/RTSPServerSession.cpp:329-332 | nothing buffered and nothing handed over |
| RtspFraming.Receiver.Receive | BaseClass/RTSPServer/RTSPServerSession.cpp:329-332 | arriving bytes are added to the buffer and nothing is handed over |
| RtspFraming.Receiver.HandleMsg | BaseClass/RTSPServer/RTSPServerSession.cpp:323-476 | the buffer left and the events handed over are those of Drain on the old buffer, and false exactly when the source throws |
| RtspFraming.DrainStep | BaseClass/RTSPServer/RTSPServerSession.cpp:329-473 | a waiting pass keeps the buffer, a dropped one clears it, and a taking pass hands over its event before those of the rest |
| RtspFraming.FrameTaken | BaseClass/RTSPServer/RTSPServerSession.cpp:335-347 | a whole frame at the front is taken whole, whatever follows it |
| RtspFraming.DrainFrames | BaseClass/RTSPServer/RTSPServerSession.cpp:329-473 | frames sent back to back are handed over one by one, in order, and what follows them is framed as it would be alone |
| RtspFraming.DrainTake | BaseClass/RTSPServer/RTSPServerSession.cpp:339-342 | a message taken off the front is handed over before whatever follows |
| RtspFraming.PartialFrameWaits | BaseClass/RTSPServer/RTSPServerSession.cpp:344-347 | a frame that has only partly arrived stays in the buffer untouched |
| RtspFraming.ShortBodyWaits | BaseClass/RTSPServer/RTSPServerSession.cpp:384-398 | a body shorter than its Content-length keeps the message buffered until the rest arrives |
| RtspFraming.NegativeLengthThrows | BaseClass/RTSPServer/RTSPServerSession.cpp:431-436 | a negative Content-length no larger than the header passes the unsigned test and the copy of the body then throws |
| RtspServerSession.VideoNamed | BaseClass/RTSPServer/RTSPServerSession.cpp:578-581 | the video type is MJPEG exactly for "mpeg" and H.264 for every other text |
| RtspServerSession.Resized | BaseClass/RTSPServer/RTSPServerSession.cpp:586-608 | 0 exactly when the text is two pieces around '*' whose numbers are both positive, and then a positive resolution and nothing else changed; -1 exactly when it is not two pieces; otherwise -2; on failure nothing changes |
| RtspServerSession.Paced | BaseClass/RTSPServer/RTSPServerSession.cpp:610-622 | 0 exactly for a positive number, which becomes the frame rate; otherwise -1 and nothing changes |
| RtspServerSession.Item | BaseClass/RTSPServer/RTSPServerSession.cpp:633-645 | an item that is not two pieces around '=' or names a key other than image, resolution and fps changes nothing |
| RtspServerSession.ItemsConcat | BaseClass/RTSPServer/RTSPServerSession.cpp:631-646 | applying two runs of items is applying the first and then the second |
| RtspServerSession.ForeignItems | BaseClass/RTSPServer/RTSPServerSession.cpp:631-646 | items the session does not know leave the settings alone |
| RtspServerSession.LaterItemWins | BaseClass/RTSPServer/RTSPServerSession.cpp:631-646 | of two fps items the later one wins |
| RtspServerSession.FpsItem | BaseClass/RTSPServer/RTSPServerSession.cpp:639 | the item fps=F sets the frame rate to F |
| RtspServerSession.ImageItem | BaseClass/RTSPServer/RTSPServerSession.cpp:637 | the item image=mpeg selects MJPEG |
| RtspServerSession.ResolutionItem | BaseClass/RTSPServer/RTSPServerSession.cpp:638 | the item resolution=WxH sets that resolution |
| RtspServerSession.ResolutionReads | BaseClass/RTSPServer/RTSPServerSession.cpp:586-608 | W*H with positive numbers is read as that resolution |
| RtspServerSession.KeyValue | BaseClass/RTSPServer/RTSPServerSession.cpp:633-634 | a key and a value without '=' split back into the two |
| RtspServerSession.QueryReads | BaseClass/RTSPServer/RTSPServerSession.cpp:624-650 | the query image=mpeg&resolution=W*H&fps=F selects MJPEG at W by H pixels and F frames a second, whatever the settings were |
| RtspServerSession.QueryPieces | BaseClass/RTSPServer/RTSPServerSession.cpp:630 | the query's three items are the pieces it splits into at '&' |
| RtspServerSession.Dissect | BaseClass/RTSPServer/RTSPServerSession.cpp:666-728 | the URL's codes: -1 exactly when it is not two pieces around "://", -2 when the scheme is not rtsp, -3 when the path is not three pieces around '/', -4 for a resource type other than device and file; on 0 a device resource is /dev/ followed by the name, and the type is recorded for 0 and -4 only |
| RtspServerSession.AcceptedScheme | BaseClass/RTSPServer/RTSPServerSession.cpp:670-686 | every URL that gets past the scheme tests starts with rtsp:// |
| RtspServerSession.DissectReads | BaseClass/RTSPServer/RTSPServerSession.cpp:666-728 | a URL written as rtsp://host/type/name, with an optional query after '?', dissects back into those parts, with code 0 for device and file and -4 otherwise |
| RtspServerSession.PathHasNoScheme | BaseClass/RTSPServer/RTSPServerSession.cpp:670 | host/type/name with no '/' inside the parts holds no "://" |
| RtspServerSession.PathPieces | BaseClass/RTSPServer/RTSPServerSession.cpp:691-697 | cutting the rest of the URL at '?' gives the path and then the query |
| RtspServerSession.SlashPieces | BaseClass/RTSPServer/RTSPServerSession.cpp:699-707 | cutting the path at '/' gives host, type and name |
| RtspServerSession.LeadingPiece | BaseClass/RTSPServer/RTSPServerSession.cpp:670-679 | the first of two or more pieces is the text before the first separator |
| RtspServerSession.MadeSdp | BaseClass/RTSPServer/RTSPServerSession.cpp:1012-1027 | a file resource has an empty description, an unknown type has none, and a device's comes from the capture device |
| RtspServerSession.DescribeResponse | BaseClass/RTSPServer/RTSPServerSession.cpp:652-744 | the response is RTSP/1.0, 200 with the description as content exactly on success, 400 with no content otherwise |
| RtspServerSession.ResponseEchoesCSeq | BaseClass/RTSPServer/RTSPServerSession.cpp:657-660 | the response carries the request's CSeq back, or none when the request had none |
| RtspServerSession.Session.constructor | BaseClass/RTSPServer/RTSPServerSession.cpp:21-57 | H.264 at 1280 by 720 and 25 frames a second, with no resource |
| RtspServerSession.Session.SetVideoType | BaseClass/RTSPServer/RTSPServerSession.cpp:575-584 | always 0; the video type is VideoNamed of the text |
| RtspServerSession.Session.SetResolution | BaseClass/RTSPServer/RTSPServerSession.cpp:586-608 | the code and the settings are Resized of the old settings |
| RtspServerSession.Session.SetFps | BaseClass/RTSPServer/RTSPServerSession.cpp:610-622 | the code and the settings are Paced of the old settings |
| RtspServerSession.Session.ParseExtendedParame | BaseClass/RTSPServer/RTSPServerSession.cpp:624-650 | always 0; the settings are every item of the query applied in order |
| RtspServerSession.Session.HandleDescribeRequest | BaseClass/RTSPServer/RTSPServerSession.cpp:652-754 | the code is Dissect's, -5 when the description cannot be made or the response not sent; the response is DescribeResponse; a query is applied whenever the URL gets that far, and the resource type and resource are recorded as Dissect finds them, even on failure |
| RtspServerSession.DescribeDevice | BaseClass/RTSPServer/RTSPServerSession.cpp:652-728 | a DESCRIBE for a capture device with a client's query leaves the session on /dev/name with the settings the query names |
| RtspServerSession.TcpFrame | BaseClass/RTSPServer/RTSPServerSession.cpp:1306-1315 | the frame sent over the RTSP connection is '$', channel 0 and the length, then the packet, and it is a frame the client reads as RTP |
| RtspServerSession.OwnFrameReadsAsRtcp | BaseClass/RTSPServer/RTSPServerSession.cpp:258-266 | the server sends RTP on channel 0, which its own receive side classifies as RTCP |
| RtspClient.AnalyzeUrl | BaseClass/RTSPClient/RTSPClient.cpp:276-300 | true exactly for a URL starting with rtsp://, and false with an empty IP and port 554 otherwise; the port always fits 16 bits |
| RtspClient.HostAddress | BaseClass/RTSPClient/RTSPClient.cpp:292-297 | a host part always gives an address with a 16-bit port |
| RtspClient.AfterPrefix | BaseClass/RTSPClient/RTSPClient.cpp:286-297 | a URL starting with rtsp:// is read from the host part that follows |
| RtspClient.AnalyzedIp | BaseClass/RTSPClient/RTSPClient.cpp:287-297 | the IP found holds neither '/' nor ':' |
| RtspClient.HostBeforeSlash | BaseClass/RTSPClient/RTSPClient.cpp:287-291 | the host part of host/path is the host |
| RtspClient.HostWithPort | BaseClass/RTSPClient/RTSPClient.cpp:292-297 | ip:digits gives that IP and the digits' value stored into 16 bits |
| RtspClient.AnalyzeUrlReads | BaseClass/RTSPClient/RTSPClient.cpp:276-300 | a URL written as rtsp://ip:port/path gives back that IP and port |
| RtspClient.AnalyzeUrlParts | BaseClass/RTSPClient/RTSPClient.cpp:276-300 | the port of rtsp://ip:digits/path is atoi of the digits stored into 16 bits |
| RtspClient.AnalyzeUrlDefaultPort | BaseClass/RTSPClient/RTSPClient.cpp:279-297 | without a ':' the port is 554 |
| RtspClient.ClientAndServerAgree | BaseClass/RTSPClient/RTSPClient.cpp:276-300 | the client connects to the IP and port written in rtsp://ip:port/type/name and the server streams the resource it names |
| RtspClient.ClientReads | BaseClass/RTSPClient/RTSPClient.cpp:276-300 | the client's half: the IP and port come back |
| RtspClient.ServerReads | BaseClass/RTSPServer/RTSPServerSession.cpp:666-728 | the server's half: the resource type and resource come back, with no query |
| RtspClient.TrackOf | BaseClass/RTSPClient/RTSPClient.cpp:671 | the track of a frame's channel byte is half the channel plus one, between 1 and 128 |
| RtspClient.ChannelsMapBack | BaseClass/RTSPClient/RTSPClient.cpp:1152-1157 | every track up to 128 gets a channel pair that fits a byte, is read back as that track, and is even for RTP and odd for RTCP, as the client's framing expects |
| RtspClient.Route | BaseClass/RTSPClient/RTSPClient.cpp:669-686 | the frame without its 4-byte prefix goes to the video track or else the audio track its channel names; a frame of any other track is refused |
| RtspClient.ServerFrameReachesClient | BaseClass/RTSPClient/RTSPClient.cpp:465-608 | the frame the server sends for a packet reaches the client whole, ahead of whatever follows, and a client whose video is track 1 hands the packet itself to its video path |
| RtspClient.Client.constructor | BaseClass/RTSPClient/RTSPClient.cpp:37-38 | the two track IDs are those given and nothing has been delivered |
| RtspClient.Client.OnRecvRtp | BaseClass/RTSPClient/RTSPClient.cpp:669-686 | 0 and one more delivery exactly when Route finds a track; -1 and nothing delivered otherwise |
| RtspClient.RequestDroppedAsWritten | BaseClass/RTSPClient/RTSPClient.cpp:362-377 | a request of 19 bytes or more with no NUL among them fails the client's strcmp test, so its buffer is cleared; the prefix test recognises it |
| RtspClient.NotResponse | BaseClass/RTSPClient/RTSPClient.cpp:379-392 | a text that starts with a method word is not a response |
| RtspClient.RequestRecognised | BaseClass/RTSPClient/RTSPClient.cpp:362-377 | the prefix test recognises every text that starts with a method word, whatever follows |
| Sdp.MediaInfo | BaseClass/CommonTools/SdpParser.cpp:104-151 | -1 exactly without rtpmap and then nothing changes; 0 exactly with an rtpmap of two words whose second has a '/', and a control that splits at '='; -4 only without control; on failure the track and range stay, and -1 and -2 leave the description untouched; the fields are never changed |
| Sdp.FirstMedia | BaseClass/CommonTools/SdpParser.cpp:26-61 | the index of the first m= line: none before it, and it is one when it is not the end |
| Sdp.SdpParser.constructor | BaseClass/CommonTools/SdpParser.cpp:7-9 | no session fields and no media descriptions |
| Sdp.SdpParser.Parse | BaseClass/CommonTools/SdpParser.cpp:15-102 | always 0; the session and the media list are those Parsed gives from the old ones and the text |
| Sdp.ScanAfter | BaseClass/CommonTools/SdpParser.cpp:39-61 | once in the media part every line goes into the one media description, because the session map the m= flush tests stays empty |
| Sdp.ScanBefore | BaseClass/CommonTools/SdpParser.cpp:78-85 | before the first m= line every line goes into the session map |
| Sdp.ScanConcat | BaseClass/CommonTools/SdpParser.cpp:26-86 | scanning two runs of lines is scanning the first and then the second |
| Sdp.ScanFromStart | BaseClass/CommonTools/SdpParser.cpp:26-86 | the lines before the first m= make the session map, saved when the m= arrives if it is not empty, and every line from the m= on goes into one media description |
| Sdp.MediaStep | BaseClass/CommonTools/SdpParser.cpp:37-61 | the first m= line saves or keeps the session map and starts the media part with its own entry |
| Sdp.CollectKeys | BaseClass/CommonTools/SdpParser.cpp:80-84 | storing lines never removes a key |
| Sdp.ParsedSections | BaseClass/CommonTools/SdpParser.cpp:15-102 | without an m= line neither the session nor the media list changes; otherwise the lines before the first m= replace the session map unless there are none, and all the lines from it on, further m= lines included, are merged into one media description, which has an m entry and is appended exactly when ParseMediaInfo accepts it |
| Sdp.MediaMerged | BaseClass/CommonTools/SdpParser.cpp:37-80 | the lines from an m= line on hold an m entry, so ParseMediaInfo's lookup of m succeeds |
| Sdp.AttributeReads | BaseClass/CommonTools/SdpParser.cpp:68-75 | an a= value name:value splits back into the name and the value |
| Sdp.AttributeWhole | BaseClass/CommonTools/SdpParser.cpp:68-75 | an a= value without ':' is stored as both key and value, since npos + 1 wraps to 0 |
| Sdp.MediaInfoReads | BaseClass/CommonTools/SdpParser.cpp:113-148 | rtpmap "PT name/rate" and control "prefix=track", as the server writes them, read back as that payload type modulo 256, name, clock rate and track, with the range taken when present |
| OsdBitmap.BitOf | BaseClass/OSD/Bitmap.cpp:89-91 | a bit read is 0 or 1 |
| OsdBitmap.BitOfMask | BaseClass/OSD/Bitmap.cpp:89-91 | bit k reads as 1 exactly when the byte shares the one-bit mask of k |
| OsdBitmap.MaskShift | BaseClass/OSD/Bitmap.cpp:108-112 | each entry of Set0Table clears exactly the bit that 1 << k sets |
| OsdBitmap.MaskPair | BaseClass/OSD/Bitmap.cpp:108-112 | two one-bit masks share a bit only when they are the same |
| OsdBitmap.WithBitReads | BaseClass/OSD/Bitmap.cpp:89-112 | after SetBit of bit k, bit k reads back as 1 exactly when a non-zero bit was written and every other bit reads as before |
| OsdBitmap.RowBytes | BaseClass/OSD/Bitmap.cpp:50 | a row of col / 8 + 1 bytes holds more than col bits and at most one byte more than needed |
| OsdBitmap.Bitmap.constructor | BaseClass/OSD/Bitmap.cpp:13-20 | no table, no rows or columns, bottom alignment |
| OsdBitmap.Bitmap.ReleaseAll | BaseClass/OSD/Bitmap.cpp:27-44 | returns 0; the table goes and both dimensions are 0 |
| OsdBitmap.Bitmap.Init | BaseClass/OSD/Bitmap.cpp:46-78 | -1 exactly when the row-pointer array cannot be allocated, -2 exactly when a row cannot, and then the bitmap is left released; on 0 the bitmap has the requested rows and columns, all clear |
| OsdBitmap.Bitmap.GetBit | BaseClass/OSD/Bitmap.cpp:80-94 | false exactly outside the table, with the out parameter left as it was; otherwise the bit at that row and column |
| OsdBitmap.Bitmap.SetBit | BaseClass/OSD/Bitmap.cpp:96-115 | false exactly outside the table and nothing changes; otherwise that bit becomes 1 for a non-zero bit and 0 for zero, and every other bit stays |
| OsdBitmap.Bitmap.SetBitmap | BaseClass/OSD/Bitmap.cpp:207-231 | -1 exactly when the source placed at (x, y) would reach past this bitmap, and nothing is written; otherwise the source's bits replace those under it and every other bit stays |
| OsdBitmap.Bitmap.SetRow | BaseClass/OSD/Bitmap.cpp:223-227 | one source row is copied into place and nothing else changes |
| OsdBitmap.Bitmap.JoinBitmap | BaseClass/OSD/Bitmap.cpp:189-205 | the bitmap becomes a copy of the source, or is left released with -1 when Init fails; the -2 branch cannot happen |
| OsdBitmap.Bitmap.Join | BaseClass/OSD/Bitmap.cpp:117-187 | the bitmap becomes as high as the lines with their spacing and as wide as the widest line, and shows every piece of every line at its place, or is left released with -1 when Init fails |
| OsdBitmap.Bitmap.PasteLines | BaseClass/OSD/Bitmap.cpp:151-184 | the second pass pastes every line |
| OsdBitmap.Bitmap.PasteLine | BaseClass/OSD/Bitmap.cpp:155-183 | one line is pasted and the next line starts below it and its spacing |
| OsdBitmap.Bitmap.PastePieces | BaseClass/OSD/Bitmap.cpp:164-181 | the pieces of a line are pasted side by side |
| OsdBitmap.Bitmap.PasteNext | BaseClass/OSD/Bitmap.cpp:164-180 | one piece is aligned in its line and pasted, and the column offset moves past it and the spacing |
| OsdBitmap.Bitmap.PastePiece | BaseClass/OSD/Bitmap.cpp:176 | SetBitmap of a piece that fits puts exactly its bits under it |
| OsdBitmap.Measure | BaseClass/OSD/Bitmap.cpp:119-142 | the first pass finds the widest line and the sum of the line heights with their spacing |
| OsdBitmap.MeasureLine | BaseClass/OSD/Bitmap.cpp:124-134 | the width and height of one line |
| OsdBitmap.LineHeightAt | BaseClass/OSD/Bitmap.cpp:155-162 | the second pass recomputes the same line height |
| OsdBitmap.PieceAt | BaseClass/OSD/Bitmap.cpp:126-133 | piece i of line l is the bitmap i of line l, with its size and alignment |
| OsdLayout.LineHeight | BaseClass/OSD/Bitmap.cpp:125-133 | a line is at least the minimum height |
| OsdLayout.JoinWidth | BaseClass/OSD/Bitmap.cpp:137-140 | the join is never of negative width |
| OsdLayout.JoinHeight | BaseClass/OSD/Bitmap.cpp:135-141 | the join is never of negative height |
| OsdLayout.LineWidthMono | BaseClass/OSD/Bitmap.cpp:128-129 | a longer part of a line is at least as wide |
| OsdLayout.LineHeightBounds | BaseClass/OSD/Bitmap.cpp:125-133 | a line is at least the minimum height and as high as each of its pieces |
| OsdLayout.JoinWidthBounds | BaseClass/OSD/Bitmap.cpp:137-140 | every line fits the join's width |
| OsdLayout.JoinHeightMono | BaseClass/OSD/Bitmap.cpp:141 | the lines above a later line are at least as high |
| OsdLayout.AlignFits | BaseClass/OSD/Bitmap.cpp:166-175 | top, middle and bottom alignment keep a piece within its line |
| OsdLayout.PastedStep | BaseClass/OSD/Bitmap.cpp:176 | pasting a piece puts its bits under it and leaves the rest as it was |
| OsdLayout.JoinFits | BaseClass/OSD/Bitmap.cpp:151-184 | every piece lies inside the join, within its own line's band, so every SetBitmap of Join succeeds |
| OsdLayout.LaterInLineMiss | BaseClass/OSD/Bitmap.cpp:178-179 | later pieces of a line do not reach back to the columns of an earlier one |
| OsdLayout.LineMissesAbove | BaseClass/OSD/Bitmap.cpp:182-183 | no piece of a line covers the rows above it |
| OsdLayout.LaterLinesMiss | BaseClass/OSD/Bitmap.cpp:182-183 | no later line covers the band of an earlier line |
| OsdLayout.JoinShows | BaseClass/OSD/Bitmap.cpp:117-187 | the join shows every piece whole and unchanged at its place: the pieces do not overlap |
| OsdLayout.JoinAsWrittenDropsSecondLine | BaseClass/OSD/Bitmap.cpp:151-179 | as written the column offset is never reset, so with one 1x1 piece per line the second piece starts at column 6 of a 6-column join and is dropped; reset per line it starts at 0 and fits |

## Left out

Inputs the source accepts but the model's `requires` excludes. In each
case the source reads or writes out of bounds, loops forever or
dereferences a null pointer, so no behaviour is defined to model:
- FecTable.Table.RecvPacketAndTryRepair: requires `Acceptable` (media packets of at least 12 bytes, repair packets of at least 24), because the source reads the RTP header and the FEC header without a length check (BaseClass/FEC/FEC2DTable.cpp:494-577).
- FecTable.Table.RecvPacketAndMakeRepair: requires `MediaSized` (12 to 65535 bytes), because the source reads the header unchecked and keeps lengths in 16-bit repair fields.
- FecEncoder.Encoder.RecvRTPPacket: requires `MediaSized`, for the same reason.
- FecDecoder.Decoder.RecvPacket: requires `Acceptable` and `MediaSized`, and that the decoder was started with `Init`. Before `Init` the source writes into a null reorder ring (BaseClass/FEC/FECDecoder.cpp:145).
- FecDecoder.Decoder.RecvPacket: also requires `rows * cols <= fuel`. `FecFuel.ReceiveFuelSuffices` shows that this much fuel gives the source's unbounded cascade of re-insertions.
- FecDecoder.Decoder.OnRTPPacket: requires at least 4 bytes, because the source reads the sequence number unchecked.
- FecTable.Table.Init: requires a table that has not been initialised. On a second call the source leaks the old grid and keeps the old window.
- FecDecoder.Decoder.Init: requires a decoder that is not running. A second call would add more tables and start a second output thread.
- FecEncoder.Encoder.RecvNackPacket: requires at least 4 bytes, because the source reads the item count at bytes 2-3 unchecked.
- RtspParser.Split: requires a non-empty separator, because with an empty one `find` returns the same position forever. Every caller passes a literal separator.
- AnnexB.FindPPS: requires the data not to be 1 to 3 bytes long, because there `size - 3` wraps around and the scan reads past the end (BaseClass/MediaEncoder/VideoEncoder.cpp:540-583).
- RtspFraming.CString: the source's request test can read past the received bytes while looking for a terminating NUL. The model decides within the bytes present.
- RtspServerSession.Dissect: a URL that splits on `://` into two pieces of which the second is empty, such as `rtsp://://` (`split` keeps an empty piece before a separator and drops only a trailing one), makes the source split that empty piece on `?` and read the first element of the resulting empty vector (BaseClass/RTSPServer/RTSPServerSession.cpp:691-692). The model answers -3 there. A plain `rtsp://` splits into one piece and gets -1 in both.

Integer width:
- ExBuffer.ExBuff.Append, FlexibleBuffer.FlexibleBuff.Append: require sizes that stay below 2^32. The source's `uint32_t` sums would wrap.
- OsdBitmap.Bitmap.SetBitmap, OsdBitmap.Bitmap.Join: require offsets and joined dimensions below 2^32 for the same reason.
- AnnexB.FindSPS, AnnexB.FindPPS: require `|data| + 1 < 2^32`, so that the source's `uint32_t` positions and the length it hands back do not wrap.
- H264Packetizer.H264RTPpacketizer.RecvPacket: requires `size + 5 < 2^32`, so that the lengths the source passes on (`size + 4`) do not wrap.
- CLib.Atoi: gives the mathematical value. `atoi` is undefined when the value does not fit an `int`.
- RtspClient.Channels: computes `trackid << 1` for non-negative track IDs only. The source's shift of a negative value is not modelled.
- RtspParser: the source returns its negative error codes through a `uint32_t`. The model keeps them as negative integers, which is what every caller compares against.

Unreachable branches and undefined behaviour the model replaces with the evident intent:
- FecDecoder.Decoder.Init: the -3 branch (BaseClass/FEC/FECDecoder.cpp:106-114) is not modelled, because `new` throws rather than returning null.
- FecRepair.RecoverPacket: also stops when the derived length is below 12, where the source would write a 12-byte header into a shorter buffer (BaseClass/FEC/FEC2DTable.cpp:711-749).
- FecRepair.SsrcOf: on a line with no surviving packet, which happens on a 1-wide line (a row when the table has one column, a column when it has one row; Init accepts 1, BaseClass/FEC/FEC2DTable.cpp:88), the source copies the SSRC from `data[0]`, still the null pointer it was initialised to (:626, :663, :747-750). The model gives SSRC zero there (`FecRepair.LoneLossSsrcZero`).
- FecTable.Repair: the source reads the accumulators `nM_PT_Byte` and `nTSBytes` before giving them a value (BaseClass/FEC/FEC2DTable.cpp:720-721). The model starts them at 0.
- FecTable.Table.ClearTable: the source writes `m_pFecTable[row, col]`, a comma operator that nulls row pointers rather than cells (BaseClass/FEC/FEC2DTable.cpp:170). It also clears its `uint8_t` counters with `sizeof(uint32_t) * n` bytes (:178, :182). The model empties every cell and exactly the `n` counters.
- FEC2DTable.cpp:385-387 and :770-772 store a packet through an empty `shared_ptr`. The model returns the packet.
- After a row repair packet, the source calls `TryRepairByColumn` with the column count, and after a column repair packet `TryRepairByRow` with the row count (BaseClass/FEC/FEC2DTable.cpp:562, :571). Both are out of range. The model tries only the line the repair packet names.
- FecDecoder.Decoder.MakeNackPacket: the source dereferences a null `nack` when nothing is missing (BaseClass/FEC/FECDecoder.cpp:379) and writes through an empty `shared_ptr` otherwise (:453-455). As written it never delivers a NACK. The model sends the NACK it builds.

Defects the model corrects (each is a row under `## Findings` with its as-written member):
- FecTable.Table.TryRepairByColumn: writes the empty cell's sequence number into the rebuilt packet and uses the guard `rows - 1`. As written the source never writes the number, so a column-rebuilt packet carries 0 (`FecTableSpec.ColumnRecoverAsWrittenSeqZero`), and its guard also demands `cols` (`FecTableSpec.ColumnRecoverAsWritten`).

Not modelled:
- FecEncoder.Encoder.RecvNackPacket: the model keeps the source's reading of bytes 2-3 as the item count and its use of only the low byte of each BLP. The decoder writes the RFC 4585 length, count + 2, and sets bit 15 - i for the i-th following packet. So every NACK the decoder sends is refused by the encoder (`FecDecoderSpec.NackRejectedByEncoder`), and a BLP would be misread even if it were accepted (`FecEncoder.HighByteIgnored`, `FecDecoderSpec.BlpBit`). The two sides disagree on both fields, and the source gives no sign of which side its authors meant to change, so no corrected pair is modelled.
- FecFuel.FuelSuffices: a rebuilt packet that carries the FEC payload type would be re-inserted as a repair packet, and the source's recursion need not end (`FecFuel.FecPayloadLoops`). The fuel bound cuts that case off.
- Time: `OutPacketThread`'s 40 ms and 5 ms waits become the `waitExpired` and `nackDue` inputs of `FecDecoder.Decoder.OutPacketStep` and `FecDecoder.Decoder.Pass`. Threads, locks and sleeps are not modelled.
- Memory: some allocation failures are inputs. `mallocOk` is the growth of ExBuff and FlexibleBuff, and the packetizers' buffer and SPS/PPS copies. `copyOk` is the H.264 parser's `malloc` in `OutputMediaPacket`. `tableOk` and `rowOk` are Bitmap's row arrays. `failAt` is the allocations of the FEC table's Init, reached through the encoder's and decoder's Init. Every other allocation is taken to succeed, in particular the H.264 parser's own `FlexibleBuff.Append` of pending bytes, whose failure the source ignores. `shared_ptr` ownership and destructors are not modelled.
- The FEC bit table (`FEC2DBitTable`, `GetMinimalRepairSet`, BaseClass/FEC/FEC2DTable.cpp:777-1001) is not part of this model. Neither the encoder nor the decoder uses it.
- RTSP orchestration: sockets, `SessionThread`, `SendVideo`, the OPTIONS, SETUP, PLAY and TEARDOWN handlers, and the client's blocking `PlayUrl`/`Options`/`Describe`/`Setup`/`Play`/`Teardown` are not part of this model. `MakeDeviceSdp` lists capture devices; it is the `deviceSdp` input of `RtspServerSession.Session.HandleDescribeRequest`, and whether the socket send succeeds is its `sent` input. The track IDs SETUP would record reach `RtspClient.Client` through its constructor.
- Bitmap: `m_dAngle` and `PrintfBitmap` (console output) are not modelled.
- Capture, encoding, decoding, FreeType glyph rendering, MAVLink telemetry and the serial and UDP transports are not part of this model.

## Findings

| source | as written | input that shows it | evidently intended | confidence | as-written member | corrected member |
|---|---|---|---|---|---|---|
| BaseClass/FEC/FEC2DTable.cpp:247-257 | `CalculateRowAndColumn` takes `n = offset + 1`, then `row = n / C` and `col = n % C - 1` in `uint32_t` | any sequence number in the last column of its row, e.g. offset 3 with C = 4: column 2^32 - 1 | row = offset / C, column = offset % C, the inverse of the cell-to-sequence mapping the code uses at :640 and :678 | not executed | FecGrid.CalcAsWritten (FecGrid.CalcAsWrittenLastColumn) | FecGrid.CellOf (FecGrid.CellOfInverse) |
| BaseClass/FEC/FEC2DTable.cpp:524-540 | a repair packet is stored only when the slot is already full (the null test is inverted) | any repair packet arriving at a cleared table: the slot stays empty forever | store into an empty slot and keep the first one | not executed | FecTableSpec.StoreRepairAsWritten (FecTableSpec.AsWrittenSlotStaysEmpty) | FecTableSpec.StoreRepair (FecTableSpec.SlotKeepsFirst) |
| BaseClass/FEC/FEC2DTable.cpp:623-687 | row repair fires when the row count equals R - 1; column repair needs count == C and count == R - 1 at once | a 2 x 4 table whose row lost one of its 4 packets and holds the row's repair packet: as written nothing is rebuilt, the corrected guard rebuilds the lost packet; on a square table no column is ever repaired | repair a row holding C - 1 packets and a column holding R - 1 | not executed | FecTableSpec.RowRecoverAsWritten, FecTableSpec.ColumnRecoverAsWritten (FecTableSpec.RowRecoverAsWrittenMisses, FecTableSpec.ColumnRecoverAsWrittenSquare) | FecTableSpec.RowRecover, FecTableSpec.ColumnRecover (FecTableSpec.RowRecoverLost, FecTableSpec.ColumnRecoverLost) |
| BaseClass/FEC/FEC2DTable.cpp:676-691 | the column loop writes the empty cell's sequence number only while `packet` is still null, which it always is, so it never writes it; `Repair` leaves bytes 2-3 at 0 (:717) | a 3 x 2 table whose column lost its k-th packet and holds the column's repair packet: the rebuilt packet carries sequence number 0 instead of the lost one | write the empty cell's sequence number into the rebuilt packet, as the row loop does | not executed | FecTableSpec.ColumnRecoverAsWritten (FecTableSpec.ColumnRecoverAsWrittenSeqZero) | FecTableSpec.ColumnRecover (FecTableSpec.ColumnRecoverLost) |
| BaseClass/FEC/FEC2DTable.cpp:703-765 | `Repair` allocates and fills the raw length field of the repair packet, not its XOR with the surviving lengths | a line of a 20-byte and a 30-byte packet that lost the first: 10 bytes allocated for a 20-byte packet | the lost packet's length, recovered by XOR as computed at :698-704 | not executed | FecTableSpec.RepairLengthAsWritten (FecTableSpec.RepairLengthAsWrittenWrong) | FecRepair.RecoveredLength (FecRepair.RecoverLength) |
| BaseClass/FEC/FECDecoder.cpp:152 | the jump test is `abs(seq - lastOut) > MAX_TOLERATED_JUMP` on plain integers | output waiting for 65535 when 0 arrives and 65535 comes after it: the output point jumps to 0, then back to 65535, so the packets leave as 0, 65535 | measure the jump on the 16-bit ring | not executed | FecDecoderSpec.AdmitAsWritten (FecDecoderSpec.AdmitAsWrittenJumpsAtWrap) | FecDecoderSpec.Admit |
| BaseClass/FEC/FECDecoder.cpp:394-416 | the NACK scan starts one place after the output point, and its outer loop tests for the last received number only after stepping past it | the awaited packet missing and everything after it present: no NACK; last received slot empty and all others full: the loop never ends | scan from the output point and stop at the last received number | not executed | FecDecoderSpec.OuterAsWritten (FecDecoderSpec.AsWrittenMissesNext, FecDecoderSpec.AsWrittenNeverEnds) | FecDecoderSpec.Scan (FecDecoderSpec.ScanReports) |
| BaseClass/FEC/FECDecoder.cpp:346-354 | `SkipPackets` stops only on equality with the last received number | every slot empty, output point 6, last received 5: the output point ends at 16 | skip at most to the last received packet, as the comment at :348 says | not executed | FecDecoderSpec.SkipAsWritten (FecDecoderSpec.SkipAsWrittenOvershoots, FecDecoderSpec.SkipAsWrittenProbe) | FecDecoderSpec.Skip (FecDecoderSpec.SkipAgrees) |
| BaseClass/OSD/Bitmap.cpp:151-179 | `Join` never resets the x offset between lines | two lines of one 1 x 1 piece each: the second piece starts at column 6 of a 6-wide join, `SetBitmap` refuses it and it is missing | every line starts at column 0 | not executed | OsdLayout.PlaceXAsWritten (OsdLayout.JoinAsWrittenDropsSecondLine) | OsdLayout.PlaceX (OsdLayout.JoinShows) |
| BaseClass/RTPParser/H264RTPParser.cpp:93 | the length guard lets 12- and 13-byte packets through | a 12-byte packet: the unit header at byte 12 is read past the end; a 13-byte FU-A packet: 2^32 - 1 bytes appended | after the version test, refuse version-2 packets too short for the bytes read next (a short packet with a wrong version still gets -2) | not executed | H264RtpParser.ShortPacketsPass | H264RtpParser.TooShort (H264RtpParser.TooShortExact) |
| BaseClass/RTPPacketizer/MJPEGRTPpacketizer.cpp:166-169 | a single-packet frame writes the 0x0a marker at byte 13, where the payload copy overwrites it, and leaves byte 12 as the previous frame wrote it | a fragmented frame followed by a small one: byte 12 is the old FU indicator, not 0x0a | write the 0x0a marker into byte 12 of every single packet | not executed | MjpegPacketizer.JpegSingleAsWritten (MjpegPacketizer.StaleByteShows) | MjpegPacketizer.JpegSingle (MjpegPacketizer.JpegSingleShape) |
| BaseClass/RTSPClient/RTSPClient.cpp:362-377 | the client tests for a request with `strcmp` against the whole method word | any request of 19 bytes or more with no NUL among its first 19: the client drops its whole buffer | test the method word as a prefix, as the server does | not executed | RtspClient.IsRtspRequestMsgAsWritten (RtspClient.RequestDroppedAsWritten) | RtspFraming.IsRtspRequestMsg (RtspClient.RequestRecognised) |
