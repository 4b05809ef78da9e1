// The sACN data packet (ANSI E1.31, Table 4-1 and sections 5 to 7): what the
// transmitter builds and what the receiver parses.
module Sacn {
  import opened Prelude
  import opened Bytes

  const DMX_UNIVERSE_SIZE := 512
  const PREAMBLE_SIZE := 0x0010
  const VECTOR_ROOT_E131_DATA := 4
  const VECTOR_E131_DATA_PACKET := 2
  const VECTOR_DMP_SET_PROPERTY := 2
  const MIN_PACKET_LEN := 126
  const MAX_PACKET_LEN := 638

  // "ASC-E1.17" and three NULs
  const ACN_IDENTIFIER: bytes := [65, 83, 67, 45, 69, 49, 46, 49, 55, 0, 0, 0]

  function PackBe16(v: nat): (b: bytes)
    requires v < 0x1_0000
    ensures |b| == 2
  {
    [v / 256, v % 256]
  }

  function UnpackBe16(b: bytes, i: nat): (v: nat)
    requires i + 2 <= |b|
    ensures v < 0x1_0000
  {
    b[i] as int * 256 + b[i + 1] as int
  }

  // A transmitter's identity and its sequence number.
  datatype Tx = Tx(sequence: byte, universe: nat, cid: bytes, name: bytes, priority: byte) {
    predicate Valid() {
      universe < 0x1_0000 && |cid| == 16 && |name| == 64 && name[63] == 0
    }
  }

  // The sequence number is one byte.
  function Next(tx: Tx): (n: Tx)
    requires tx.Valid()
    ensures n.Valid()
  {
    tx.(sequence := if tx.sequence == 255 then 0 else tx.sequence + 1)
  }

  datatype Packet = Packet(cid: bytes, name: bytes, priority: byte, sequence: byte, universe: nat, options: byte, startCode: byte, dmx: bytes)

  // ---- The three layers --------------------------------------------------------------------

  // Flags 0x7 and the 12-bit length of a PDU.
  function FlagsLength(len: nat): nat { 0x7000 + len }

  function RootLayer(tx: Tx, n: nat): (b: bytes)
    requires tx.Valid() && n <= DMX_UNIVERSE_SIZE
    ensures |b| == 38
  {
    PackBe16(PREAMBLE_SIZE) + PackBe16(0) + ACN_IDENTIFIER + PackBe16(FlagsLength(110 + n)) + PackBe(VECTOR_ROOT_E131_DATA) + tx.cid
  }

  function FramingLayer(tx: Tx, n: nat): (b: bytes)
    requires tx.Valid() && n <= DMX_UNIVERSE_SIZE
    ensures |b| == 77
  {
    PackBe16(FlagsLength(88 + n)) + PackBe(VECTOR_E131_DATA_PACKET) + tx.name + [tx.priority] + PackBe16(0)
    + [tx.sequence] + [0] + PackBe16(tx.universe)
  }

  function DmpLayer(dmx: bytes): (b: bytes)
    requires |dmx| <= DMX_UNIVERSE_SIZE
    ensures |b| == 11 + |dmx|
  {
    PackBe16(FlagsLength(11 + |dmx|)) + [VECTOR_DMP_SET_PROPERTY] + [0xA1] + PackBe16(0) + PackBe16(1) + PackBe16(1 + |dmx|) + [0] + dmx
  }

  function PacketBytes(tx: Tx, dmx: bytes): (b: bytes)
    requires tx.Valid() && |dmx| <= DMX_UNIVERSE_SIZE
    ensures |b| == 126 + |dmx|
  {
    RootLayer(tx, |dmx|) + FramingLayer(tx, |dmx|) + DmpLayer(dmx)
  }

  // A frame cut to one universe.
  function Clip(dmx: bytes): (c: bytes)
    ensures |c| == (if |dmx| > 512 then 512 else |dmx|) && c <= dmx
  {
    if |dmx| > DMX_UNIVERSE_SIZE then dmx[..DMX_UNIVERSE_SIZE] else dmx
  }

  // ---- sacn_parse ------------------------------------------------------------------------

  function ParsePacket(b: bytes): Option<Packet> {
    if |b| < MIN_PACKET_LEN then None
    else if UnpackBe16(b, 0) != PREAMBLE_SIZE || b[4..16] != ACN_IDENTIFIER || UnpackBe(b, 18) != VECTOR_ROOT_E131_DATA then None
    else if b[117] != VECTOR_DMP_SET_PROPERTY || UnpackBe16(b, 123) < 1 then None
    else
      var count := UnpackBe16(b, 123) - 1;
      var clipped := if count > DMX_UNIVERSE_SIZE then DMX_UNIVERSE_SIZE else count;
      var n := if 126 + clipped > |b| then |b| - 126 else clipped;
      Some(Packet(b[22..38], b[44..108][63 := 0], b[108], b[111], UnpackBe16(b, 113), b[112], b[125], b[126..126 + n]))
  }

  // ---- The packet on the wire -----------------------------------------------------------------

  // Every field of a data packet, in the order of the tables, with the vectors and the
  // identifier fixed and anything at all behind the announced slots.
  datatype Fields = Fields(postamble: bytes, rootLength: bytes, cid: bytes,
                           frameLength: bytes, frameVector: bytes, name: bytes, priority: byte, sync: bytes,
                           sequence: byte, options: byte, universe: bytes,
                           dmpLength: bytes, dataType: byte, first: bytes, increment: bytes, count: bytes,
                           startCode: byte, slots: bytes) {
    predicate Valid() {
      && |postamble| == |rootLength| == |frameLength| == |sync| == |universe| == |dmpLength| == |first| == |increment| == |count| == 2
      && |cid| == 16 && |frameVector| == 4 && |name| == 64
    }
  }

  function RootWire(f: Fields): (b: bytes)
    requires f.Valid()
    ensures |b| == 38
  {
    [0, 0x10] + f.postamble + [65, 83, 67, 45, 69, 49, 46, 49, 55, 0, 0, 0] + f.rootLength + [0, 0, 0, 4] + f.cid
  }

  function FramingWire(f: Fields): (b: bytes)
    requires f.Valid()
    ensures |b| == 77
  {
    f.frameLength + f.frameVector + f.name + [f.priority] + f.sync + [f.sequence] + [f.options] + f.universe
  }

  function DmpWire(f: Fields): (b: bytes)
    requires f.Valid()
    ensures |b| == 11 + |f.slots|
  {
    f.dmpLength + [2] + [f.dataType] + f.first + f.increment + f.count + [f.startCode] + f.slots
  }

  function Wire(f: Fields): (b: bytes)
    requires f.Valid()
    ensures |b| == 126 + |f.slots|
  {
    RootWire(f) + FramingWire(f) + DmpWire(f)
  }

  lemma RootSlices(f: Fields)
    requires f.Valid()
    ensures var b := RootWire(f);
            && b[0..2] == [0, 0x10] && b[2..4] == f.postamble && b[4..16] == [65, 83, 67, 45, 69, 49, 46, 49, 55, 0, 0, 0]
            && b[16..18] == f.rootLength && b[18..22] == [0, 0, 0, 4] && b[22..38] == f.cid
  {
  }

  lemma FramingSlices(f: Fields)
    requires f.Valid()
    ensures var b := FramingWire(f);
            && b[0..2] == f.frameLength && b[2..6] == f.frameVector && b[6..70] == f.name && b[70] == f.priority && b[71..73] == f.sync
            && b[73] == f.sequence && b[74] == f.options && b[75..77] == f.universe
  {
  }

  lemma DmpSlices(f: Fields)
    requires f.Valid()
    ensures var b := DmpWire(f);
            && b[0..2] == f.dmpLength && b[2] == 2 && b[3] == f.dataType && b[4..6] == f.first && b[6..8] == f.increment
            && b[8..10] == f.count && b[10] == f.startCode && b[11..] == f.slots
  {
  }

  lemma SliceOfPart(a: bytes, part: bytes, c: bytes, i: nat, j: nat)
    requires i <= j <= |part|
    ensures (a + part + c)[|a| + i..|a| + j] == part[i..j]
  {
  }

  lemma IndexOfPart(a: bytes, part: bytes, c: bytes, i: nat)
    requires i < |part|
    ensures (a + part + c)[|a| + i] == part[i]
  {
  }

  // The fields lie at the offsets of the table.
  lemma WireSlices(f: Fields)
    requires f.Valid()
    ensures var b := Wire(f);
            && b[0..2] == [0, 0x10] && b[2..4] == f.postamble && b[4..16] == [65, 83, 67, 45, 69, 49, 46, 49, 55, 0, 0, 0]
            && b[16..18] == f.rootLength && b[18..22] == [0, 0, 0, 4] && b[22..38] == f.cid
            && b[38..40] == f.frameLength && b[40..44] == f.frameVector && b[44..108] == f.name && b[108] == f.priority && b[109..111] == f.sync
            && b[111] == f.sequence && b[112] == f.options && b[113..115] == f.universe
            && b[115..117] == f.dmpLength && b[117] == 2 && b[118] == f.dataType && b[119..121] == f.first && b[121..123] == f.increment
            && b[123..125] == f.count && b[125] == f.startCode && b[126..] == f.slots
  {
    hide RootWire, FramingWire, DmpWire;
    RootSlices(f);
    FramingSlices(f);
    DmpSlices(f);
    RootPart(RootWire(f), FramingWire(f) + DmpWire(f), Wire(f));
    FramingPart(RootWire(f), FramingWire(f), DmpWire(f));
    DmpPart(RootWire(f) + FramingWire(f), DmpWire(f));
  }

  lemma RootPart(r: bytes, rest: bytes, b: bytes)
    requires |r| == 38 && b == r + rest
    ensures b[0..2] == r[0..2] && b[2..4] == r[2..4] && b[4..16] == r[4..16] && b[16..18] == r[16..18] && b[18..22] == r[18..22] && b[22..38] == r[22..38]
  {
    var none: bytes := [];
    assert none + r + rest == b;
    SliceOfPart(none, r, rest, 0, 2); SliceOfPart(none, r, rest, 2, 4); SliceOfPart(none, r, rest, 4, 16);
    SliceOfPart(none, r, rest, 16, 18); SliceOfPart(none, r, rest, 18, 22); SliceOfPart(none, r, rest, 22, 38);
  }

  lemma FramingPart(r: bytes, p: bytes, rest: bytes)
    requires |r| == 38 && |p| == 77
    ensures var b := r + p + rest;
            && b[38..40] == p[0..2] && b[40..44] == p[2..6] && b[44..108] == p[6..70] && b[108] == p[70] && b[109..111] == p[71..73]
            && b[111] == p[73] && b[112] == p[74] && b[113..115] == p[75..77]
  {
    SliceOfPart(r, p, rest, 0, 2); SliceOfPart(r, p, rest, 2, 6); SliceOfPart(r, p, rest, 6, 70); SliceOfPart(r, p, rest, 71, 73);
    SliceOfPart(r, p, rest, 75, 77); IndexOfPart(r, p, rest, 70); IndexOfPart(r, p, rest, 73); IndexOfPart(r, p, rest, 74);
  }

  lemma DmpPart(r: bytes, d: bytes)
    requires |r| == 115 && |d| >= 11
    ensures var b := r + d;
            && b[115..117] == d[0..2] && b[117] == d[2] && b[118] == d[3] && b[119..121] == d[4..6] && b[121..123] == d[6..8]
            && b[123..125] == d[8..10] && b[125] == d[10] && b[126..] == d[11..]
  {
    var none: bytes := [];
    assert r + d + none == r + d;
    SliceOfPart(r, d, none, 0, 2); SliceOfPart(r, d, none, 4, 6); SliceOfPart(r, d, none, 6, 8); SliceOfPart(r, d, none, 8, 10);
    SliceOfPart(r, d, none, 11, |d|);
  }

  // ---- Parsing any packet ------------------------------------------------------------------------

  // The slots a receiver takes: as many as are announced, there, and in a universe.
  function Taken(f: Fields): bytes
    requires f.Valid()
  {
    var announced := 256 * f.count[0] as int + f.count[1] as int - 1;
    var n := if announced < 512 then announced else 512;
    if n < 0 then [] else if |f.slots| < n then f.slots else f.slots[..n]
  }

  // Any packet with at least its start code announced is accepted, whatever its options,
  // start code, synchronization address and length fields, and all its fields come back.
  lemma ParseWire(f: Fields)
    requires f.Valid() && f.count != [0, 0]
    ensures ParsePacket(Wire(f)) == Some(Packet(f.cid, f.name[63 := 0], f.priority, f.sequence, 256 * f.universe[0] as int + f.universe[1] as int,
                                                f.options, f.startCode, Taken(f)))
  {
    hide Wire;
    var b := Wire(f);
    WireSlices(f);
    assert b[0] == b[0..2][0] && b[1] == b[0..2][1];
    assert b[18] == b[18..22][0] && b[19] == b[18..22][1] && b[20] == b[18..22][2] && b[21] == b[18..22][3];
    assert b[113] == b[113..115][0] && b[114] == b[113..115][1] && b[123] == b[123..125][0] && b[124] == b[123..125][1];
    assert f.count == [f.count[0], f.count[1]];
    assert forall n :: 0 <= n <= |f.slots| ==> b[126..126 + n] == f.slots[..n];
    assert f.slots[..|f.slots|] == f.slots;
  }

  // What lies at the offsets of any long enough packet.
  function FieldsOf(b: bytes): (f: Fields)
    requires |b| >= 126
    ensures f.Valid()
  {
    Fields(b[2..4], b[16..18], b[22..38], b[38..40], b[40..44], b[44..108], b[108], b[109..111], b[111], b[112], b[113..115],
           b[115..117], b[118], b[119..121], b[121..123], b[123..125], b[125], b[126..])
  }

  // Accepted are just the packets of this format that announce a start code.
  lemma AcceptedExactly(b: bytes)
    ensures ParsePacket(b).Some? <==> |b| >= 126 && b == Wire(FieldsOf(b)) && FieldsOf(b).count != [0, 0]
  {
    hide Wire, ParsePacket;
    if |b| >= 126 {
      var f := FieldsOf(b);
      if b == Wire(f) && f.count != [0, 0] { ParseWire(f); }
      if ParsePacket(b).Some? { FormatOf(b); }
    } else {
      assert ParsePacket(b).None? by { TooShort(b); }
    }
  }

  // The start code of an accepted packet is its byte 125.
  lemma StartCodeIs(b: bytes)
    requires ParsePacket(b).Some?
    ensures |b| >= 126 && ParsePacket(b).value.startCode == b[125] && ParsePacket(b).value.universe == 256 * b[113] as int + b[114] as int
  {
    hide Wire, ParsePacket;
    AcceptedExactly(b);
    ParseWire(FieldsOf(b));
  }

  lemma TooShort(b: bytes)
    requires |b| < 126
    ensures ParsePacket(b).None?
  {
  }

  lemma FormatOf(b: bytes)
    requires |b| >= 126 && ParsePacket(b).Some?
    ensures b == Wire(FieldsOf(b)) && FieldsOf(b).count != [0, 0]
  {
    hide RootWire, FramingWire, DmpWire;
    RootFormat(b);
    FramingFormat(b);
    DmpFormat(b);
    assert b == b[0..38] + b[38..115] + b[115..];
  }

  lemma RootFormat(b: bytes)
    requires |b| >= 126 && ParsePacket(b).Some?
    ensures b[0..38] == RootWire(FieldsOf(b))
  {
    assert b[0..2] == [0, 0x10] && b[18..22] == [0, 0, 0, 4];
    assert b[0..38] == b[0..2] + b[2..4] + b[4..16] + b[16..18] + b[18..22] + b[22..38];
  }

  lemma FramingFormat(b: bytes)
    requires |b| >= 126
    ensures b[38..115] == FramingWire(FieldsOf(b))
  {
    hide ParsePacket;
  }

  lemma DmpFormat(b: bytes)
    requires |b| >= 126 && ParsePacket(b).Some?
    ensures b[115..] == DmpWire(FieldsOf(b)) && FieldsOf(b).count != [0, 0]
  {
    assert b[117..118] == [2];
    assert b[115..] == b[115..117] + b[117..118] + [b[118]] + b[119..121] + b[121..123] + b[123..125] + [b[125]] + b[126..];
  }

  // ---- Fields of a built packet -------------------------------------------------------------

  // What the transmitter puts into each field: no postamble, vector 2, no synchronization,
  // no options, data type 0xA1, first address 0, increment 1, start code 0.
  function Built(tx: Tx, dmx: bytes): (f: Fields)
    requires tx.Valid() && |dmx| <= 512
    ensures f.Valid()
  {
    var n := |dmx|;
    Fields([0, 0], [0x70 + (110 + n) / 256, (110 + n) % 256], tx.cid,
           [0x70 + (88 + n) / 256, (88 + n) % 256], [0, 0, 0, 2], tx.name, tx.priority, [0, 0],
           tx.sequence, 0, [tx.universe / 256, tx.universe % 256],
           [0x70 + (11 + n) / 256, (11 + n) % 256], 0xA1, [0, 0], [0, 1], [(1 + n) / 256, (1 + n) % 256], 0, dmx)
  }

  lemma BuiltIs(tx: Tx, dmx: bytes)
    requires tx.Valid() && |dmx| <= 512
    ensures PacketBytes(tx, dmx) == Wire(Built(tx, dmx))
  {
    hide RootLayer, FramingLayer, DmpLayer, RootWire, FramingWire, DmpWire;
    RootBuilt(tx, dmx);
    FramingBuilt(tx, dmx);
    DmpBuilt(tx, dmx);
  }

  lemma LengthBytes(len: nat)
    requires len < 0x1000
    ensures PackBe16(FlagsLength(len)) == [0x70 + len / 256, len % 256]
  {
    assert 0x7000 == 0x70 * 256;
  }

  lemma RootBuilt(tx: Tx, dmx: bytes)
    requires tx.Valid() && |dmx| <= 512
    ensures RootLayer(tx, |dmx|) == RootWire(Built(tx, dmx))
  {
    LengthBytes(110 + |dmx|);
    assert PackBe(4) == [0, 0, 0, 4] && PackBe16(0x10) == [0, 0x10] && PackBe16(0) == [0, 0];
    assert ACN_IDENTIFIER == [65, 83, 67, 45, 69, 49, 46, 49, 55, 0, 0, 0];
    hide PackBe, PackBe16;
  }

  lemma FramingBuilt(tx: Tx, dmx: bytes)
    requires tx.Valid() && |dmx| <= 512
    ensures FramingLayer(tx, |dmx|) == FramingWire(Built(tx, dmx))
  {
    LengthBytes(88 + |dmx|);
    assert PackBe(2) == [0, 0, 0, 2] && PackBe16(0) == [0, 0];
    hide PackBe;
  }

  lemma DmpBuilt(tx: Tx, dmx: bytes)
    requires tx.Valid() && |dmx| <= 512
    ensures DmpLayer(dmx) == DmpWire(Built(tx, dmx))
  {
    LengthBytes(11 + |dmx|);
    assert PackBe16(0) == [0, 0] && PackBe16(1) == [0, 1];
  }

  // The fields of a built packet at the offsets of the table.
  lemma PacketSlices(tx: Tx, dmx: bytes)
    requires tx.Valid() && |dmx| <= 512
    ensures var b, n := PacketBytes(tx, dmx), |dmx|;
            && b[0..4] == [0, 0x10, 0, 0] && b[4..16] == [65, 83, 67, 45, 69, 49, 46, 49, 55, 0, 0, 0]
            && b[16..22] == [0x70 + (110 + n) / 256, (110 + n) % 256, 0, 0, 0, 4] && b[22..38] == tx.cid
            && b[38..44] == [0x70 + (88 + n) / 256, (88 + n) % 256, 0, 0, 0, 2] && b[44..108] == tx.name && b[108] == tx.priority
            && b[109..111] == [0, 0] && b[111] == tx.sequence && b[112] == 0 && b[113..115] == [tx.universe / 256, tx.universe % 256]
            && b[115..123] == [0x70 + (11 + n) / 256, (11 + n) % 256, 2, 0xA1, 0, 0, 0, 1]
            && b[123..125] == [(1 + n) / 256, (1 + n) % 256] && b[125] == 0 && b[126..] == dmx
  {
    hide PacketBytes, Wire;
    var b, f := Wire(Built(tx, dmx)), Built(tx, dmx);
    BuiltIs(tx, dmx);
    WireSlices(f);
    assert b[0..4] == b[0..2] + b[2..4] && b[16..22] == b[16..18] + b[18..22] && b[38..44] == b[38..40] + b[40..44];
    assert b[115..123] == b[115..117] + [b[117]] + [b[118]] + b[119..121] + b[121..123];
  }

  // What a peer's transmitter state and frame look like to the receiver.
  function Received(tx: Tx, dmx: bytes): Packet {
    Packet(tx.cid, tx.name, tx.priority, tx.sequence, tx.universe, 0, 0, dmx)
  }

  // Every frame of 0 to 512 slots comes back from its packet with its CID, name,
  // priority, sequence and universe.
  lemma ParseBuilt(tx: Tx, dmx: bytes)
    requires tx.Valid() && |dmx| <= 512
    ensures ParsePacket(PacketBytes(tx, dmx)) == Some(Received(tx, dmx))
  {
    hide PacketBytes, Wire, ParsePacket;
    var f := Built(tx, dmx);
    BuiltIs(tx, dmx);
    assert f.count[0] != 0 || f.count[1] != 0;
    ParseWire(f);
    assert tx.name[63 := 0] == tx.name;
    assert dmx[..|dmx|] == dmx;
  }

  // Each PDU's length field counts the bytes from itself to the end of the packet,
  // and the property count is the start code and the slots.
  lemma PduLengths(tx: Tx, dmx: bytes)
    requires tx.Valid() && |dmx| <= 512
    ensures var b := PacketBytes(tx, dmx);
            && |b| == 126 + |dmx|
            && 256 * b[16] as int + b[17] as int == 0x7000 + (|b| - 16)
            && 256 * b[38] as int + b[39] as int == 0x7000 + (|b| - 38)
            && 256 * b[115] as int + b[116] as int == 0x7000 + (|b| - 115)
            && 256 * b[123] as int + b[124] as int == 1 + |dmx|
  {
    hide PacketBytes;
    var b := PacketBytes(tx, dmx);
    PacketSlices(tx, dmx);
    assert b[16] == b[16..22][0] && b[17] == b[16..22][1] && b[38] == b[38..44][0] && b[39] == b[38..44][1];
    assert b[115] == b[115..123][0] && b[116] == b[115..123][1] && b[123] == b[123..125][0] && b[124] == b[123..125][1];
  }

  // A parsed frame never exceeds a universe, the packet, or the announced count.
  lemma ParsedLength(b: bytes)
    ensures match ParsePacket(b)
      case None => true
      case Some(p) => |p.dmx| <= 512 && 126 + |p.dmx| <= |b| && 1 + |p.dmx| <= UnpackBe16(b, 123)
                      && (|p.dmx| == 512 || 126 + |p.dmx| == |b| || 1 + |p.dmx| == UnpackBe16(b, 123))
  {
  }

  // ---- sacn_tx_build_packet, field by field into the buffer ------------------------------------

  ghost predicate Begins(buf: array<byte>, s: bytes)
    reads buf
  {
    |s| <= buf.Length && buf[..|s|] == s
  }

  // Stores a field behind what was already written: the layers in front, then the
  // part of this layer that is done.
  method Store(buf: array<byte>, pos: nat, field: bytes, ghost front: bytes, ghost done: bytes) returns (next: nat)
    requires pos + |field| <= buf.Length && pos == |front| + |done| && Begins(buf, front + done)
    modifies buf
    ensures next == pos + |field| && Begins(buf, front + (done + field))
    ensures forall k :: next <= k < buf.Length ==> buf[k] == old(buf[k])
  {
    for i := 0 to |field|
      invariant buf[..pos] == front + done && buf[pos..pos + i] == field[..i]
      invariant forall k :: pos + i <= k < buf.Length ==> buf[k] == old(buf[k])
    {
      buf[pos + i] := field[i];
      assert buf[pos..pos + i + 1] == buf[pos..pos + i] + [buf[pos + i]];
    }
    next := pos + |field|;
    assert buf[..next] == buf[..pos] + buf[pos..next];
    assert front + done + field == front + (done + field);
  }

  method StoreRoot(tx: Tx, n: nat, buf: array<byte>)
    requires tx.Valid() && n <= DMX_UNIVERSE_SIZE && buf.Length >= 38
    modifies buf
    ensures Begins(buf, RootLayer(tx, n))
    ensures forall k :: 38 <= k < buf.Length ==> buf[k] == old(buf[k])
  {
    hide Begins, PackBe16, PackBe;
    ghost var front: bytes, done: bytes := [], [];
    NothingBegins(buf);
    var p := Store(buf, 0, PackBe16(PREAMBLE_SIZE), front, done);
    done := done + PackBe16(PREAMBLE_SIZE);
    p := Store(buf, p, PackBe16(0), front, done);
    done := done + PackBe16(0);
    p := Store(buf, p, ACN_IDENTIFIER, front, done);
    done := done + ACN_IDENTIFIER;
    p := Store(buf, p, PackBe16(FlagsLength(110 + n)), front, done);
    done := done + PackBe16(FlagsLength(110 + n));
    p := Store(buf, p, PackBe(VECTOR_ROOT_E131_DATA), front, done);
    done := done + PackBe(VECTOR_ROOT_E131_DATA);
    p := Store(buf, p, tx.cid, front, done);
    assert front + (done + tx.cid) == RootLayer(tx, n);
  }

  lemma NothingBegins(buf: array<byte>)
    ensures Begins(buf, [] + [])
  {
  }

  method StoreFraming(tx: Tx, n: nat, buf: array<byte>, ghost front: bytes)
    requires tx.Valid() && n <= DMX_UNIVERSE_SIZE && buf.Length >= 115 && |front| == 38 && Begins(buf, front)
    modifies buf
    ensures Begins(buf, front + FramingLayer(tx, n))
    ensures forall k :: 115 <= k < buf.Length ==> buf[k] == old(buf[k])
  {
    hide Begins, PackBe16, PackBe;
    ghost var done: bytes := [];
    assert front + done == front;
    var p := Store(buf, 38, PackBe16(FlagsLength(88 + n)), front, done);
    done := done + PackBe16(FlagsLength(88 + n));
    p := Store(buf, p, PackBe(VECTOR_E131_DATA_PACKET), front, done);
    done := done + PackBe(VECTOR_E131_DATA_PACKET);
    p := Store(buf, p, tx.name, front, done);
    StoreSource(tx, buf, front, done + tx.name);
    assert done + tx.name + [tx.priority] + PackBe16(0) + [tx.sequence] + [0] + PackBe16(tx.universe) == FramingLayer(tx, n);
  }

  // The rest of the framing layer: priority, sync address, sequence, options, universe.
  method StoreSource(tx: Tx, buf: array<byte>, ghost front: bytes, ghost before: bytes)
    requires tx.Valid() && buf.Length >= 115 && |front| == 38 && |before| == 70 && Begins(buf, front + before)
    modifies buf
    ensures Begins(buf, front + (before + [tx.priority] + PackBe16(0) + [tx.sequence] + [0] + PackBe16(tx.universe)))
    ensures forall k :: 115 <= k < buf.Length ==> buf[k] == old(buf[k])
  {
    hide Begins, PackBe16;
    ghost var done := before;
    var p := Store(buf, 108, [tx.priority], front, done);
    done := done + [tx.priority];
    p := Store(buf, p, PackBe16(0), front, done);
    done := done + PackBe16(0);
    p := Store(buf, p, [tx.sequence], front, done);
    done := done + [tx.sequence];
    p := Store(buf, p, [0], front, done);
    done := done + [0];
    p := Store(buf, p, PackBe16(tx.universe), front, done);
  }

  method StoreDmp(dmx: bytes, buf: array<byte>, ghost front: bytes)
    requires |dmx| <= DMX_UNIVERSE_SIZE && buf.Length >= 126 + |dmx| && |front| == 115 && Begins(buf, front)
    modifies buf
    ensures Begins(buf, front + DmpLayer(dmx))
    ensures forall k :: 126 + |dmx| <= k < buf.Length ==> buf[k] == old(buf[k])
  {
    hide Begins, PackBe16;
    ghost var done: bytes := [];
    assert front + done == front;
    var p := Store(buf, 115, PackBe16(FlagsLength(11 + |dmx|)), front, done);
    done := done + PackBe16(FlagsLength(11 + |dmx|));
    p := Store(buf, p, [VECTOR_DMP_SET_PROPERTY], front, done);
    done := done + [VECTOR_DMP_SET_PROPERTY];
    p := Store(buf, p, [0xA1], front, done);
    done := done + [0xA1];
    p := Store(buf, p, PackBe16(0), front, done);
    done := done + PackBe16(0);
    p := Store(buf, p, PackBe16(1), front, done);
    done := done + PackBe16(1);
    p := Store(buf, p, PackBe16(1 + |dmx|), front, done);
    done := done + PackBe16(1 + |dmx|);
    p := Store(buf, p, [0], front, done);
    done := done + [0];
    p := Store(buf, p, dmx, front, done);
    assert done + dmx == DmpLayer(dmx);
  }

  // The packet's length, or -1 when the buffer is too small.
  method BuildPacket(tx: Tx, dmx: bytes, buf: array<byte>) returns (len: int)
    requires tx.Valid()
    modifies buf
    ensures len == if buf.Length < 126 + |Clip(dmx)| then -1 else 126 + |Clip(dmx)|
    ensures len >= 0 ==> buf[..len] == PacketBytes(tx, Clip(dmx))
    ensures forall k :: 0 <= k < buf.Length && k >= len ==> buf[k] == old(buf[k])
  {
    hide RootLayer, FramingLayer, DmpLayer;
    var data := Clip(dmx);
    var n := |data|;
    len := 126 + n;
    if buf.Length < len { return -1; }
    StoreRoot(tx, n, buf);
    StoreFraming(tx, n, buf, RootLayer(tx, n));
    StoreDmp(data, buf, RootLayer(tx, n) + FramingLayer(tx, n));
  }

  // A transmitter, and the datagrams its socket has taken.
  class Transmitter {
    var tx: Tx
    var wire: seq<bytes>

    constructor (identity: Tx)
      ensures tx == identity && wire == []
    {
      tx, wire := identity, [];
    }

    // taken says whether sendto succeeds.  Only then does the sequence number move on.
    method Send(dmx: bytes, taken: bool) returns (rc: int)
      requires tx.Valid()
      modifies this
      ensures rc == if taken then 0 else -1
      ensures taken ==> wire == old(wire) + [PacketBytes(old(tx), Clip(dmx))] && tx == Next(old(tx))
      ensures !taken ==> wire == old(wire) && tx == old(tx)
    {
      hide PacketBytes;
      var buf := new byte[MAX_PACKET_LEN](_ => 0);
      var len := BuildPacket(tx, dmx, buf);
      if len < 0 { return -1; }
      if !taken { return -1; }
      wire := wire + [buf[..len]];
      tx := tx.(sequence := if tx.sequence == 255 then 0 else tx.sequence + 1);
      return 0;
    }
  }

  // ---- sacn_parse, step by step into the packet ---------------------------------------------------

  class PacketBuffer {
    var cid: bytes
    var name: bytes
    var priority: byte
    var sequence: byte
    var universe: nat
    var options: byte
    var startCode: byte
    const dmx: array<byte>
    var dmxLength: nat

    constructor ()
      ensures fresh(dmx) && dmx.Length == DMX_UNIVERSE_SIZE
    {
      cid, name, priority, sequence, universe, options, startCode, dmxLength := [], [], 0, 0, 0, 0, 0, 0;
      dmx := new byte[DMX_UNIVERSE_SIZE](_ => 0);
    }

    ghost predicate Holds(p: Packet)
      reads this, dmx
    {
      && dmx.Length == DMX_UNIVERSE_SIZE && dmxLength <= DMX_UNIVERSE_SIZE
      && p == Packet(cid, name, priority, sequence, universe, options, startCode, dmx[..dmxLength])
    }

    // 0 and the parsed packet, or -1 for one to ignore.
    method Parse(buf: array<byte>, len: nat) returns (rc: int)
      requires len <= buf.Length && len < 0x1_0000 && dmx.Length == DMX_UNIVERSE_SIZE && buf != dmx
      modifies this, dmx
      ensures rc == if ParsePacket(buf[..len]).Some? then 0 else -1
      ensures rc == 0 ==> Holds(ParsePacket(buf[..len]).value)
    {
      hide UnpackBe16, UnpackBe;
      var b := buf[..len];
      if len < MIN_PACKET_LEN { return -1; }
      if UnpackBe16(b, 0) != PREAMBLE_SIZE { return -1; }
      if b[4..16] != ACN_IDENTIFIER { return -1; }
      if UnpackBe(b, 18) != VECTOR_ROOT_E131_DATA { return -1; }
      cid := b[22..38];
      name := b[44..108][63 := 0];
      priority, sequence, options := b[108], b[111], b[112];
      universe := UnpackBe16(b, 113);
      if b[117] != VECTOR_DMP_SET_PROPERTY { return -1; }
      var count := UnpackBe16(b, 123);
      if count < 1 { return -1; }
      startCode := b[125];
      var n: nat := count - 1;
      if n > DMX_UNIVERSE_SIZE { n := DMX_UNIVERSE_SIZE; }
      if 126 + n > len { n := len - 126; }
      for i := 0 to n
        modifies dmx
        invariant dmx[..i] == b[126..126 + i] && buf[..len] == b
      {
        dmx[i] := b[126 + i];
        assert dmx[..i + 1] == dmx[..i] + [dmx[i]];
      }
      dmxLength := n;
      return 0;
    }
  }
}
