// ShowNet datagrams: the run-length decoder and the length rules around it.
module ShowNet {
  import opened Prelude
  import opened Bytes

  const MARK: byte := 0x80
  const UNIVERSE_SIZE := 512
  const MIN_PACKET := 16
  const DATA_OFFSET := 15

  datatype Packet = Packet(netSlot: nat, dmx: bytes)

  // ---- shownet_decode_rle ------------------------------------------------------------------

  // The bytes decoded from position i on, into room for that many.  A marker without
  // two bytes behind it stands for itself.
  function Decode(enc: bytes, i: nat, room: nat): (out: bytes)
    requires i <= |enc|
    ensures |out| <= room
    decreases |enc| - i
  {
    if i == |enc| || room == 0 then []
    else if enc[i] == MARK && i + 2 < |enc| then
      var n := Min(enc[i + 1], room);
      Fill(n, enc[i + 2]) + Decode(enc, i + 3, room - n)
    else
      [enc[i]] + Decode(enc, i + 1, room - 1)
  }

  // ---- What a stream means -----------------------------------------------------------------

  datatype Token = Literal(value: byte) | Run(count: byte, value: byte)

  ghost predicate WellFormed(ts: seq<Token>) {
    forall k :: 0 <= k < |ts| ==> ts[k].Literal? ==> ts[k].value != 0x80
  }

  function TokenBytes(t: Token): bytes {
    match t
    case Literal(v) => [v]
    case Run(n, v) => [0x80, n, v]
  }

  function TokenSlots(t: Token): bytes {
    match t
    case Literal(v) => [v]
    case Run(n, v) => Fill(n, v)
  }

  function Encode(ts: seq<Token>): bytes {
    if |ts| == 0 then [] else TokenBytes(ts[0]) + Encode(ts[1..])
  }

  function Expand(ts: seq<Token>): bytes {
    if |ts| == 0 then [] else TokenSlots(ts[0]) + Expand(ts[1..])
  }

  function Cut(s: bytes, room: nat): bytes {
    s[..Min(|s|, room)]
  }

  // What precedes the position does not matter.
  lemma {:induction false} Shifted(pre: bytes, enc: bytes, i: nat, room: nat)
    requires i <= |enc|
    ensures Decode(pre + enc, |pre| + i, room) == Decode(enc, i, room)
    decreases |enc| - i
  {
    hide Fill;
    if i < |enc| && room > 0 {
      assert (pre + enc)[|pre| + i] == enc[i];
      if enc[i] == MARK && i + 2 < |enc| {
        assert (pre + enc)[|pre| + i + 1] == enc[i + 1] && (pre + enc)[|pre| + i + 2] == enc[i + 2];
        Shifted(pre, enc, i + 3, room - Min(enc[i + 1], room));
      } else {
        Shifted(pre, enc, i + 1, room - 1);
      }
    }
  }

  lemma CutOfJoin(a: bytes, b: bytes, room: nat)
    ensures room >= |a| ==> Cut(a + b, room) == a + Cut(b, room - |a|)
    ensures room <= |a| ==> Cut(a + b, room) == a[..room]
  {
  }

  lemma CutTrivial(s: bytes, room: nat)
    ensures room == 0 ==> Cut(s, room) == []
    ensures |s| <= room ==> Cut(s, room) == s
  {
  }

  // A smaller output limit only cuts the result.
  lemma {:induction false} SmallerLimit(enc: bytes, i: nat, room: nat, more: nat)
    requires i <= |enc| && room <= more
    ensures Decode(enc, i, room) == Cut(Decode(enc, i, more), room)
    decreases |enc| - i
  {
    hide Fill, Cut;
    if i == |enc| || room == 0 {
      CutTrivial(Decode(enc, i, more), room);
    } else if enc[i] == MARK && i + 2 < |enc| {
      var n, m := Min(enc[i + 1], room), Min(enc[i + 1], more);
      CutOfJoin(Fill(m, enc[i + 2]), Decode(enc, i + 3, more - m), room);
      if n == m {
        SmallerLimit(enc, i + 3, room - n, more - n);
      } else {
        assert n == room && Decode(enc, i + 3, 0) == [];
        assert Fill(room, enc[i + 2]) + [] == Fill(room, enc[i + 2]);
        FillCut(m, room, enc[i + 2]);
      }
    } else {
      CutOfJoin([enc[i]], Decode(enc, i + 1, more - 1), room);
      SmallerLimit(enc, i + 1, room - 1, more - 1);
    }
  }

  lemma FillCut(m: nat, n: nat, v: byte)
    requires n <= m
    ensures Fill(m, v)[..n] == Fill(n, v)
  {
  }

  lemma DecodeLiteral(v: byte, rest: bytes, room: nat)
    requires v != MARK && room > 0
    ensures Decode([v] + rest, 0, room) == [v] + Decode(rest, 0, room - 1)
  {
    hide Fill, Cut;
    Shifted([v], rest, 0, room - 1);
    assert ([v] + rest)[0] == v;
  }

  lemma DecodeRun(c: byte, v: byte, rest: bytes, room: nat)
    requires room > 0
    ensures Decode([MARK, c, v] + rest, 0, room) == Fill(Min(c, room), v) + Decode(rest, 0, room - Min(c, room))
  {
    hide Fill, Cut;
    var enc := [MARK, c, v] + rest;
    Shifted([MARK, c, v], rest, 0, room - Min(c, room));
    assert enc[0] == MARK && enc[1] == c && enc[2] == v;
  }

  lemma DecodeToken(t: Token, rest: bytes, room: nat)
    requires t.Literal? ==> t.value != MARK
    ensures Decode(TokenBytes(t) + rest, 0, room) == Cut(TokenSlots(t) + Decode(rest, 0, room), room)
  {
    hide Fill, Cut, Decode;
    var all, slots := Decode(rest, 0, room), TokenSlots(t);
    CutOfJoin(slots, all, room);
    if room == 0 {
      CutTrivial(slots + all, 0);
    } else {
      var k := Min(|slots|, room);
      SmallerLimit(rest, 0, room - k, room);
      match t
      case Literal(v) => DecodeLiteral(v, rest, room);
      case Run(c, v) =>
        DecodeRun(c, v, rest, room);
        if room <= |slots| {
          FillCut(|slots|, room, v);
          CutTrivial(all, 0);
          assert Fill(k, v) + [] == Fill(k, v);
        }
    }
  }

  lemma CutInside(a: bytes, b: bytes, room: nat)
    ensures Cut(a + Cut(b, room), room) == Cut(a + b, room)
  {
    CutOfJoin(a, b, room);
    CutOfJoin(a, Cut(b, room), room);
  }

  // Decoding distributes over concatenation: a whole stream in front contributes
  // exactly the slots it encodes, whatever follows it.
  lemma {:induction false} Distributes(ts: seq<Token>, rest: bytes, room: nat)
    requires WellFormed(ts)
    ensures Decode(Encode(ts) + rest, 0, room) == Cut(Expand(ts) + Decode(rest, 0, room), room)
  {
    hide Fill, Cut, Decode, TokenBytes, TokenSlots;
    var all := Decode(rest, 0, room);
    if |ts| == 0 {
      assert Encode(ts) + rest == rest && Expand(ts) + all == all;
      CutTrivial(all, room);
    } else {
      var behind, slots := Encode(ts[1..]) + rest, Expand(ts[1..]) + all;
      assert Encode(ts) + rest == TokenBytes(ts[0]) + behind;
      DecodeToken(ts[0], behind, room);
      Distributes(ts[1..], rest, room);
      assert Expand(ts) + all == TokenSlots(ts[0]) + slots;
      CutInside(TokenSlots(ts[0]), slots, room);
    }
  }

  // Decoding a stream of literals and runs yields the encoded frame, cut to the limit.
  lemma DecodeEncoded(ts: seq<Token>, room: nat)
    requires WellFormed(ts)
    ensures Decode(Encode(ts), 0, room) == Cut(Expand(ts), room)
  {
    Distributes(ts, [], room);
    assert Encode(ts) + [] == Encode(ts) && Expand(ts) + [] == Expand(ts);
  }

  // Every marker has its count and value behind it.
  predicate Whole(enc: bytes) {
    if |enc| == 0 then true
    else if enc[0] == MARK then |enc| >= 3 && Whole(enc[3..])
    else Whole(enc[1..])
  }

  function Tokens(enc: bytes): (ts: seq<Token>)
    requires Whole(enc)
    ensures WellFormed(ts) && Encode(ts) == enc
  {
    if |enc| == 0 then []
    else if enc[0] == MARK then
      var ts := [Run(enc[1], enc[2])] + Tokens(enc[3..]);
      assert ts[1..] == Tokens(enc[3..]);
      ts
    else
      var ts := [Literal(enc[0])] + Tokens(enc[1..]);
      assert ts[1..] == Tokens(enc[1..]);
      ts
  }

  // The whole streams are exactly the encodings of token lists.
  lemma {:induction false} WholeIsEncoded(ts: seq<Token>)
    requires WellFormed(ts)
    ensures Whole(Encode(ts)) && Tokens(Encode(ts)) == ts
  {
    if |ts| > 0 {
      WholeIsEncoded(ts[1..]);
      var enc := Encode(ts);
      assert enc[|TokenBytes(ts[0])|..] == Encode(ts[1..]);
      assert enc[0] == TokenBytes(ts[0])[0];
      if ts[0].Run? {
        assert enc[1] == ts[0].count && enc[2] == ts[0].value;
      }
    }
  }

  // A stream that breaks off inside a run: its last bytes stand for themselves.
  lemma BrokenOff(ts: seq<Token>, tail: bytes, room: nat)
    requires WellFormed(ts) && (tail == [0x80] || (|tail| == 2 && tail[0] == 0x80))
    ensures Decode(Encode(ts) + tail, 0, room) == Cut(Expand(ts) + tail, room)
  {
    hide Encode, Expand, WellFormed;
    Distributes(ts, tail, room);
    TailDecoded(tail, room);
    CutInside(Expand(ts), tail, room);
  }

  lemma TailDecoded(tail: bytes, room: nat)
    requires tail == [0x80] || (|tail| == 2 && tail[0] == 0x80)
    ensures Decode(tail, 0, room) == Cut(tail, room)
  {
    assert Decode(tail, |tail|, if room > |tail| then room - |tail| else 0) == [];
    if |tail| == 2 && room > 0 {
      assert Decode(tail, 1, room - 1) == if room == 1 then [] else [tail[1]];
    }
  }

  // Every stream is an encoding with at most such a tail behind it.
  lemma {:induction false} EveryStream(enc: bytes) returns (ts: seq<Token>, tail: bytes)
    ensures WellFormed(ts) && enc == Encode(ts) + tail
    ensures tail == [] || tail == [0x80] || (|tail| == 2 && tail[0] == 0x80)
  {
    if |enc| == 0 || (enc[0] == 0x80 && |enc| < 3) {
      ts, tail := [], enc;
      assert |enc| == 1 ==> enc == [enc[0]];
    } else {
      var t := if enc[0] == 0x80 then Run(enc[1], enc[2]) else Literal(enc[0]);
      var rest;
      rest, tail := EveryStream(enc[|TokenBytes(t)|..]);
      ts := [t] + rest;
      assert ts[1..] == rest;
      assert enc == TokenBytes(t) + enc[|TokenBytes(t)|..];
    }
  }

  // ---- The receiver ---------------------------------------------------------------------------

  function UnpackLe16(b: bytes, i: nat): (v: nat)
    requires i + 2 <= |b|
    ensures v < 0x1_0000
  {
    b[i] as int + 256 * b[i + 1] as int
  }

  function ParsePacket(b: bytes): Option<Packet> {
    if |b| < MIN_PACKET then None
    else if b[14] % 2 == 1 then Some(Packet(UnpackLe16(b, 6), Decode(b[DATA_OFFSET..], 0, UNIVERSE_SIZE)))
    else Some(Packet(UnpackLe16(b, 6), Cut(Cut(b[DATA_OFFSET..], UNIVERSE_SIZE), UnpackLe16(b, 8))))
  }

  // The layout of a datagram: six bytes of origin, the first slot and the number of slots,
  // low byte first, four bytes of block numbers, the flags, and the data.
  function Datagram(origin: bytes, slot: nat, count: nat, blocks: bytes, flags: byte, data: bytes): (b: bytes)
    requires |origin| == 6 && slot < 0x1_0000 && count < 0x1_0000 && |blocks| == 4
  {
    origin + [slot % 256, slot / 256] + [count % 256, count / 256] + blocks + [flags] + data
  }

  lemma DatagramParts(origin: bytes, slot: nat, count: nat, blocks: bytes, flags: byte, data: bytes)
    requires |origin| == 6 && slot < 0x1_0000 && count < 0x1_0000 && |blocks| == 4
    ensures var b := Datagram(origin, slot, count, blocks, flags, data);
            |b| == 15 + |data| && b[6] == slot % 256 && b[7] == slot / 256 && b[8] == count % 256 && b[9] == count / 256 && b[14] == flags && b[15..] == data
  {
  }

  // The data are run-length encoded when the lowest flag is set; otherwise they are slots,
  // as many as are announced, there, and in a universe.  Without data there is no packet.
  lemma ParseDatagram(origin: bytes, slot: nat, count: nat, blocks: bytes, flags: byte, data: bytes)
    requires |origin| == 6 && slot < 0x1_0000 && count < 0x1_0000 && |blocks| == 4
    ensures ParsePacket(Datagram(origin, slot, count, blocks, flags, data))
         == if data == [] then None
            else Some(Packet(slot, if flags % 2 == 1 then Decode(data, 0, 512) else data[..Min(|data|, Min(512, count))]))
  {
    hide Datagram, Decode, ParsePacket;
    var b := Datagram(origin, slot, count, blocks, flags, data);
    DatagramParts(origin, slot, count, blocks, flags, data);
    ParseAt(b, slot, count, flags, data);
  }

  lemma CutTwice(data: bytes, n: nat)
    ensures Cut(Cut(data, 512), n) == data[..Min(|data|, Min(512, n))]
  {
  }

  lemma ParseAt(b: bytes, slot: nat, count: nat, flags: byte, data: bytes)
    requires |b| == 15 + |data| && b[6] == slot % 256 && b[7] as int == slot / 256 && b[8] == count % 256 && b[9] as int == count / 256
    requires b[14] == flags && b[15..] == data
    ensures ParsePacket(b) == if data == [] then None
                              else Some(Packet(slot, if flags % 2 == 1 then Decode(data, 0, 512) else data[..Min(|data|, Min(512, count))]))
  {
    hide Decode, Cut, Min;
    CutTwice(data, UnpackLe16(b, 8));
    assert UnpackLe16(b, 8) == count && UnpackLe16(b, 6) == slot;
  }

  lemma EncodedNonEmpty(ts: seq<Token>)
    requires |Expand(ts)| > 0
    ensures |Encode(ts)| > 0
  {
  }

  // A compressed datagram carries the same packet as the plain datagram of its frame,
  // whatever its own slot count says.
  lemma CompressionIsTransparent(packed: bytes, plain: bytes, ts: seq<Token>)
    requires |packed| == 15 && |plain| == 15 && packed[6..8] == plain[6..8]
    requires packed[14] % 2 == 1 && plain[14] % 2 == 0
    requires WellFormed(ts) && 0 < |Expand(ts)| <= UNIVERSE_SIZE && UnpackLe16(plain, 8) == |Expand(ts)|
    ensures ParsePacket(packed + Encode(ts)) == ParsePacket(plain + Expand(ts)) == Some(Packet(UnpackLe16(packed, 6), Expand(ts)))
  {
    hide Encode, Decode, Expand;
    var a, b := packed + Encode(ts), plain + Expand(ts);
    DecodeEncoded(ts, UNIVERSE_SIZE);
    EncodedNonEmpty(ts);
    CutTrivial(Expand(ts), UNIVERSE_SIZE);
    assert a[DATA_OFFSET..] == Encode(ts) && b[DATA_OFFSET..] == Expand(ts);
    assert a[14] == packed[14] && b[14] == plain[14] && b[8] == plain[8] && b[9] == plain[9];
    assert a[6] == packed[6] && a[7] == packed[7] && b[6] == plain[6] && b[7] == plain[7];
    assert packed[6..8][0] == packed[6] && packed[6..8][1] == packed[7] && plain[6..8][0] == plain[6] && plain[6..8][1] == plain[7];
  }

  // A received frame never exceeds one universe.
  lemma ParsedLength(b: bytes)
    ensures match ParsePacket(b)
      case None => |b| < MIN_PACKET
      case Some(p) => |p.dmx| <= UNIVERSE_SIZE && p.netSlot < 0x1_0000
                      && (b[14] % 2 == 0 ==> |p.dmx| == Min(|b| - 15, Min(UNIVERSE_SIZE, UnpackLe16(b, 8))) && p.dmx <= b[15..])
  {
  }

  // ---- The loops ---------------------------------------------------------------------------------

  lemma RunStep(enc: bytes, i: nat, room: nat, done: bytes)
    requires i + 2 < |enc| && enc[i] == MARK && room > 0
    ensures var n := Min(enc[i + 1], room);
            done + Decode(enc, i, room) == done + Fill(n, enc[i + 2]) + Decode(enc, i + 3, room - n)
  {
    Regroup(done, Fill(Min(enc[i + 1], room), enc[i + 2]), Decode(enc, i + 3, room - Min(enc[i + 1], room)));
  }

  lemma ByteStep(enc: bytes, i: nat, room: nat, done: bytes)
    requires i < |enc| && room > 0 && !(enc[i] == MARK && i + 2 < |enc|)
    ensures done + Decode(enc, i, room) == done + [enc[i]] + Decode(enc, i + 1, room - 1)
  {
    Regroup(done, [enc[i]], Decode(enc, i + 1, room - 1));
  }

  lemma FillStep(done: bytes, n: nat, v: byte)
    ensures done + Fill(n, v) + [v] == done + Fill(n + 1, v)
    ensures done + Fill(0, v) == done
  {
  }

  ghost predicate Holds(decoded: array<byte>, s: bytes)
    reads decoded
  {
    |s| <= decoded.Length && decoded[..|s|] == s
  }

  // decoded[out_pos++] = v
  method Put(decoded: array<byte>, pos: nat, v: byte, ghost s: bytes) returns (next: nat)
    requires pos == |s| < decoded.Length && Holds(decoded, s)
    modifies decoded
    ensures next == pos + 1 && Holds(decoded, s + [v])
    ensures forall k :: next <= k < decoded.Length ==> decoded[k] == old(decoded[k])
  {
    decoded[pos] := v;
    next := pos + 1;
    assert decoded[..next] == decoded[..pos] + [v];
  }

  // The inner loop: a run, as far as there is room.
  method PutRun(decoded: array<byte>, start: nat, run: nat, value: byte, max: nat, ghost done: bytes) returns (len: nat)
    requires start == |done| <= max <= decoded.Length && Holds(decoded, done)
    modifies decoded
    ensures len == start + Min(run, max - start) && Holds(decoded, done + Fill(Min(run, max - start), value))
    ensures forall k :: len <= k < decoded.Length ==> decoded[k] == old(decoded[k])
  {
    hide Fill, Holds;
    len := start;
    var count := run;
    FillStep(done, 0, value);
    while count > 0 && len < max
      invariant start <= len <= max && len - start + count == run && count >= 0
      invariant Holds(decoded, done + Fill(len - start, value))
      invariant forall k :: len <= k < decoded.Length ==> decoded[k] == old(decoded[k])
    {
      FillStep(done, len - start, value);
      len := Put(decoded, len, value, done + Fill(len - start, value));
      count := count - 1;
    }
  }

  lemma DecodeEnd(enc: bytes, i: nat, room: nat, done: bytes)
    requires i <= |enc| && (i == |enc| || room == 0)
    ensures done + Decode(enc, i, room) == done
  {
  }

  method DecodeRle(encoded: bytes, decoded: array<byte>, max: nat) returns (len: nat)
    requires max <= decoded.Length
    modifies decoded
    ensures len <= max && decoded[..len] == Decode(encoded, 0, max)
    ensures forall k :: len <= k < decoded.Length ==> decoded[k] == old(decoded[k])
  {
    hide Fill, Decode, Min;
    var inPos: nat := 0;
    len := 0;
    ghost var done: bytes := [];
    assert done + Decode(encoded, 0, max) == Decode(encoded, 0, max);
    while inPos < |encoded| && len < max
      invariant inPos <= |encoded| && len <= max && len == |done| && Holds(decoded, done)
      invariant Decode(encoded, 0, max) == done + Decode(encoded, inPos, max - len)
      invariant forall k :: len <= k < decoded.Length ==> decoded[k] == old(decoded[k])
      decreases |encoded| - inPos
    {
      hide Holds;
      var b := encoded[inPos];
      inPos := inPos + 1;
      if b == MARK && inPos + 1 < |encoded| {
        var count, value := encoded[inPos], encoded[inPos + 1];
        inPos := inPos + 2;
        RunStep(encoded, inPos - 3, max - len, done);
        var next := PutRun(decoded, len, count, value, max, done);
        done := done + Fill(Min(count, max - len), value);
        len := next;
      } else {
        ByteStep(encoded, inPos - 1, max - len, done);
        len := Put(decoded, len, b, done);
        done := done + [b];
      }
    }
    DecodeEnd(encoded, inPos, max - len, done);
  }

  lemma Regroup(a: bytes, b: bytes, c: bytes)
    ensures a + b + c == a + (b + c)
  {
  }

  class PacketBuffer {
    var netSlot: nat
    const dmx: array<byte>
    var dmxLength: nat

    constructor ()
      ensures fresh(dmx) && dmx.Length == UNIVERSE_SIZE
    {
      netSlot, dmxLength := 0, 0;
      dmx := new byte[UNIVERSE_SIZE](_ => 0);
    }

    ghost predicate Holds(p: Packet)
      reads this, dmx
    {
      dmxLength <= dmx.Length && p == Packet(netSlot, dmx[..dmxLength])
    }

    // What recv returned is in buf; 0 and the packet, or -1 for a datagram too short.
    method Receive(buf: bytes) returns (rc: int)
      requires dmx.Length == UNIVERSE_SIZE && |buf| <= 1500
      modifies this, dmx
      ensures rc == if ParsePacket(buf).Some? then 0 else -1
      ensures rc == 0 ==> Holds(ParsePacket(buf).value)
      ensures rc == -1 ==> netSlot == old(netSlot) && dmxLength == old(dmxLength) && dmx[..] == old(dmx[..])
    {
      hide Decode;
      if |buf| < MIN_PACKET { return -1; }
      var slotCount := UnpackLe16(buf, 8);
      netSlot := UnpackLe16(buf, 6);
      if buf[14] % 2 == 1 {
        dmxLength := DecodeRle(buf[DATA_OFFSET..], dmx, UNIVERSE_SIZE);
      } else {
        var length: nat := |buf| - DATA_OFFSET;
        if length > UNIVERSE_SIZE { length := UNIVERSE_SIZE; }
        if length > slotCount { length := slotCount; }
        for i := 0 to length
          modifies dmx
          invariant dmx[..i] == buf[DATA_OFFSET..DATA_OFFSET + i]
        {
          dmx[i] := buf[DATA_OFFSET + i];
          assert dmx[..i + 1] == dmx[..i] + [dmx[i]];
        }
        dmxLength := length;
      }
      return 0;
    }
  }
}
