// One iteration of the gateway's event loop, seen from one DMX port: at most one
// packet is handled, the clock advances, the output cycle runs, the input cycle runs.
module Gateway {
  import opened Bytes
  import Config
  import Sacn
  import ShowNet

  const UNIVERSE_SIZE := 512
  const SACN_TIMEOUT_MS := 2500
  const SACN_KEEPALIVE_MS := 900

  // The difference of two 32-bit clock readings.
  function Elapsed(now: nat, earlier: nat): nat
    requires earlier < WORD
  {
    if now >= earlier then now - earlier else now + WORD - earlier
  }

  // A clock that wraps at 2^32 still tells how long ago an earlier reading was, up to 2^32 ms.
  lemma ElapsedWraps(now: nat, earlier: nat)
    requires earlier <= now < earlier + 0x1_0000_0000
    ensures Elapsed(now % 0x1_0000_0000, earlier % 0x1_0000_0000) == now - earlier
  {
    var q := earlier / 0x1_0000_0000;
    assert earlier == 0x1_0000_0000 * q + earlier % 0x1_0000_0000;
    if now < 0x1_0000_0000 * (q + 1) {
      assert now / 0x1_0000_0000 == q;
    } else {
      assert now / 0x1_0000_0000 == q + 1;
    }
    assert now == 0x1_0000_0000 * (now / 0x1_0000_0000) + now % 0x1_0000_0000;
  }

  // ---- Network to DMX ---------------------------------------------------------------------

  // What the socket of the active protocol delivered in one iteration.
  datatype Traffic =
    | Silence
    | FromSacn(sacn: Sacn.Packet)
    | FromArtNet(universe: nat, sequence: byte, dmx: bytes)
    | FromShowNet(showNet: ShowNet.Packet)
  {
    function Slots(): bytes {
      match this
      case Silence => []
      case FromSacn(p) => p.dmx
      case FromArtNet(_, _, d) => d
      case FromShowNet(p) => p.dmx
    }

    // ShowNet numbers its slots from 1 over all universes; C divides towards zero.
    function Universe(): nat {
      match this
      case Silence => 0
      case FromSacn(p) => p.universe
      case FromArtNet(u, _, _) => u
      case FromShowNet(p) => if p.netSlot == 0 then 0 else (p.netSlot - 1) / UNIVERSE_SIZE
    }
  }

  // The clock readings of one iteration: when a packet is weighed, when its frame is
  // stamped, and, after the pause, when the output cycle starts.
  datatype Tick = Tick(traffic: Traffic, check: nat, stamp: nat, t: nat)

  // A port's frame buffer, the stamp it last wrote, and every frame its device took.
  datatype Out = Out(data: bytes, length: nat, priority: byte, sequence: byte, lastUpdate: nat, lastWrite: nat, device: seq<bytes>) {
    predicate Valid() { |data| == UNIVERSE_SIZE && lastUpdate < WORD && lastWrite < WORD }
  }

  function Start(): (o: Out)
    ensures o.Valid()
  {
    Out(Zeros(UNIVERSE_SIZE), 0, 0, 0, 0, 0, [])
  }

  predicate TickValid(k: Tick) {
    |k.traffic.Slots()| <= UNIVERSE_SIZE && k.stamp < WORD
  }

  predicate Addressed(port: Config.Port, w: Traffic) {
    && !w.Silence? && (w.FromSacn? ==> w.sacn.startCode == 0)
    && port.universe == w.Universe() && port.mode == Config.DMX_MODE_TX
  }

  // Which ports a packet concerns: ports that transmit, on the packet's universe; for
  // ShowNet, whose slots are numbered from 1 over all universes, the universe with the
  // packet's first slot, and universe 0 for slot 0.  Only start code 0 is DMX.
  lemma AddressedExactly(port: Config.Port, w: Traffic)
    ensures w.Silence? ==> !Addressed(port, w)
    ensures w.FromSacn? ==> (Addressed(port, w) <==> port.mode == 1 && port.universe == w.sacn.universe && w.sacn.startCode == 0)
    ensures w.FromArtNet? ==> (Addressed(port, w) <==> port.mode == 1 && port.universe == w.universe)
    ensures w.FromShowNet? && w.showNet.netSlot > 0 ==>
              (Addressed(port, w) <==> port.mode == 1 && 512 * port.universe < w.showNet.netSlot <= 512 * (port.universe + 1))
    ensures w.FromShowNet? && w.showNet.netSlot == 0 ==> (Addressed(port, w) <==> port.mode == 1 && port.universe == 0)
  {
    if w.FromShowNet? && w.showNet.netSlot > 0 {
      var n := w.showNet.netSlot - 1;
      assert n == 512 * (n / 512) + n % 512;
    }
  }

  // sACN is merged by priority; the other protocols have none.
  predicate Accepts(port: Config.Port, o: Out, k: Tick)
    requires o.Valid()
  {
    && Addressed(port, k.traffic)
    && (k.traffic.FromSacn? ==> k.traffic.sacn.priority >= o.priority || Elapsed(k.check, o.lastUpdate) > SACN_TIMEOUT_MS)
  }

  // A short frame leaves the channels behind it alone.
  function Overlay(slots: bytes, data: bytes): (r: bytes)
    requires |slots| <= |data|
    ensures |r| == |data| && forall k :: 0 <= k < |data| ==> r[k] == if k < |slots| then slots[k] else data[k]
  {
    slots + data[|slots|..]
  }

  // The buffer, length, stamp and origin of an accepted packet.
  function Take(o: Out, k: Tick): (r: Out)
    requires o.Valid() && TickValid(k)
    ensures r.Valid()
  {
    o.(data := Overlay(k.traffic.Slots(), o.data), length := |k.traffic.Slots()|, lastUpdate := k.stamp,
       priority := if k.traffic.FromSacn? then k.traffic.sacn.priority else o.priority,
       sequence := match k.traffic
         case FromSacn(p) => p.sequence
         case FromArtNet(_, s, _) => s
         case _ => o.sequence)
  }

  function Handle(port: Config.Port, o: Out, k: Tick): (r: Out)
    requires o.Valid() && TickValid(k)
    ensures r.Valid()
  {
    if Accepts(port, o, k) then Take(o, k) else o
  }

  predicate Fresh(o: Out) { o.lastUpdate > o.lastWrite }

  predicate TimedOut(o: Out, hold: nat, t: nat)
    requires o.Valid()
  {
    !Fresh(o) && o.lastUpdate > 0 && Elapsed(t, o.lastUpdate) > hold * 1000
  }

  function Blackout(o: Out): (r: Out)
    requires o.Valid()
    ensures r.Valid()
  {
    o.(data := Zeros(UNIVERSE_SIZE), lastUpdate := 0, priority := 0, device := o.device + [Zeros(UNIVERSE_SIZE)])
  }

  function Write(o: Out): (r: Out)
    requires o.Valid()
    ensures r.Valid()
  {
    o.(lastWrite := o.lastUpdate, device := o.device + [o.data])
  }

  function OutputCycle(port: Config.Port, hold: nat, o: Out, t: nat): (r: Out)
    requires o.Valid()
    ensures r.Valid()
  {
    if port.mode != Config.DMX_MODE_TX then o
    else if Fresh(o) then Write(o)
    else if TimedOut(o, hold, t) then Blackout(o)
    else o
  }

  function StepOut(port: Config.Port, hold: nat, o: Out, k: Tick): (r: Out)
    requires o.Valid() && TickValid(k)
    ensures r.Valid()
  {
    OutputCycle(port, hold, Handle(port, o, k), k.t)
  }

  // ---- DMX to network ---------------------------------------------------------------------

  // The last frame read, when the last packet left, the transmitter, and every packet sent.
  datatype In = In(frame: bytes, lastSend: nat, tx: Sacn.Tx, wire: seq<bytes>) {
    predicate Valid() { |frame| <= UNIVERSE_SIZE && lastSend < WORD && tx.Valid() }
  }

  // One input cycle: its clock reading, the frame the device had ([] for none), and
  // whether a packet sent now would leave.
  datatype Reading = Reading(t: nat, frame: bytes, taken: bool)

  predicate ReadingValid(c: Reading) { |c.frame| <= UNIVERSE_SIZE && c.t < WORD }

  predicate Due(r: In, c: Reading)
    requires r.Valid()
  {
    if c.frame == [] then r.frame != [] && Elapsed(c.t, r.lastSend) > SACN_KEEPALIVE_MS
    else !(c.frame == r.frame && Elapsed(c.t, r.lastSend) < SACN_KEEPALIVE_MS)
  }

  function Emit(r: In, c: Reading): (s: In)
    requires r.Valid() && ReadingValid(c)
    ensures s.Valid()
  {
    if !c.taken then r
    else r.(lastSend := c.t, tx := Sacn.Next(r.tx), wire := r.wire + [Sacn.PacketBytes(r.tx, r.frame)])
  }

  function InputCycle(r: In, c: Reading): (s: In)
    requires r.Valid() && ReadingValid(c)
    ensures s.Valid()
  {
    if !Due(r, c) then r
    else if c.frame == [] then Emit(r, c)
    else Emit(r.(frame := c.frame), c)
  }
}
