// The event loop on the daemon's own data: the frame buffers of both directions, the
// stamps of the last writes and sends, the transmitters and the devices.
module Daemon {
  import opened Bytes
  import opened Gateway
  import Config
  import GatewayRuns
  import InputRuns
  import Sacn

  const DMX_MAX_PORTS := 2

  // Everything the network, the clock and the devices do to one iteration: what was
  // received, the clock readings of each port's handler, the one of the output cycle,
  // the one of the input cycle, and for each port the frame read and whether a packet
  // sent now leaves.
  datatype Round = Round(traffic: Traffic, checks: seq<nat>, stamps: seq<nat>, t: nat, tIn: nat, frames: seq<bytes>, taken: seq<bool>) {
    predicate Valid() {
      && |checks| == |stamps| == |frames| == |taken| == DMX_MAX_PORTS && tIn < WORD
      && (forall i :: 0 <= i < DMX_MAX_PORTS ==> |frames[i]| <= UNIVERSE_SIZE && stamps[i] < WORD)
      && |traffic.Slots()| <= UNIVERSE_SIZE
    }

    function TickOf(i: nat): (k: Tick)
      requires Valid() && i < DMX_MAX_PORTS
      ensures TickValid(k)
    {
      Tick(traffic, checks[i], stamps[i], t)
    }

    function ReadingOf(i: nat): (c: Reading)
      requires Valid() && i < DMX_MAX_PORTS
      ensures ReadingValid(c)
    {
      Reading(tIn, frames[i], taken[i])
    }
  }

  // memcpy into the front of a frame buffer.
  method Copy(slots: bytes, data: array<byte>)
    requires |slots| <= data.Length
    modifies data
    ensures data[..] == Overlay(slots, old(data[..]))
  {
    for i := 0 to |slots|
      invariant forall k :: 0 <= k < data.Length ==> data[k] == if k < i then slots[k] else old(data[k])
    {
      data[i] := slots[i];
    }
  }

  // memset to zero.
  method Clear(data: array<byte>)
    modifies data
    ensures data[..] == Zeros(data.Length)
  {
    for i := 0 to data.Length
      invariant forall k :: 0 <= k < i ==> data[k] == 0
    {
      data[i] := 0;
    }
  }

  // A frame going out: the buffer the network fills, the stamp of the last write, and
  // the frames the device has taken.
  class OutputPort {
    const data: array<byte>
    var length: nat
    var priority: byte
    var sequence: byte
    var lastUpdate: nat
    var lastWrite: nat
    var device: seq<bytes>

    ghost predicate Valid()
      reads this
    {
      data.Length == UNIVERSE_SIZE && lastUpdate < WORD && lastWrite < WORD
    }

    ghost function State(): (o: Out)
      requires Valid()
      reads this, data
      ensures o.Valid()
    {
      Out(data[..], length, priority, sequence, lastUpdate, lastWrite, device)
    }

    constructor ()
      ensures Valid() && fresh(data) && State() == Start()
    {
      length, priority, sequence, lastUpdate, lastWrite, device := 0, 0, 0, 0, 0, [];
      data := new byte[UNIVERSE_SIZE](_ => 0);
      new;
      assert data[..] == Zeros(UNIVERSE_SIZE);
    }

    // The body of the port loop in handle_sacn_packet.
    method HandleSacn(port: Config.Port, p: Sacn.Packet, check: nat, stamp: nat, ghost k: Tick)
      requires Valid() && TickValid(k) && k.traffic == FromSacn(p) && k.check == check && k.stamp == stamp
      modifies this, data
      ensures Valid() && State() == Handle(port, old(State()), k)
    {
      if p.startCode != 0 { return; }
      if port.universe != p.universe { return; }
      if port.mode != Config.DMX_MODE_TX { return; }
      if p.priority >= priority || Elapsed(check, lastUpdate) > SACN_TIMEOUT_MS {
        Copy(p.dmx, data);
        length := |p.dmx|;
        priority := p.priority;
        sequence := p.sequence;
        lastUpdate := stamp;
      }
    }

    // The body of the port loop in handle_artnet_packet.
    method HandleArtNet(port: Config.Port, universe: nat, seqNo: byte, dmx: bytes, stamp: nat, ghost k: Tick)
      requires Valid() && TickValid(k) && k.traffic == FromArtNet(universe, seqNo, dmx) && k.stamp == stamp
      modifies this, data
      ensures Valid() && State() == Handle(port, old(State()), k)
    {
      if port.universe != universe { return; }
      if port.mode != Config.DMX_MODE_TX { return; }
      Copy(dmx, data);
      length := |dmx|;
      sequence := seqNo;
      lastUpdate := stamp;
    }

    // The body of the port loop in handle_shownet_packet.
    method HandleShowNet(port: Config.Port, netSlot: nat, dmx: bytes, stamp: nat, ghost k: Tick)
      requires Valid() && TickValid(k) && k.stamp == stamp && k.traffic.FromShowNet?
      requires k.traffic.showNet.netSlot == netSlot && k.traffic.showNet.dmx == dmx
      modifies this, data
      ensures Valid() && State() == Handle(port, old(State()), k)
    {
      var universe := if netSlot == 0 then 0 else (netSlot - 1) / UNIVERSE_SIZE;
      if port.universe != universe { return; }
      if port.mode != Config.DMX_MODE_TX { return; }
      Copy(dmx, data);
      length := |dmx|;
      lastUpdate := stamp;
    }

    // The body of the port loop in dmx_output_cycle.
    method Output(port: Config.Port, hold: nat, t: nat)
      requires Valid()
      modifies this, data
      ensures Valid() && State() == OutputCycle(port, hold, old(State()), t)
    {
      if port.mode != Config.DMX_MODE_TX { return; }
      if lastUpdate > lastWrite {
        var frame := data[..];
        lastWrite := lastUpdate;
        device := device + [frame];
      } else {
        var age := Elapsed(t, lastUpdate);
        var timedOut := lastUpdate > 0 && age > hold * 1000;
        if timedOut {
          Clear(data);
          lastUpdate := 0;
          priority := 0;
          device := device + [Zeros(UNIVERSE_SIZE)];
        }
      }
    }
  }

  // A frame coming in: the last one read, the stamp of the last send, the transmitter.
  class InputPort {
    const data: array<byte>
    var length: nat
    var lastSend: nat
    const transmitter: Sacn.Transmitter

    ghost predicate Valid()
      reads this, transmitter
    {
      data.Length == UNIVERSE_SIZE && length <= UNIVERSE_SIZE && lastSend < WORD && transmitter.tx.Valid()
    }

    ghost function State(): (r: In)
      requires Valid()
      reads this, data, transmitter
      ensures r.Valid()
    {
      In(data[..length], lastSend, transmitter.tx, transmitter.wire)
    }

    constructor (tx: Sacn.Tx)
      requires tx.Valid()
      ensures Valid() && fresh(data) && fresh(transmitter) && State() == In([], 0, tx, [])
    {
      length, lastSend := 0, 0;
      data := new byte[UNIVERSE_SIZE](_ => 0);
      transmitter := new Sacn.Transmitter(tx);
    }

    // The body of the port loop in dmx_input_cycle.
    method Input(t: nat, frame: bytes, taken: bool, ghost c: Reading)
      requires Valid() && ReadingValid(c) && c == Reading(t, frame, taken)
      modifies this, data, transmitter
      ensures Valid() && State() == InputCycle(old(State()), c)
    {
      hide Sacn.PacketBytes;
      var n := |frame|;
      if n == 0 {
        if length > 0 && Elapsed(t, lastSend) > SACN_KEEPALIVE_MS {
          var rc := transmitter.Send(data[..length], taken);
          if rc == 0 { lastSend := t; }
        }
        return;
      }
      if n == length && frame == data[..n] && Elapsed(t, lastSend) < SACN_KEEPALIVE_MS {
        return;
      }
      Copy(frame, data);
      length := n;
      assert data[..length] == frame;
      var rc := transmitter.Send(frame, taken);
      if rc == 0 { lastSend := t; }
    }
  }

  function PortOf(c: Config.Node, i: nat): Config.Port { if i == 0 then c.port0 else c.port1 }

  // The daemon: its configuration and the two ports, each with both directions.
  class Loop {
    const config: Config.Node
    const outs: seq<OutputPort>
    const ins: seq<InputPort>

    // The two ports share no object.
    ghost predicate Apart() {
      && |outs| == |ins| == DMX_MAX_PORTS
      && outs[0] != outs[1] && outs[0].data != outs[1].data
      && ins[0] != ins[1] && ins[0].transmitter != ins[1].transmitter && ins[0].data != ins[1].data
      && outs[0].data != ins[0].data && outs[0].data != ins[1].data && outs[1].data != ins[0].data && outs[1].data != ins[1].data
    }

    ghost function Footprint(): set<object>
      requires Apart()
    {
      {outs[0], outs[1], outs[0].data, outs[1].data,
       ins[0], ins[1], ins[0].data, ins[1].data, ins[0].transmitter, ins[1].transmitter}
    }

    ghost predicate Valid()
      reads outs, ins, if Apart() then {ins[0].transmitter, ins[1].transmitter} else {}
    {
      && Apart()
      && outs[0].Valid() && outs[1].Valid() && ins[0].Valid() && ins[1].Valid()
    }

    constructor (c: Config.Node, t0: Sacn.Tx, t1: Sacn.Tx)
      requires t0.Valid() && t1.Valid()
      ensures Valid() && config == c && fresh(Footprint())
      ensures outs[0].State() == Start() && outs[1].State() == Start()
      ensures ins[0].State() == In([], 0, t0, []) && ins[1].State() == In([], 0, t1, [])
    {
      config := c;
      var o0 := new OutputPort();
      var o1 := new OutputPort();
      var i0 := new InputPort(t0);
      var i1 := new InputPort(t1);
      outs, ins := [o0, o1], [i0, i1];
    }

    // Whatever the active protocol's socket delivered.
    method HandlePacket(k: Round)
      requires Valid() && k.Valid()
      modifies outs[0], outs[1], outs[0].data, outs[1].data
      ensures Valid()
      ensures outs[0].State() == Handle(config.port0, old(outs[0].State()), k.TickOf(0))
      ensures outs[1].State() == Handle(config.port1, old(outs[1].State()), k.TickOf(1))
    {
      hide Handle;
      if k.traffic.Silence? {
        SilenceChangesNothing(config.port0, outs[0].State(), k.TickOf(0));
        SilenceChangesNothing(config.port1, outs[1].State(), k.TickOf(1));
        return;
      }
      for i := 0 to DMX_MAX_PORTS
        invariant Valid()
        invariant outs[0].State() == if i > 0 then Handle(config.port0, old(outs[0].State()), k.TickOf(0)) else old(outs[0].State())
        invariant outs[1].State() == if i > 1 then Handle(config.port1, old(outs[1].State()), k.TickOf(1)) else old(outs[1].State())
      {
        var port := PortOf(config, i);
        match k.traffic
        case FromSacn(p) => outs[i].HandleSacn(port, p, k.checks[i], k.stamps[i], k.TickOf(i));
        case FromArtNet(u, s, d) => outs[i].HandleArtNet(port, u, s, d, k.stamps[i], k.TickOf(i));
        case FromShowNet(p) => outs[i].HandleShowNet(port, p.netSlot, p.dmx, k.stamps[i], k.TickOf(i));
      }
    }

    // dmx_output_cycle
    method WriteOutputs(t: nat)
      requires Valid()
      modifies outs[0], outs[1], outs[0].data, outs[1].data
      ensures Valid()
      ensures outs[0].State() == OutputCycle(config.port0, config.holdTime, old(outs[0].State()), t)
      ensures outs[1].State() == OutputCycle(config.port1, config.holdTime, old(outs[1].State()), t)
    {
      hide OutputCycle;
      for i := 0 to DMX_MAX_PORTS
        invariant Valid()
        invariant outs[0].State() == if i > 0 then OutputCycle(config.port0, config.holdTime, old(outs[0].State()), t) else old(outs[0].State())
        invariant outs[1].State() == if i > 1 then OutputCycle(config.port1, config.holdTime, old(outs[1].State()), t) else old(outs[1].State())
      {
        outs[i].Output(PortOf(config, i), config.holdTime, t);
      }
    }

    // dmx_input_cycle
    method ReadInputs(k: Round)
      requires Valid() && k.Valid()
      modifies ins[0], ins[1], ins[0].data, ins[1].data, ins[0].transmitter, ins[1].transmitter
      ensures Valid()
      ensures ins[0].State() == Listen(config.port0, old(ins[0].State()), k.ReadingOf(0))
      ensures ins[1].State() == Listen(config.port1, old(ins[1].State()), k.ReadingOf(1))
    {
      hide InputCycle;
      for i := 0 to DMX_MAX_PORTS
        invariant Valid()
        invariant ins[0].State() == if i > 0 then Listen(config.port0, old(ins[0].State()), k.ReadingOf(0)) else old(ins[0].State())
        invariant ins[1].State() == if i > 1 then Listen(config.port1, old(ins[1].State()), k.ReadingOf(1)) else old(ins[1].State())
      {
        if PortOf(config, i).mode == Config.DMX_MODE_RX {
          ins[i].Input(k.tIn, k.frames[i], k.taken[i], k.ReadingOf(i));
        }
      }
    }

    // One iteration of the main loop.
    method Iterate(k: Round)
      requires Valid() && k.Valid()
      modifies outs[0], outs[1], outs[0].data, outs[1].data
      modifies ins[0], ins[1], ins[0].data, ins[1].data, ins[0].transmitter, ins[1].transmitter
      ensures Valid()
      ensures outs[0].State() == StepOut(config.port0, config.holdTime, old(outs[0].State()), k.TickOf(0))
      ensures outs[1].State() == StepOut(config.port1, config.holdTime, old(outs[1].State()), k.TickOf(1))
      ensures ins[0].State() == Listen(config.port0, old(ins[0].State()), k.ReadingOf(0))
      ensures ins[1].State() == Listen(config.port1, old(ins[1].State()), k.ReadingOf(1))
    {
      hide Handle, OutputCycle, Listen;
      HandlePacket(k);
      WriteOutputs(k.t);
      ReadInputs(k);
    }
  }

  lemma SilenceChangesNothing(port: Config.Port, o: Out, k: Tick)
    requires o.Valid() && TickValid(k) && k.traffic.Silence?
    ensures Handle(port, o, k) == o
  {
  }

  // Only ports in RX mode have a transmitter.
  function Listen(port: Config.Port, r: In, c: Reading): (s: In)
    requires r.Valid() && ReadingValid(c)
    ensures s.Valid()
  {
    if port.mode == Config.DMX_MODE_RX then InputCycle(r, c) else r
  }

  // ---- Whole runs ---------------------------------------------------------------------------------

  predicate AllValid(rounds: seq<Round>) {
    forall n :: 0 <= n < |rounds| ==> rounds[n].Valid()
  }

  function Ticks(rounds: seq<Round>, i: nat): (ks: seq<Tick>)
    requires AllValid(rounds) && i < DMX_MAX_PORTS
    ensures |ks| == |rounds| && forall n :: 0 <= n < |ks| ==> ks[n] == rounds[n].TickOf(i)
  {
    seq(|rounds|, n requires 0 <= n < |rounds| => rounds[n].TickOf(i))
  }

  function Readings(rounds: seq<Round>, i: nat): (cs: seq<Reading>)
    requires AllValid(rounds) && i < DMX_MAX_PORTS
    ensures |cs| == |rounds| && forall n :: 0 <= n < |cs| ==> cs[n] == rounds[n].ReadingOf(i)
  {
    seq(|rounds|, n requires 0 <= n < |rounds| => rounds[n].ReadingOf(i))
  }

  function RunOf(c: Config.Node, rounds: seq<Round>, i: nat): GatewayRuns.Run
    requires AllValid(rounds) && i < DMX_MAX_PORTS
  {
    GatewayRuns.Run(PortOf(c, i), c.holdTime, Ticks(rounds, i))
  }

  function SessionOf(tx: Sacn.Tx, rounds: seq<Round>, i: nat): InputRuns.Session
    requires AllValid(rounds) && i < DMX_MAX_PORTS
  {
    InputRuns.Session(tx, Readings(rounds, i))
  }

  lemma RunStep(c: Config.Node, rounds: seq<Round>, i: nat, n: nat)
    requires AllValid(rounds) && i < DMX_MAX_PORTS && n < |rounds| && GatewayRuns.Valid(RunOf(c, rounds, i))
    ensures GatewayRuns.After(RunOf(c, rounds, i), n + 1)
            == StepOut(PortOf(c, i), c.holdTime, GatewayRuns.After(RunOf(c, rounds, i), n), rounds[n].TickOf(i))
  {
    hide StepOut;
  }

  lemma SessionStep(tx: Sacn.Tx, rounds: seq<Round>, i: nat, n: nat)
    requires AllValid(rounds) && i < DMX_MAX_PORTS && n < |rounds| && InputRuns.Running(SessionOf(tx, rounds, i))
    ensures InputRuns.State(SessionOf(tx, rounds, i), n + 1) == InputCycle(InputRuns.State(SessionOf(tx, rounds, i), n), rounds[n].ReadingOf(i))
  {
    hide InputCycle;
  }

  // The environment of one run of the daemon: its configuration, the identities of its
  // transmitters, and all that happens, under a clock that behaves.
  datatype World = World(config: Config.Node, t0: Sacn.Tx, t1: Sacn.Tx, rounds: seq<Round>) {
    ghost predicate Valid() {
      && t0.Valid() && t1.Valid() && AllValid(rounds)
      && GatewayRuns.Valid(RunOf(config, rounds, 0)) && GatewayRuns.Valid(RunOf(config, rounds, 1))
      && InputRuns.Running(SessionOf(t0, rounds, 0)) && InputRuns.Running(SessionOf(t1, rounds, 1))
    }

    // What the theorems about whole runs say a port's state is after n iterations.
    ghost function OutAfter(i: nat, n: nat): Out
      requires Valid() && i < DMX_MAX_PORTS && n <= |rounds|
    {
      GatewayRuns.After(RunOf(config, rounds, i), n)
    }

    ghost function InAfter(i: nat, n: nat): In
      requires Valid() && i < DMX_MAX_PORTS && n <= |rounds|
    {
      InputRuns.State(SessionOf(if i == 0 then t0 else t1, rounds, i), n)
    }
  }

  ghost predicate Reached(g: Loop, w: World, n: nat)
    requires w.Valid() && n <= |w.rounds| && g.Valid()
    reads g.outs, g.ins
    reads if g.Apart() then {g.ins[0].transmitter, g.ins[1].transmitter} else {}
    reads if g.Apart() then {g.outs[0].data, g.outs[1].data, g.ins[0].data, g.ins[1].data} else {}
  {
    && g.config == w.config
    && g.outs[0].State() == w.OutAfter(0, n) && g.outs[1].State() == w.OutAfter(1, n)
    && g.ins[0].State() == (if w.config.port0.mode == 2 then w.InAfter(0, n) else In([], 0, w.t0, []))
    && g.ins[1].State() == (if w.config.port1.mode == 2 then w.InAfter(1, n) else In([], 0, w.t1, []))
  }

  method Turn(g: Loop, w: World, n: nat)
    requires w.Valid() && n < |w.rounds| && g.Valid() && Reached(g, w, n)
    modifies g.Footprint()
    ensures g.Valid() && Reached(g, w, n + 1)
  {
    hide StepOut, InputCycle, GatewayRuns.After, InputRuns.State, RunOf, SessionOf;
    RunStep(w.config, w.rounds, 0, n);
    RunStep(w.config, w.rounds, 1, n);
    SessionStep(w.t0, w.rounds, 0, n);
    SessionStep(w.t1, w.rounds, 1, n);
    g.Iterate(w.rounds[n]);
  }

  // The loop from power-up: after any number of iterations both ports are in the states
  // whose histories the theorems about whole runs describe.
  method RunLoop(w: World) returns (g: Loop)
    requires w.Valid()
    ensures g.Valid() && Reached(g, w, |w.rounds|)
  {
    g := new Loop(w.config, w.t0, w.t1);
    for n := 0 to |w.rounds|
      invariant g.Valid() && fresh(g.Footprint()) && Reached(g, w, n)
    {
      hide Reached;
      Turn(g, w, n);
    }
  }
}
