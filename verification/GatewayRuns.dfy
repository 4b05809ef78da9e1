// Whole runs of the event loop, from power-up on.  What a port does is characterised
// by the history of its traffic alone: which packets it accepted, when it lost its
// source, and what its device was given.
module GatewayRuns {
  import opened Prelude
  import opened Bytes
  import opened Gateway
  import Config
  import Sacn
  import ShowNet

  // A positive clock, within one 32-bit epoch, that advances across the pause.
  ghost predicate RunValid(ticks: seq<Tick>) {
    && (forall i :: 0 <= i < |ticks| ==> TickValid(ticks[i]) && 0 < ticks[i].check <= ticks[i].stamp < ticks[i].t < WORD)
    && (forall i :: 0 < i < |ticks| ==> ticks[i - 1].t <= ticks[i].check)
  }

  // A port and the run it takes part in.
  datatype Run = Run(port: Config.Port, hold: nat, ticks: seq<Tick>)

  ghost predicate Valid(r: Run) { RunValid(r.ticks) }

  // The port after n iterations.
  function After(r: Run, n: nat): (o: Out)
    requires Valid(r) && n <= |r.ticks|
    ensures o.Valid()
  {
    if n == 0 then Start() else StepOut(r.port, r.hold, After(r, n - 1), r.ticks[n - 1])
  }

  // The packet of iteration i was taken over into the buffer.
  ghost predicate Accepted(r: Run, i: nat)
    requires Valid(r)
  {
    i < |r.ticks| && Accepts(r.port, After(r, i), r.ticks[i])
  }

  // The source was given up in iteration i.
  ghost predicate Lost(r: Run, i: nat)
    requires Valid(r)
  {
    i < |r.ticks| && r.port.mode == Config.DMX_MODE_TX && TimedOut(Handle(r.port, After(r, i), r.ticks[i]), r.hold, r.ticks[i].t)
  }

  // After n iterations the port still lives on the packet of iteration i.
  ghost predicate Current(r: Run, i: nat, n: nat)
    requires Valid(r) && n <= |r.ticks|
  {
    && i < n && Accepted(r, i)
    && (forall j: nat :: i < j < n ==> !Accepted(r, j))
    && (forall j: nat :: i <= j < n ==> !Lost(r, j))
  }

  function Slots(r: Run, i: nat): bytes
    requires i < |r.ticks|
  {
    r.ticks[i].traffic.Slots()
  }

  // A packet that reaches channel k.
  ghost predicate Reaches(r: Run, i: nat, k: nat)
    requires Valid(r)
  {
    Accepted(r, i) && k < |Slots(r, i)|
  }

  // The latest accepted packet since the last loss that reaches channel k.
  ghost predicate Shows(r: Run, i: nat, n: nat, k: nat)
    requires Valid(r) && n <= |r.ticks|
  {
    && i < n && Reaches(r, i, k)
    && (forall j: nat :: i < j < n ==> !Reaches(r, j, k))
    && (forall j: nat :: i <= j < n ==> !Lost(r, j))
  }

  // ---- The clock ------------------------------------------------------------------------------

  lemma {:induction false} ClockAdvances(r: Run, i: nat, j: nat)
    requires Valid(r) && i < j < |r.ticks|
    ensures r.ticks[i].t <= r.ticks[j].check
    decreases j
  {
    if i + 1 < j {
      ClockAdvances(r, i, j - 1);
    }
  }

  // ---- What every iteration keeps ---------------------------------------------------------------

  // A port that has a source has written its latest frame; its stamps lie in the past.
  lemma {:induction false} Settled(r: Run, n: nat)
    requires Valid(r) && n <= |r.ticks|
    ensures var o := After(r, n);
            && (o.lastUpdate == 0 || o.lastUpdate == o.lastWrite)
            && (n == 0 ==> o.lastWrite == 0)
            && (n > 0 ==> o.lastWrite < r.ticks[n - 1].t)
            && (r.port.mode != Config.DMX_MODE_TX ==> o == Start())
  {
    if n > 0 {
      Settled(r, n - 1);
    }
  }

  // Freshness tracking: exactly the accepted packets make the output cycle write the
  // buffer, and a source lost is never one just heard.
  lemma Step(r: Run, n: nat)
    requires Valid(r) && n < |r.ticks|
    ensures Fresh(Handle(r.port, After(r, n), r.ticks[n])) <==> Accepted(r, n)
    ensures Accepted(r, n) ==> !Lost(r, n) && r.port.mode == Config.DMX_MODE_TX
    ensures After(r, n + 1) == if Accepted(r, n) then Write(Take(After(r, n), r.ticks[n]))
                               else if Lost(r, n) then Blackout(After(r, n))
                               else After(r, n)
  {
    Settled(r, n);
    Settled(r, n + 1);
  }

  // The iteration before the n-th state, for induction on n.
  lemma StepTo(r: Run, n: nat)
    requires Valid(r) && 0 < n <= |r.ticks|
    ensures Accepted(r, n - 1) ==> !Lost(r, n - 1) && r.port.mode == Config.DMX_MODE_TX
    ensures After(r, n) == if Accepted(r, n - 1) then Write(Take(After(r, n - 1), r.ticks[n - 1]))
                           else if Lost(r, n - 1) then Blackout(After(r, n - 1))
                           else After(r, n - 1)
  {
    Step(r, n - 1);
  }

  lemma AtPowerUp(r: Run)
    requires Valid(r)
    ensures After(r, 0) == Start()
    ensures forall i: nat :: !Current(r, i, 0)
    ensures forall i: nat, k: nat :: !Shows(r, i, 0, k)
  {
  }

  // ---- Frame history -----------------------------------------------------------------------------

  // In every reachable state, a channel has its value in the latest accepted packet
  // since the last loss that is long enough to reach it, and 0 when there is none.
  lemma {:induction false} FrameHistory(r: Run, n: nat, k: nat)
    requires Valid(r) && n <= |r.ticks| && k < 512
    ensures forall i: nat :: Shows(r, i, n, k) ==> After(r, n).data[k] == Slots(r, i)[k]
    ensures (forall i: nat :: !Shows(r, i, n, k)) ==> After(r, n).data[k] == 0
  {
    hide After, Accepted, Lost, Shows;
    AtPowerUp(r);
    if n > 0 {
      FrameHistory(r, n - 1, k);
      StepTo(r, n);
      ShowsStep(r, n - 1, n, k);
    }
  }

  // How one iteration changes which packet a channel shows.
  lemma ShowsStep(r: Run, m: nat, n: nat, k: nat)
    requires Valid(r) && n == m + 1 <= |r.ticks|
    ensures Lost(r, m) ==> forall i: nat :: !Shows(r, i, n, k)
    ensures !Lost(r, m) && Reaches(r, m, k) ==> Shows(r, m, n, k) && forall i: nat :: Shows(r, i, n, k) <==> i == m
    ensures !Lost(r, m) && !Reaches(r, m, k) ==> forall i: nat :: Shows(r, i, n, k) <==> Shows(r, i, m, k)
    ensures forall i: nat :: Shows(r, i, n, k) ==> i < |r.ticks| && k < |Slots(r, i)|
  {
    hide Accepted, Lost, Slots;
  }

  // Packet i is the last one accepted so far.
  ghost predicate LastAccepted(r: Run, i: nat, n: nat)
    requires Valid(r) && n <= |r.ticks|
  {
    i < n && Accepted(r, i) && forall j: nat :: i < j < n ==> !Accepted(r, j)
  }

  lemma LastStep(r: Run, m: nat, n: nat)
    requires Valid(r) && n == m + 1 <= |r.ticks|
    ensures Accepted(r, m) ==> forall i: nat :: LastAccepted(r, i, n) <==> i == m
    ensures !Accepted(r, m) ==> forall i: nat :: LastAccepted(r, i, n) <==> LastAccepted(r, i, m)
    ensures forall i: nat :: LastAccepted(r, i, n) ==> i < |r.ticks|
  {
    hide Accepted;
  }

  ghost predicate OriginIs(o: Out, w: Traffic) {
    && o.length == |w.Slots()|
    && (w.FromSacn? ==> o.sequence == w.sacn.sequence)
    && (w.FromArtNet? ==> o.sequence == w.sequence)
  }

  // Losing the source does not change where the last frame came from: its length and
  // sequence number stay those of the last accepted packet.
  lemma {:induction false} Origin(r: Run, n: nat)
    requires Valid(r) && n <= |r.ticks|
    ensures forall i: nat :: LastAccepted(r, i, n) ==> i < |r.ticks| && OriginIs(After(r, n), r.ticks[i].traffic)
    ensures (forall i: nat :: !LastAccepted(r, i, n)) ==> After(r, n).length == 0 && After(r, n).sequence == 0
  {
    hide After, Accepted, Lost;
    AtPowerUp(r);
    if n > 0 {
      var m: nat := n - 1;
      Origin(r, m);
      StepTo(r, n);
      LastStep(r, m, n);
      if Accepted(r, m) { assert LastAccepted(r, m, n); }
    }
  }

  // ---- The source a port lives on ----------------------------------------------------------------

  lemma CurrentStep(r: Run, m: nat, n: nat)
    requires Valid(r) && n == m + 1 <= |r.ticks|
    ensures Lost(r, m) ==> forall i: nat :: !Current(r, i, n)
    ensures !Lost(r, m) && Accepted(r, m) ==> Current(r, m, n) && forall i: nat :: Current(r, i, n) <==> i == m
    ensures !Lost(r, m) && !Accepted(r, m) ==> forall i: nat :: Current(r, i, n) <==> Current(r, i, m)
    ensures forall i: nat :: Current(r, i, n) ==> i < |r.ticks|
  {
    hide Accepted, Lost;
  }

  // The port's clock is that of the packet it lives on.
  lemma {:induction false} Holding(r: Run, n: nat)
    requires Valid(r) && n <= |r.ticks|
    ensures forall i: nat :: Current(r, i, n) ==> After(r, n).lastUpdate == r.ticks[i].stamp
    ensures (forall i: nat :: !Current(r, i, n)) ==> After(r, n).lastUpdate == 0
  {
    hide After, Accepted, Lost, Current;
    AtPowerUp(r);
    if n > 0 {
      Holding(r, n - 1);
      StepTo(r, n);
      CurrentStep(r, n - 1, n);
    }
  }

  ghost predicate SacnOnly(r: Run) {
    forall i :: 0 <= i < |r.ticks| ==> r.ticks[i].traffic.FromSacn? || r.ticks[i].traffic.Silence?
  }

  lemma AcceptedIsAddressed(r: Run, i: nat)
    requires Valid(r)
    ensures Accepted(r, i) ==> i < |r.ticks| && Addressed(r.port, r.ticks[i].traffic)
  {
  }

  lemma {:induction false} HoldingPriority(r: Run, n: nat)
    requires Valid(r) && n <= |r.ticks| && SacnOnly(r)
    ensures forall i: nat :: Current(r, i, n) ==> r.ticks[i].traffic.FromSacn? && After(r, n).priority == r.ticks[i].traffic.sacn.priority
    ensures (forall i: nat :: !Current(r, i, n)) ==> After(r, n).priority == 0
  {
    hide After, Accepted, Lost, Current;
    AtPowerUp(r);
    if n > 0 {
      HoldingPriority(r, n - 1);
      AcceptedIsAddressed(r, n - 1);
      StepTo(r, n);
      CurrentStep(r, n - 1, n);
    }
  }

  // A source is lost exactly in an iteration that accepts nothing while the packet the
  // port lives on has become older than the hold time.
  lemma LostExactly(r: Run, n: nat)
    requires Valid(r) && n < |r.ticks|
    ensures Lost(r, n) <==> (!Accepted(r, n) && exists i: nat :: Current(r, i, n) && r.ticks[n].t - r.ticks[i].stamp > r.hold * 1000)
  {
    Step(r, n);
    Holding(r, n);
    Settled(r, n);
    StampPositive(r, n);
  }

  lemma StampPositive(r: Run, n: nat)
    requires Valid(r) && n < |r.ticks|
    ensures forall i: nat :: Current(r, i, n) ==> 0 < r.ticks[i].stamp && r.port.mode == Config.DMX_MODE_TX
  {
  }

  // The packet of iteration i gives way to that of iteration n.
  ghost predicate Yields(r: Run, i: nat, n: nat)
    requires i < n < |r.ticks|
  {
    var p, q := r.ticks[i], r.ticks[n];
    p.traffic.FromSacn? && q.traffic.FromSacn?
    && (q.traffic.sacn.priority >= p.traffic.sacn.priority || q.check - p.stamp > 2500)
  }

  // Arbitration: a matching packet is taken unless the port lives on one of higher
  // priority that is at most 2500 ms old.
  lemma AcceptedExactly(r: Run, n: nat)
    requires Valid(r) && n < |r.ticks| && SacnOnly(r)
    ensures Accepted(r, n) <==> (Addressed(r.port, r.ticks[n].traffic) && forall i: nat :: Current(r, i, n) ==> Yields(r, i, n))
  {
    Holding(r, n);
    HoldingPriority(r, n);
    forall i: nat | Current(r, i, n) ensures r.ticks[i].stamp <= r.ticks[n].check {
      ClockAdvances(r, i, n);
    }
  }

  // Any packet of any protocol, delivered in iteration i: accepted only by a port it
  // addresses, and then its slots overwrite exactly their own channels, in the buffer and
  // on the device, and the priority is the packet's for sACN and as it was otherwise.
  lemma Delivered(r: Run, i: nat)
    requires Valid(r) && i < |r.ticks|
    ensures var w := r.ticks[i].traffic;
            && (Accepted(r, i) ==> Addressed(r.port, w))
            && (!w.FromSacn? && Addressed(r.port, w) ==> Accepted(r, i))
    ensures Accepted(r, i) ==>
              var o, p, w := After(r, i), After(r, i + 1), r.ticks[i].traffic;
              && OriginIs(p, w) && p.lastUpdate == r.ticks[i].stamp && (w.FromShowNet? ==> p.sequence == o.sequence)
              && p.priority == (if w.FromSacn? then w.sacn.priority else o.priority)
              && (forall k :: 0 <= k < 512 ==> p.data[k] == if k < |w.Slots()| then w.Slots()[k] else o.data[k])
              && p.device == o.device + [p.data]
  {
    hide After;
    Step(r, i);
  }

  // A ShowNet datagram with data, delivered in iteration i, overwrites the channels of the
  // transmitting ports whose universe holds its first slot, and no others; slot 0 stands
  // for universe 0.
  lemma ShowNetToPort(r: Run, i: nat, origin: bytes, slot: nat, count: nat, blocks: bytes, flags: byte, data: bytes)
    requires Valid(r) && i < |r.ticks| && |origin| == 6 && slot < 0x1_0000 && count < 0x1_0000 && |blocks| == 4
    requires Some(r.ticks[i].traffic) == match ShowNet.ParsePacket(ShowNet.Datagram(origin, slot, count, blocks, flags, data))
                                         case None => None case Some(p) => Some(FromShowNet(p))
    ensures Accepted(r, i) <==> r.port.mode == 1 && if slot == 0 then r.port.universe == 0 else 512 * r.port.universe < slot <= 512 * (r.port.universe + 1)
    ensures Accepted(r, i) ==>
              var o, p := After(r, i), After(r, i + 1);
              var slots := if flags % 2 == 1 then ShowNet.Decode(data, 0, 512) else data[..Min(|data|, Min(512, count))];
              && (forall k :: 0 <= k < 512 ==> p.data[k] == if k < |slots| then slots[k] else o.data[k])
              && p.device == o.device + [p.data] && p.length == |slots| && p.priority == o.priority && p.sequence == o.sequence
  {
    hide After, ShowNet.ParsePacket, ShowNet.Decode, ShowNet.Datagram, Addressed, Accepts;
    ShowNet.ParseDatagram(origin, slot, count, blocks, flags, data);
    Delivered(r, i);
    AddressedExactly(r.port, r.ticks[i].traffic);
  }

  // A datagram that is not DMX (start code other than 0) leaves no trace.
  lemma NotDmx(r: Run, i: nat, b: bytes)
    requires Valid(r) && i < |r.ticks|
    requires |b| >= 126 && b[125] != 0
    requires Sacn.ParsePacket(b).Some? && r.ticks[i].traffic == FromSacn(Sacn.ParsePacket(b).value)
    ensures Handle(r.port, After(r, i), r.ticks[i]) == After(r, i) && !Accepted(r, i)
  {
    hide After, Sacn.ParsePacket;
    Sacn.StartCodeIs(b);
  }

  // ---- The device --------------------------------------------------------------------------------

  // The iterations that accept a packet or lose their source.
  ghost function Writing(r: Run, n: nat): set<nat>
    requires Valid(r)
  {
    set i: nat | i < n && (Accepted(r, i) || Lost(r, i))
  }

  // Every accepted packet is written exactly once, every loss blacks out exactly once,
  // and nothing else is written.
  lemma {:induction false} WritesCounted(r: Run, n: nat)
    requires Valid(r) && n <= |r.ticks|
    ensures |After(r, n).device| == |Writing(r, n)|
  {
    hide After, Accepted, Lost;
    AtPowerUp(r);
    if n == 0 {
      assert Writing(r, 0) == {};
    } else {
      WritesCounted(r, n - 1);
      StepTo(r, n);
      assert Writing(r, n) == if Accepted(r, n - 1) || Lost(r, n - 1) then Writing(r, n - 1) + {n - 1} else Writing(r, n - 1);
    }
  }

  // Once a frame has been accepted, the last frame the device took is the buffer.
  lemma {:induction false} DeviceAgrees(r: Run, n: nat)
    requires Valid(r) && n <= |r.ticks|
    ensures var o := After(r, n);
            if exists i: nat :: i < n && Accepted(r, i) then o.device != [] && o.device[|o.device| - 1] == o.data
            else o.device == [] && o.data == Zeros(512) && o.lastUpdate == 0
  {
    hide After, Accepted, Lost;
    AtPowerUp(r);
    if n > 0 {
      DeviceAgrees(r, n - 1);
      StepTo(r, n);
      LostHasSource(r, n - 1);
    }
  }

  lemma LostHasSource(r: Run, n: nat)
    requires Valid(r) && n < |r.ticks|
    ensures Lost(r, n) ==> After(r, n).lastUpdate > 0
  {
    Step(r, n);
  }

  // Between two blackouts lies an accepted packet: one loss blacks out once.
  lemma LossesAlternate(r: Run, i: nat, j: nat)
    requires Valid(r) && i < j < |r.ticks| && Lost(r, i) && Lost(r, j)
    ensures exists k: nat :: i < k < j && Accepted(r, k)
  {
    LostExactly(r, j);
    var c: nat :| Current(r, c, j);
  }

  // ---- Priority over whole runs ---------------------------------------------------------------------

  // The port's source is alive throughout iterations a to b: its last accepted packet is
  // never older than the merge timeout when a packet is weighed, nor than the hold time
  // when the output cycle looks.
  ghost predicate Alive(r: Run, a: nat, b: nat)
    requires Valid(r) && b <= |r.ticks|
  {
    forall j: nat :: a <= j < b ==>
      && r.ticks[j].check - After(r, j).lastUpdate <= 2500
      && r.ticks[j].t - Handle(r.port, After(r, j), r.ticks[j]).lastUpdate <= r.hold * 1000
  }

  lemma AliveStep(r: Run, a: nat)
    requires Valid(r) && a < |r.ticks| && Alive(r, a, a + 1)
    requires r.ticks[a].traffic.FromSacn? || r.ticks[a].traffic.Silence?
    ensures After(r, a).priority <= After(r, a + 1).priority
    ensures r.ticks[a].traffic.FromSacn? && r.ticks[a].traffic.sacn.priority < After(r, a).priority ==> After(r, a + 1) == After(r, a)
  {
    hide After, Overlay;
    Step(r, a);
    Settled(r, a);
  }

  // While the source is alive the held priority never falls, and a packet of lower
  // priority changes nothing.
  lemma {:induction false} PrioritySafety(r: Run, a: nat, b: nat)
    requires Valid(r) && a <= b <= |r.ticks| && Alive(r, a, b)
    requires forall j: nat :: a <= j < b ==> r.ticks[j].traffic.FromSacn? || r.ticks[j].traffic.Silence?
    ensures After(r, a).priority <= After(r, b).priority
    ensures forall j: nat :: a <= j < b && r.ticks[j].traffic.FromSacn? && r.ticks[j].traffic.sacn.priority < After(r, a).priority
                        ==> After(r, j + 1) == After(r, j)
    decreases b - a
  {
    hide After, Handle;
    if a < b {
      AliveStep(r, a);
      PrioritySafety(r, a + 1, b);
    }
  }

  // After either timeout has passed since the last accepted packet, the next matching
  // packet is taken, whatever its priority.
  lemma AfterExpiry(r: Run, last: nat, n: nat)
    requires Valid(r) && last < n < |r.ticks| && SacnOnly(r)
    requires Accepted(r, last) && forall j: nat :: last < j < n ==> !Accepted(r, j)
    requires r.ticks[n].check - r.ticks[last].stamp > 2500
             || exists j: nat :: last < j < n && r.ticks[j].t - r.ticks[last].stamp > r.hold * 1000
    requires Addressed(r.port, r.ticks[n].traffic)
    ensures Accepted(r, n)
  {
    AcceptedExactly(r, n);
    if i: nat :| Current(r, i, n) && !Yields(r, i, n) {
      assert i == last;
      var j: nat :| last < j < n && r.ticks[j].t - r.ticks[last].stamp > r.hold * 1000;
      LostExactly(r, j);
      assert Current(r, last, j);
    }
  }
}
