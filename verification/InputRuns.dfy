// Whole runs of the input cycle: what a port that listens to DMX puts on the network,
// and what a peer makes of it.
module InputRuns {
  import opened Prelude
  import opened Bytes
  import opened Gateway
  import opened GatewayRuns
  import Config
  import Sacn

  // A port that has just been given its transmitter, and the cycles it runs.
  datatype Session = Session(tx: Sacn.Tx, cycles: seq<Reading>)

  // The clock is positive, stays within one 32-bit epoch and advances from cycle to cycle.
  ghost predicate Running(s: Session) {
    && s.tx.Valid()
    && (forall i :: 0 <= i < |s.cycles| ==> ReadingValid(s.cycles[i]) && 0 < s.cycles[i].t)
    && (forall i :: 0 < i < |s.cycles| ==> s.cycles[i - 1].t < s.cycles[i].t)
  }

  // The port after n cycles.
  function State(s: Session, n: nat): (r: In)
    requires Running(s) && n <= |s.cycles|
    ensures r.Valid()
  {
    if n == 0 then In([], 0, s.tx, []) else InputCycle(State(s, n - 1), s.cycles[n - 1])
  }

  // The last frame the device delivered in the first n cycles.
  function LastRead(s: Session, n: nat): (f: bytes)
    requires Running(s) && n <= |s.cycles|
    ensures |f| <= 512
  {
    if n == 0 then [] else if s.cycles[n - 1].frame != [] then s.cycles[n - 1].frame else LastRead(s, n - 1)
  }

  // A packet left in cycle i.
  ghost predicate Sends(s: Session, i: nat)
    requires Running(s)
  {
    i < |s.cycles| && Due(State(s, i), s.cycles[i]) && s.cycles[i].taken
  }

  // The identity with which packet j leaves.
  function Identity(s: Session, j: nat): (tx: Sacn.Tx)
    requires s.tx.Valid()
    ensures tx.Valid()
  {
    s.tx.(sequence := (s.tx.sequence + j) % 256)
  }

  lemma IdentityNext(s: Session, j: nat)
    requires s.tx.Valid()
    ensures Identity(s, 0) == s.tx && Sacn.Next(Identity(s, j)) == Identity(s, j + 1)
  {
  }

  // The stored frame is the last one read, whether or not it could be sent, and the
  // send stamp never lies ahead.
  lemma {:induction false} Stored(s: Session, n: nat)
    requires Running(s) && n <= |s.cycles|
    ensures State(s, n).frame == LastRead(s, n)
    ensures State(s, n).lastSend <= if n == 0 then 0 else s.cycles[n - 1].t
    ensures State(s, n).tx == Identity(s, |State(s, n).wire|)
  {
    hide Sacn.PacketBytes, Sacn.Next, Identity;
    if n == 0 {
      IdentityNext(s, 0);
    } else {
      Stored(s, n - 1);
      IdentityNext(s, |State(s, n - 1).wire|);
    }
  }

  // One cycle: a packet with the last frame read and the next sequence number, or nothing.
  lemma Cycle(s: Session, m: nat, n: nat)
    requires Running(s) && n == m + 1 <= |s.cycles|
    ensures if Sends(s, m)
            then State(s, n).lastSend == s.cycles[m].t
                 && State(s, n).wire == State(s, m).wire + [Sacn.PacketBytes(Identity(s, |State(s, m).wire|), LastRead(s, n))]
            else State(s, n).lastSend == State(s, m).lastSend && State(s, n).wire == State(s, m).wire
  {
    hide Sacn.PacketBytes, Sacn.Next, Identity;
    Stored(s, m);
    Stored(s, n);
  }

  // Sequence discipline: failed sends or not, packet j carries sequence number j past
  // the first, modulo 256, and the frame last read when it left.
  lemma {:induction false} PacketsInSequence(s: Session, n: nat, j: nat) returns (m: nat)
    requires Running(s) && n <= |s.cycles| && j < |State(s, n).wire|
    ensures m < n && Sends(s, m)
    ensures State(s, n).wire[j] == Sacn.PacketBytes(Identity(s, j), LastRead(s, m + 1))
    ensures Sacn.ParsePacket(State(s, n).wire[j]) == Some(Sacn.Received(Identity(s, j), LastRead(s, m + 1)))
  {
    hide Sacn.PacketBytes, Sacn.ParsePacket, Sends, InputCycle;
    Cycle(s, n - 1, n);
    if j < |State(s, n - 1).wire| {
      m := PacketsInSequence(s, n - 1, j);
    } else {
      m := n - 1;
      Stored(s, n);
      Sacn.ParseBuilt(Identity(s, j), LastRead(s, n));
    }
  }

  lemma {:induction false} Quiet(s: Session, i: nat, j: nat)
    requires Running(s) && i <= j <= |s.cycles|
    requires forall k: nat :: i <= k < j ==> !Sends(s, k)
    ensures State(s, j).lastSend == State(s, i).lastSend && State(s, j).wire == State(s, i).wire
    decreases j
  {
    hide Sacn.PacketBytes, Identity, State;
    if i < j {
      Quiet(s, i, j - 1);
      Cycle(s, j - 1, j);
    }
  }

  lemma SentOnlyFrames(s: Session, i: nat)
    requires Running(s) && Sends(s, i)
    ensures LastRead(s, i + 1) != []
  {
    Stored(s, i);
  }

  lemma {:induction false} ReadStays(s: Session, i: nat, j: nat)
    requires Running(s) && i <= j <= |s.cycles| && LastRead(s, i) != []
    ensures LastRead(s, j) != []
    decreases j
  {
    if i < j {
      ReadStays(s, i, j - 1);
    }
  }

  // Once a frame has been read: the last packet carries the last frame read, and it left
  // at most 900 ms ago.
  ghost predicate Synced(s: Session, n: nat)
    requires Running(s) && n <= |s.cycles|
  {
    var r := State(s, n);
    && n > 0 && r.wire != [] && r.wire[|r.wire| - 1] == Sacn.PacketBytes(Identity(s, |r.wire| - 1), LastRead(s, n))
    && s.cycles[n - 1].t - r.lastSend <= 900
  }

  // The last of the first n cycles in which a packet left.
  ghost predicate LastSent(s: Session, m: nat, n: nat)
    requires Running(s) && n <= |s.cycles|
  {
    m < n && Sends(s, m) && forall k: nat :: m < k < n ==> !Sends(s, k)
  }

  lemma LastPacket(s: Session, m: nat, n: nat)
    requires Running(s) && n <= |s.cycles| && LastSent(s, m, n)
    ensures var r := State(s, n);
            && r.lastSend == s.cycles[m].t && r.wire != []
            && r.wire[|r.wire| - 1] == Sacn.PacketBytes(Identity(s, |r.wire| - 1), LastRead(s, m + 1))
  {
    hide Sacn.PacketBytes, Identity, State, Sends;
    Cycle(s, m, m + 1);
    Quiet(s, m + 1, n);
  }

  lemma {:induction false} SomeLastSent(s: Session, n: nat)
    requires Running(s) && n <= |s.cycles| && State(s, n).wire != []
    ensures exists m: nat :: LastSent(s, m, n)
  {
    hide Sacn.PacketBytes, Identity, Sends, InputCycle;
    if Sends(s, n - 1) {
      assert LastSent(s, n - 1, n);
    } else {
      Cycle(s, n - 1, n);
      SomeLastSent(s, n - 1);
      var m: nat :| LastSent(s, m, n - 1);
      assert LastSent(s, m, n);
    }
  }

  // Different frames make different packets.
  lemma PacketsDiffer(tx: Sacn.Tx, a: bytes, b: bytes)
    requires tx.Valid() && |a| <= 512 && |b| <= 512 && Sacn.PacketBytes(tx, a) == Sacn.PacketBytes(tx, b)
    ensures a == b
  {
    hide Sacn.PacketBytes, Sacn.ParsePacket;
    Sacn.ParseBuilt(tx, a);
    Sacn.ParseBuilt(tx, b);
  }

  // Whatever sends fail, a port is in sync exactly when its last packet left at most
  // 900 ms ago with the frame that is still the last one read.
  lemma SyncedExactly(s: Session, n: nat)
    requires Running(s) && n <= |s.cycles|
    ensures Synced(s, n) <==> exists m: nat :: LastSent(s, m, n) && LastRead(s, m + 1) == LastRead(s, n)
                                               && s.cycles[n - 1].t - s.cycles[m].t <= 900
  {
    hide Sacn.PacketBytes, Identity, State, Sends, LastRead;
    if Synced(s, n) {
      SomeLastSent(s, n);
      var m: nat :| LastSent(s, m, n);
      LastPacket(s, m, n);
      PacketsDiffer(Identity(s, |State(s, n).wire| - 1), LastRead(s, m + 1), LastRead(s, n));
    }
    if m: nat :| m < n && LastSent(s, m, n) && LastRead(s, m + 1) == LastRead(s, n) && s.cycles[n - 1].t - s.cycles[m].t <= 900 {
      LastPacket(s, m, n);
    }
  }

  // From one cycle to the next, sync is kept exactly by a packet leaving, or by reading
  // nothing new while the last packet is at most 900 ms old.
  lemma SyncStep(s: Session, n: nat)
    requires Running(s) && n < |s.cycles| && Synced(s, n)
    ensures var c := s.cycles[n];
            Synced(s, n + 1) <==> Sends(s, n) || ((c.frame == [] || c.frame == LastRead(s, n))
                                                  && c.t - State(s, n).lastSend <= 900)
  {
    hide Sacn.PacketBytes, Identity, State, Sends;
    Cycle(s, n, n + 1);
    var wire := State(s, n).wire;
    if !Sends(s, n) && Synced(s, n + 1) {
      PacketsDiffer(Identity(s, |wire| - 1), LastRead(s, n), LastRead(s, n + 1));
    }
  }

  ghost predicate AllTaken(s: Session, n: nat) {
    n <= |s.cycles| && forall i :: 0 <= i < n ==> s.cycles[i].taken
  }

  // With successful sends a port is in sync as soon as a frame has been read.
  lemma {:induction false} InSync(s: Session, n: nat)
    requires Running(s) && n <= |s.cycles| && AllTaken(s, n) && LastRead(s, n) != []
    ensures Synced(s, n)
  {
    hide Sacn.PacketBytes, State, Identity, Synced;
    Stored(s, n - 1);
    if Sends(s, n - 1) {
      assert LastSent(s, n - 1, n);
      SyncedExactly(s, n);
    } else {
      InSync(s, n - 1);
      SyncStep(s, n - 1);
    }
  }

  // With successful sends, two consecutive packets are at most 900 ms and one cycle apart.
  lemma SendGap(s: Session, i: nat, j: nat)
    requires Running(s) && i < j < |s.cycles| && AllTaken(s, j) && Sends(s, i)
    requires forall k: nat :: i < k < j ==> !Sends(s, k)
    ensures s.cycles[j].t - s.cycles[i].t <= 900 + (s.cycles[j].t - s.cycles[j - 1].t)
  {
    hide Sacn.PacketBytes, Identity, State;
    Cycle(s, i, i + 1);
    Quiet(s, i + 1, j);
    SentOnlyFrames(s, i);
    ReadStays(s, i + 1, j);
    InSync(s, j);
  }

  // Exactly when a packet leaves: the send succeeds, and a new frame was read, or the last
  // one again at least 900 ms after the last packet, or none more than 900 ms after it.
  // Before the first packet the clock itself is measured.
  lemma SendsExactly(s: Session, n: nat, m: nat)
    requires Running(s) && n < |s.cycles|
    requires LastSent(s, m, n) || (forall k: nat :: k < n ==> !Sends(s, k))
    ensures var c := s.cycles[n]; var age := if LastSent(s, m, n) then c.t - s.cycles[m].t else c.t;
            Sends(s, n) <==> c.taken && if c.frame == [] then LastRead(s, n) != [] && age > 900
                                        else c.frame != LastRead(s, n) || age >= 900
  {
    hide Sacn.PacketBytes, Identity, State, Sends;
    Stored(s, n);
    if LastSent(s, m, n) { LastPacket(s, m, n); } else { Quiet(s, 0, n); StartsSilent(s); }
    DueIs(State(s, n), s.cycles[n]);
    SendsIs(s, n);
  }

  lemma StartsSilent(s: Session)
    requires Running(s)
    ensures State(s, 0).lastSend == 0
  {
  }

  lemma SendsIs(s: Session, n: nat)
    requires Running(s) && n < |s.cycles|
    ensures Sends(s, n) <==> Due(State(s, n), s.cycles[n]) && s.cycles[n].taken
  {
    hide State;
  }

  lemma DueIs(r: In, c: Reading)
    requires r.Valid() && r.lastSend <= c.t
    ensures Due(r, c) <==> if c.frame == [] then r.frame != [] && c.t - r.lastSend > 900 else c.frame != r.frame || c.t - r.lastSend >= 900
  {
  }

  // An unchanged frame is repeated as a keep-alive only: not within 900 ms.
  lemma KeepAliveOnly(s: Session, i: nat, j: nat)
    requires Running(s) && i < j < |s.cycles| && Sends(s, i) && Sends(s, j) && LastRead(s, j + 1) == LastRead(s, j)
    requires forall k: nat :: i < k < j ==> !Sends(s, k)
    ensures s.cycles[j].t - s.cycles[i].t >= 900
  {
    hide Sacn.PacketBytes, Identity, State;
    Cycle(s, i, i + 1);
    Quiet(s, i + 1, j);
    Stored(s, j);
  }

  // A new frame whose send fails breaks sync, and it is not retried while it stays
  // unchanged and the older packet is less than 900 ms old.
  lemma FailedFrameWaits(s: Session, n: nat)
    requires Running(s) && 0 < n < |s.cycles|
    requires s.cycles[n - 1].frame != [] && !s.cycles[n - 1].taken
    requires s.cycles[n].frame == s.cycles[n - 1].frame || s.cycles[n].frame == []
    requires s.cycles[n].t - State(s, n - 1).lastSend < 900
    ensures State(s, n + 1).wire == State(s, n - 1).wire
    ensures Synced(s, n - 1) && s.cycles[n - 1].frame != LastRead(s, n - 1) ==> !Synced(s, n) && !Synced(s, n + 1)
  {
    hide Sacn.PacketBytes, Identity, State;
    Cycle(s, n - 1, n);
    Cycle(s, n, n + 1);
    Stored(s, n);
    if Synced(s, n - 1) {
      SyncStep(s, n - 1);
      if Synced(s, n + 1) { PacketsDiffer(Identity(s, |State(s, n - 1).wire| - 1), LastRead(s, n - 1), LastRead(s, n + 1)); }
    }
  }

  // ---- Port to port ------------------------------------------------------------------------------

  // Packet j of one node, delivered to a peer's port in iteration i: the port is
  // addressed exactly when it transmits the same universe, and on acceptance the frame
  // read at the sender overwrites exactly its own channels, in the buffer and on the device.
  lemma PortToPort(s: Session, n: nat, j: nat, r: Run, i: nat) returns (m: nat)
    requires Running(s) && n <= |s.cycles| && j < |State(s, n).wire|
    requires Valid(r) && i < |r.ticks|
    requires Sacn.ParsePacket(State(s, n).wire[j]).Some?
             ==> r.ticks[i].traffic == FromSacn(Sacn.ParsePacket(State(s, n).wire[j]).value)
    ensures m < n && Sends(s, m)
    ensures Addressed(r.port, r.ticks[i].traffic) <==> r.port.mode == Config.DMX_MODE_TX && r.port.universe == s.tx.universe
    ensures Accepted(r, i) ==>
              var o, p, slots := After(r, i), After(r, i + 1), LastRead(s, m + 1);
              && p.length == |slots| && p.priority == s.tx.priority && p.sequence as int == (s.tx.sequence + j) % 256
              && (forall k :: 0 <= k < 512 ==> p.data[k] == if k < |slots| then slots[k] else o.data[k])
              && p.device == o.device + [p.data]
  {
    hide Sacn.ParsePacket, After, State;
    m := PacketsInSequence(s, n, j);
    Step(r, i);
  }
}
