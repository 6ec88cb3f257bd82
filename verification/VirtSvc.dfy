/** A virtual service's connections: each client gets one of 64512 ports towards the service, and a
    reply to that port must find its way back to exactly that client. */
module VirtSvc {
  import opened Words
  import TcpState

  const SYSTEM_PORTS: nat := 1024
  const PORT_COUNT: nat := 64512
  const TIMEOUT: nat := 30

  datatype Client = Client(portId: uint16, l4Port: uint16, ip: uint32)

  datatype State = Transient | TransientSyn | TransientSynAck | Established

  datatype Conn = Conn(ts: uint64, client: Client, state: State)

  /** open: the hash table from clients to slots; last: the slot assigned last. */
  datatype Svc = Svc(conns: seq<Conn>, open: map<Client, nat>, last: nat)

  /** virtsvc_tcp_state_change; UDP packets carry no flags and change nothing. */
  function NextState(st: State, flags: Option<bv8>): State {
    if flags.None? then st else
    var p := TcpState.Packet(flags.value, TcpState.Org);
    if p.Ends() then Transient else
    match st
    case Transient => if p.OnlySyn() then TransientSyn else st
    case TransientSyn => if p.OnlySynAck() then TransientSynAck else st
    case TransientSynAck => if p.OnlyAck() then Established else st
    case Established => st
  }

  /** dp_virtsvc_is_connection_old, in 64-bit cycles. */
  predicate IsOld(c: Conn, now: uint64, hz: nat) {
    now > (c.ts + (if c.state == Established then TcpState.EXTENDED_TIMEOUT else TIMEOUT) * hz) % TWO64
  }

  /** The first slot in lo..hi whose connection is old. */
  function FirstOld(conns: seq<Conn>, lo: nat, hi: nat, now: uint64, hz: nat): (r: Option<nat>)
    requires lo <= hi <= |conns|
    ensures r.Some? ==> lo <= r.value < hi && IsOld(conns[r.value], now, hz)
    ensures forall j :: lo <= j < (if r.Some? then r.value else hi) ==> !IsOld(conns[j], now, hz)
    decreases hi - lo
  {
    if lo == hi then None else if IsOld(conns[lo], now, hz) then Some(lo) else FirstOld(conns, lo + 1, hi, now, hz)
  }

  /** dp_virtsvc_get_free_port: from behind the last assigned slot, then from the start. */
  function FreePort(conns: seq<Conn>, last: nat, now: uint64, hz: nat): Option<nat>
    requires last < |conns|
  {
    var r := FirstOld(conns, last + 1, |conns|, now, hz);
    if r.Some? then r else FirstOld(conns, 0, last + 1, now, hz)
  }

  /** dp_virtsvc_use_port; the caller sets the timestamp. */
  function Used(s: Svc, k: Client, p: nat): Svc
    requires p < |s.conns|
  {
    var c := s.conns[p];
    var open := if c.ts != 0 then s.open - {c.client} else s.open;
    s.(open := open[k := p], conns := s.conns[p := c.(client := k, state := Transient)])
  }

  /** A packet of the connection in slot p. */
  function Touched(s: Svc, p: nat, now: uint64, flags: Option<bv8>): Svc
    requires p < |s.conns|
  {
    s.(conns := s.conns[p := s.conns[p].(ts := now, state := NextState(s.conns[p].state, flags))])
  }

  /** A request: the slot of its client, an old slot that is taken over, or none. */
  function Requested(s: Svc, k: Client, now: uint64, hz: nat, flags: Option<bv8>): (Svc, Option<nat>)
    requires s.last < |s.conns|
  {
    if k in s.open then
      (if s.open[k] < |s.conns| then Touched(s, s.open[k], now, flags) else s, Some(s.open[k]))
    else
      var f := FreePort(s.conns, s.last, now, hz);
      if f.None? then (s, None) else (Touched(Used(s.(last := f.value), k, f.value), f.value, now, flags), f)
  }

  /** The source port the service sees. */
  function PortOf(p: nat): uint16
    requires p < PORT_COUNT
  {
    p + SYSTEM_PORTS
  }

  /** The slot a reply to a port is looked up in, in 16-bit arithmetic. */
  function SlotOf(port: uint16): uint16 { Wrap16(port - SYSTEM_PORTS) }

  /** That slot exists exactly for ports that can have been assigned. */
  lemma SlotOfIff(port: uint16, p: nat)
    ensures SlotOf(port) < PORT_COUNT <==> port >= SYSTEM_PORTS
    ensures p < PORT_COUNT ==> SlotOf(PortOf(p)) == p
    ensures SlotOf(80) == 64592
  {
  }

  /** Where a reply goes. PastTable: the code indexes its connection array beyond the end, and what
      happens then is not part of the model. */
  datatype Answer = ToClient(k: Client) | Dropped | PastTable

  /** A reply from the service: the client it goes to, if the slot is in use. */
  function Replied(s: Svc, port: uint16, now: uint64, flags: Option<bv8>): (Svc, Answer) {
    var p := SlotOf(port);
    if p >= |s.conns| then (s, PastTable)
    else if s.conns[p].ts == 0 then (s, Dropped)
    else (Touched(s, p, now, flags), ToClient(s.conns[p].client))
  }

  /** The client's former slot, if it has one, is given up before it gets another. */
  function Forgotten(s: Svc, k: Client): Svc {
    if k in s.open && s.open[k] < |s.conns|
    then s.(conns := s.conns[s.open[k] := s.conns[s.open[k]].(ts := 0)], open := s.open - {k}) else s
  }

  /** dp_virtsvc_open_sync_connection, for a slot that exists. */
  function Synced(s: Svc, k: Client, p: nat, now: uint64): Svc
    requires p < |s.conns|
    ensures |Synced(s, k, p, now).conns| == |s.conns|
  {
    var s2 := Used(Forgotten(s, k), k, p);
    s2.(conns := s2.conns[p := s2.conns[p].(ts := now)], last := p)
  }

  /** dp_virtsvc_del_iface */
  function WithoutIface(s: Svc, portId: uint16): Svc {
    s.(conns := seq(|s.conns|, i requires 0 <= i < |s.conns| => Closed(s.conns[i], portId)),
       open := map k | k in s.open && k.portId != portId :: s.open[k])
  }

  function Closed(c: Conn, portId: uint16): Conn { if c.client.portId == portId then c.(ts := 0) else c }

  // ---------- what every operation keeps ----------

  ghost predicate LeadsBack(s: Svc, k: Client)
    requires k in s.open
  {
    s.open[k] < |s.conns| && s.conns[s.open[k]].ts != 0 && s.conns[s.open[k]].client == k
  }

  ghost predicate Listed(s: Svc, i: nat)
    requires i < |s.conns|
  {
    s.conns[i].ts != 0 ==> s.conns[i].client in s.open && s.open[s.conns[i].client] == i
  }

  /** Hash table and slots in use are inverse to each other. */
  ghost predicate Valid(s: Svc) {
    && |s.conns| == PORT_COUNT && s.last < PORT_COUNT
    && (forall k :: k in s.open ==> LeadsBack(s, k))
    && (forall i :: 0 <= i < |s.conns| ==> Listed(s, i))
  }

  lemma ByOpen(s: Svc, k: Client)
    requires Valid(s) && k in s.open
    ensures LeadsBack(s, k)
  {
  }

  /** A packet keeps the tables inverse unless the clock stands at zero, which marks unused slots. */
  lemma TouchKeepsIff(s: Svc, p: nat, now: uint64, flags: Option<bv8>)
    requires Valid(s) && p < |s.conns| && s.conns[p].ts != 0
    ensures Valid(Touched(s, p, now, flags)) <==> now != 0
  {
    var n := Touched(s, p, now, flags);
    assert Listed(s, p);
    if now != 0 {
      forall k | k in n.open ensures LeadsBack(n, k) { assert LeadsBack(s, k); }
      forall i | 0 <= i < |n.conns| ensures Listed(n, i) { assert Listed(s, i); }
    } else {
      assert !LeadsBack(n, s.conns[p].client);
    }
  }

  /** Slot p given to client k, who has none, and dated. */
  ghost function Given(s: Svc, k: Client, p: nat, c: Conn): Svc
    requires p < |s.conns|
  {
    Svc(s.conns[p := c], (if s.conns[p].ts != 0 then s.open - {s.conns[p].client} else s.open)[k := p], p)
  }

  /** n has client k in slot p and of the rest of open all those that are not there. */
  ghost predicate GaveSlot(open: map<Client, nat>, n: map<Client, nat>, k: Client, p: nat) {
    && k in n && n[k] == p
    && (forall x :: x != k ==> (x in n <==> x in open && open[x] != p))
    && (forall x :: x != k && x in n ==> n[x] == open[x])
  }

  lemma GiveOpens(s: Svc, k: Client, p: nat, c: Conn)
    requires Valid(s) && p < |s.conns| && k !in s.open
    ensures GaveSlot(s.open, Given(s, k, p, c).open, k, p)
  {
    assert Listed(s, p);
    forall x | x in s.open ensures LeadsBack(s, x) {}
  }

  lemma GiveKeepsIff(s: Svc, k: Client, p: nat, c: Conn)
    requires Valid(s) && p < |s.conns| && k !in s.open && c.client == k
    ensures Valid(Given(s, k, p, c)) <==> c.ts != 0
  {
    var n := Given(s, k, p, c);
    assert Listed(s, p);
    if c.ts != 0 {
      forall x | x in n.open ensures LeadsBack(n, x) {
        if x != k { assert LeadsBack(s, x); }
      }
      forall i | 0 <= i < |n.conns| ensures Listed(n, i) {
        if i != p { assert Listed(s, i); }
      }
    } else {
      assert !LeadsBack(n, k);
    }
  }

  // ---------- the round robin ----------

  /** How far slot j is behind the last assigned one, going round. */
  ghost function Turn(last: nat, n: nat, j: nat): nat
    requires last < n && j < n
  {
    if j > last then j - last - 1 else j + n - last - 1
  }

  /** A slot is found exactly if some connection is old, and it is the next one round. */
  lemma FreePortRight(conns: seq<Conn>, last: nat, now: uint64, hz: nat)
    requires last < |conns|
    ensures var f := FreePort(conns, last, now, hz);
            && (f.Some? <==> exists j :: 0 <= j < |conns| && IsOld(conns[j], now, hz))
            && (f.Some? ==> f.value < |conns| && IsOld(conns[f.value], now, hz)
                            && forall j :: 0 <= j < |conns| && IsOld(conns[j], now, hz) ==>
                                Turn(last, |conns|, f.value) <= Turn(last, |conns|, j))
  {
    var f := FreePort(conns, last, now, hz);
    if j :| 0 <= j < |conns| && IsOld(conns[j], now, hz) {
      assert f.Some?;
    }
  }

  /** How long a connection may idle, in cycles: 30 seconds, or a day once established. */
  function Patience(c: Conn, hz: nat): nat { (if c.state == Established then 86400 else 30) * hz }

  /** The clock, which has not wrapped, is within the connection's time. */
  ghost predicate InTime(c: Conn, now: uint64, hz: nat) { c.ts <= now <= c.ts + Patience(c, hz) < TWO64 }

  /** The clock is past it. */
  ghost predicate Overdue(c: Conn, now: uint64, hz: nat) { c.ts + Patience(c, hz) < now < TWO64 }

  /** A connection within its time keeps its slot from every newcomer. Once it is overdue its slot is
      given to the next one, if all the slots that come before it in turn are within theirs. */
  lemma OfferedByClock(conns: seq<Conn>, last: nat, p: nat, now: uint64, hz: nat)
    requires last < |conns| && p < |conns|
    ensures InTime(conns[p], now, hz) ==> FreePort(conns, last, now, hz) != Some(p)
    ensures Overdue(conns[p], now, hz)
            && (forall j :: 0 <= j < |conns| && Turn(last, |conns|, j) < Turn(last, |conns|, p) ==>
                  InTime(conns[j], now, hz)) ==>
              FreePort(conns, last, now, hz) == Some(p)
  {
    FreePortRight(conns, last, now, hz);
    if InTime(conns[p], now, hz) {
      NotOldInTime(conns[p], now, hz);
    }
    if Overdue(conns[p], now, hz)
       && forall j :: 0 <= j < |conns| && Turn(last, |conns|, j) < Turn(last, |conns|, p) ==>
           InTime(conns[j], now, hz) {
      OldWhenOverdue(conns[p], now, hz);
      var f := FreePort(conns, last, now, hz).value;
      if InTime(conns[f], now, hz) { NotOldInTime(conns[f], now, hz); }
      SameTurn(last, |conns|, f, p);
    }
  }

  lemma SameTurn(last: nat, n: nat, i: nat, j: nat)
    requires last < n && i < n && j < n
    ensures Turn(last, n, i) == Turn(last, n, j) <==> i == j
  {
  }

  lemma NotOldInTime(c: Conn, now: uint64, hz: nat)
    requires InTime(c, now, hz)
    ensures !IsOld(c, now, hz)
  {
  }

  lemma OldWhenOverdue(c: Conn, now: uint64, hz: nat)
    requires Overdue(c, now, hz)
    ensures IsOld(c, now, hz)
  {
  }

  /** A slot given up by its interface keeps its state, and with it the timeout counted from zero:
      it is offered again only when the clock itself is past that timeout, a day if the connection
      was established. */
  lemma GivenUpOfferedIff(s: Svc, portId: uint16, i: nat, now: uint64, hz: nat)
    requires i < |s.conns| && s.conns[i].client.portId == portId
    ensures IsOld(WithoutIface(s, portId).conns[i], now, hz) <==>
              now > ((if s.conns[i].state == Established then TcpState.EXTENDED_TIMEOUT else TIMEOUT) * hz) % TWO64
  {
  }

  /** A table in which every slot holds an established connection of port 3. */
  function ClientNo(i: uint32): Client { Client(3, 0, i) }

  function FullTable(): Svc {
    Svc(seq(PORT_COUNT, i requires 0 <= i < PORT_COUNT => Conn(600, ClientNo(i), Established)),
        map i: nat | i < PORT_COUNT :: ClientNo(i) := i, 0)
  }

  lemma FullTableValid()
    ensures Valid(FullTable()) && forall k :: k in FullTable().open ==> k.portId == 3
  {
    var s := FullTable();
    forall k | k in s.open ensures LeadsBack(s, k) && k.portId == 3 {
      var i: nat :| i < PORT_COUNT && k == ClientNo(i);
      assert s.open[ClientNo(i)] == i;
    }
    forall i | 0 <= i < |s.conns| ensures Listed(s, i) {
      assert ClientNo(i) in s.open;
    }
  }

  lemma AllGivenUp()
    ensures var s := WithoutIface(FullTable(), 3);
            && Valid(FullTable()) && Valid(s) && s.open == map[]
            && forall i :: 0 <= i < PORT_COUNT ==> s.conns[i].ts == 0 && !IsOld(s.conns[i], 3600, 1)
  {
    FullTableValid();
    DelIfaceRight(FullTable(), 3);
    var s := WithoutIface(FullTable(), 3);
    forall i | 0 <= i < PORT_COUNT ensures s.conns[i].ts == 0 && !IsOld(s.conns[i], 3600, 1) {
      GivenUpOfferedIff(FullTable(), 3, i, 3600, 1);
    }
    assert forall k :: k in s.open ==> k in FullTable().open && k.portId != 3;
  }

  lemma NothingOffered(s: Svc, now: uint64, hz: nat, k: Client)
    requires Valid(s) && s.open == map[] && forall i :: 0 <= i < |s.conns| ==> !IsOld(s.conns[i], now, hz)
    ensures FreePort(s.conns, s.last, now, hz) == None && Requested(s, k, now, hz, None) == (s, None)
  {
    FreePortRight(s.conns, s.last, now, hz);
  }

  /** An hour after the host has started, with the interface of all its clients deleted, that table
      has no slot in use and still no port for anyone. */
  lemma GivenUpNotOffered(k: Client)
    ensures var s := WithoutIface(FullTable(), 3);
            && Valid(FullTable()) && Valid(s) && s.open == map[]
            && (forall i :: 0 <= i < PORT_COUNT ==> s.conns[i].ts == 0)
            && FreePort(s.conns, s.last, 3600, 1) == None && Requested(s, k, 3600, 1, None) == (s, None)
  {
    AllGivenUp();
    NothingOffered(WithoutIface(FullTable(), 3), 3600, 1, k);
  }

  // ---------- when a connection is established ----------

  /** The state a slot is in after packets with these flags, in either direction; None for UDP. */
  ghost function StateAfter(packets: seq<Option<bv8>>): State {
    if packets == [] then Transient else NextState(StateAfter(packets[..|packets| - 1]), packets[|packets| - 1])
  }

  ghost predicate Flags(packets: seq<Option<bv8>>, i: nat, flags: bv8) { i < |packets| && packets[i] == Some(flags) }

  /** No FIN and no RST after packet i. */
  ghost predicate OpenSince(packets: seq<Option<bv8>>, i: nat) {
    forall m :: i < m < |packets| && packets[m].Some? ==> packets[m].value & 0x01 == 0 && packets[m].value & 0x04 == 0
  }

  /** A pure SYN, nothing closed since. */
  ghost predicate Begun(packets: seq<Option<bv8>>, i: nat) { Flags(packets, i, 0x02) && OpenSince(packets, i) }

  /** A pure SYN-ACK after that. */
  ghost predicate Answered(packets: seq<Option<bv8>>, i: nat, j: nat) {
    Begun(packets, i) && i < j && Flags(packets, j, 0x12)
  }

  /** And a pure ACK after that. */
  ghost predicate Confirmed(packets: seq<Option<bv8>>, i: nat, j: nat, k: nat) {
    Answered(packets, i, j) && j < k && Flags(packets, k, 0x10)
  }

  ghost predicate HasBegun(packets: seq<Option<bv8>>) { exists i :: Begun(packets, i) }
  ghost predicate HasAnswer(packets: seq<Option<bv8>>) { exists i, j :: Answered(packets, i, j) }
  ghost predicate HasConfirmation(packets: seq<Option<bv8>>) { exists i, j, k :: Confirmed(packets, i, j, k) }

  predicate Closes(x: Option<bv8>) { x.Some? && (x.value & 0x01 != 0 || x.value & 0x04 != 0) }

  lemma BegunMore(init: seq<Option<bv8>>, x: Option<bv8>, i: nat)
    ensures Begun(init + [x], i) <==> (Begun(init, i) && !Closes(x)) || (i == |init| && x == Some(0x02))
  {
    var packets := init + [x];
    if i < |init| {
      assert packets[|init|] == x && packets[i] == init[i];
      if OpenSince(packets, i) {
        forall m | i < m < |init| && init[m].Some? ensures init[m].value & 0x01 == 0 && init[m].value & 0x04 == 0 {
          assert packets[m] == init[m];
        }
      }
    }
  }

  lemma HasBegunMore(init: seq<Option<bv8>>, x: Option<bv8>)
    ensures HasBegun(init + [x]) <==> (HasBegun(init) && !Closes(x)) || x == Some(0x02)
  {
    BegunMore(init, x, |init|);
    if i: nat :| Begun(init, i) { BegunMore(init, x, i); }
    if i: nat :| Begun(init + [x], i) { BegunMore(init, x, i); }
  }

  lemma FlagsMore(init: seq<Option<bv8>>, x: Option<bv8>, j: nat, flags: bv8)
    ensures Flags(init + [x], j, flags) <==> Flags(init, j, flags) || (j == |init| && x == Some(flags))
  {
  }

  lemma HasAnswerMore(init: seq<Option<bv8>>, x: Option<bv8>)
    ensures HasAnswer(init + [x]) <==> (HasAnswer(init) && !Closes(x)) || (HasBegun(init) && x == Some(0x12))
  {
    if i: nat, j: nat :| Answered(init, i, j) {
      BegunMore(init, x, i);
      FlagsMore(init, x, j, 0x12);
      assert !Closes(x) ==> Answered(init + [x], i, j);
    }
    if i: nat :| Begun(init, i) {
      BegunMore(init, x, i);
      FlagsMore(init, x, |init|, 0x12);
      assert x == Some(0x12) ==> Answered(init + [x], i, |init|);
    }
    if i: nat, j: nat :| Answered(init + [x], i, j) {
      BegunMore(init, x, i);
      FlagsMore(init, x, j, 0x12);
      assert Begun(init, i) && !Closes(x);
      assert j < |init| ==> Answered(init, i, j);
    }
  }

  lemma HasConfirmationMore(init: seq<Option<bv8>>, x: Option<bv8>)
    ensures HasConfirmation(init + [x]) <==>
            (HasConfirmation(init) && !Closes(x)) || (HasAnswer(init) && x == Some(0x10))
  {
    if i: nat, j: nat, k: nat :| Confirmed(init, i, j, k) {
      BegunMore(init, x, i);
      FlagsMore(init, x, j, 0x12);
      FlagsMore(init, x, k, 0x10);
      assert !Closes(x) ==> Confirmed(init + [x], i, j, k);
    }
    if i: nat, j: nat :| Answered(init, i, j) {
      BegunMore(init, x, i);
      FlagsMore(init, x, j, 0x12);
      FlagsMore(init, x, |init|, 0x10);
      assert x == Some(0x10) ==> Confirmed(init + [x], i, j, |init|);
    }
    if i: nat, j: nat, k: nat :| Confirmed(init + [x], i, j, k) {
      BegunMore(init, x, i);
      FlagsMore(init, x, j, 0x12);
      FlagsMore(init, x, k, 0x10);
      assert Answered(init, i, j) && !Closes(x);
      assert k < |init| ==> Confirmed(init, i, j, k);
    }
  }

  lemma {:induction false} HowFar(packets: seq<Option<bv8>>)
    ensures var st := StateAfter(packets);
            && (st != Transient <==> HasBegun(packets))
            && (st == TransientSynAck || st == Established <==> HasAnswer(packets))
            && (st == Established <==> HasConfirmation(packets))
  {
    if packets != [] {
      var init, x := packets[..|packets| - 1], packets[|packets| - 1];
      HowFar(init);
      HasBegunMore(init, x);
      HasAnswerMore(init, x);
      HasConfirmationMore(init, x);
      assert packets == init + [x];
    }
  }

  /** A connection of a virtual service is established exactly if its packets hold a handshake,
      whatever their directions, that nothing has closed since. */
  lemma EstablishedIff(packets: seq<Option<bv8>>)
    ensures StateAfter(packets) == Established <==> exists i, j, k :: Confirmed(packets, i, j, k)
  {
    HowFar(packets);
  }

  // ---------- requests and replies ----------

  /** A request keeps the tables inverse, unless the clock stands at zero for a known client. A
      known client keeps its slot; a new one takes over the slot found for it, whose old client is
      forgotten; nobody else is affected. It fails, leaving everything as it is, exactly if the
      client is new and no connection is old. */
  lemma RequestRight(s: Svc, k: Client, now: uint64, hz: nat, flags: Option<bv8>)
    requires Valid(s)
    ensures var (n, o) := Requested(s, k, now, hz, flags);
            && (Valid(n) <==> now != 0 || k !in s.open)
            && (o.None? <==> k !in s.open && forall j :: 0 <= j < |s.conns| ==> !IsOld(s.conns[j], now, hz))
            && (o.None? ==> n == s)
            && (k in s.open ==> o == Some(s.open[k]) && n.open == s.open)
            && (o.Some? && k !in s.open ==>
                  o.value < |s.conns| && IsOld(s.conns[o.value], now, hz) && GaveSlot(s.open, n.open, k, o.value))
  {
    var (n, o) := Requested(s, k, now, hz, flags);
    FreePortRight(s.conns, s.last, now, hz);
    if k in s.open {
      ByOpen(s, k);
      TouchKeepsIff(s, s.open[k], now, flags);
    } else if o.Some? {
      var p := o.value;
      assert n == Given(s, k, p, n.conns[p]);
      GiveOpens(s, k, p, n.conns[p]);
      GiveKeepsIff(s, k, p, n.conns[p]);
    }
  }

  /** What a request does to the slots: that of its client is dated and moves on with the packet's
      flags, from the start if the client is new; the others are untouched. The round robin goes on
      behind the slot assigned last. */
  lemma RequestSlots(s: Svc, k: Client, now: uint64, hz: nat, flags: Option<bv8>)
    requires Valid(s)
    ensures var (n, o) := Requested(s, k, now, hz, flags);
            o.Some? ==>
              && |n.conns| == |s.conns| && o.value < |s.conns|
              && n.conns[o.value].ts == now && n.conns[o.value].client == k
              && n.conns[o.value].state == (if k in s.open then NextState(s.conns[o.value].state, flags)
                                            else StateAfter([flags]))
              && n.last == (if k in s.open then s.last else o.value)
              && forall i :: 0 <= i < |s.conns| && i != o.value ==> n.conns[i] == s.conns[i]
  {
    RequestRight(s, k, now, hz, flags);
    if k in s.open { ByOpen(s, k); }
    assert [flags][..0] == [];
  }

  /** Two newcomers in a row: the second gets the first slot past the first one's whose time is over,
      going round. */
  lemma NextNewcomer(s: Svc, j: Client, k: Client, now: uint64, later: uint64, hz: nat, flags: Option<bv8>,
                     flags': Option<bv8>, q: nat)
    requires Valid(s) && j !in s.open && now != 0
    ensures var (m, o) := Requested(s, j, now, hz, flags);
            o.Some? && k !in m.open && q < |m.conns| && Overdue(m.conns[q], later, hz) ==>
              var o' := Requested(m, k, later, hz, flags').1;
              o'.Some? && o'.value < |m.conns| && Turn(o.value, |m.conns|, o'.value) <= Turn(o.value, |m.conns|, q)
  {
    var (m, o) := Requested(s, j, now, hz, flags);
    RequestRight(s, j, now, hz, flags);
    RequestSlots(s, j, now, hz, flags);
    if o.Some? && k !in m.open && q < |m.conns| && Overdue(m.conns[q], later, hz) {
      OldWhenOverdue(m.conns[q], later, hz);
      FreePortRight(m.conns, m.last, later, hz);
    }
  }

  /** What a reply does to the slots. */
  lemma ReplySlots(s: Svc, port: uint16, now: uint64, flags: Option<bv8>)
    requires Valid(s) && port >= SYSTEM_PORTS
    ensures var (n, o) := Replied(s, port, now, flags);
            var p := port - SYSTEM_PORTS;
            if !o.ToClient? then n == s else
              && |n.conns| == |s.conns| && n.last == s.last && n.conns[p].ts == now
              && n.conns[p].client == s.conns[p].client && n.conns[p].state == NextState(s.conns[p].state, flags)
              && forall i :: 0 <= i < |s.conns| && i != p ==> n.conns[i] == s.conns[i]
  {
    SlotOfIff(port, 0);
    assert SlotOf(port) == port - SYSTEM_PORTS;
  }

  /** The way back: a reply to the port a client's request left with goes to that client. */
  lemma ReplyRestores(s: Svc, k: Client, now: uint64, later: uint64, hz: nat, flags: Option<bv8>, back: Option<bv8>)
    requires Valid(s)
    ensures var (n, o) := Requested(s, k, now, hz, flags);
            o.Some? ==>
              && o.value < PORT_COUNT
              && (Replied(n, PortOf(o.value), later, back).1 == ToClient(k) <==> now != 0)
  {
    RequestRight(s, k, now, hz, flags);
    var (n, o) := Requested(s, k, now, hz, flags);
    if o.Some? {
      SlotOfIff(0, o.value);
      if k in s.open { ByOpen(s, k); }
      if now != 0 { ByOpen(n, k); }
    }
  }

  /** Any reply to a port that can have been assigned goes to the one client that has the slot, or
      nowhere, and moves no client; a reply to any other port leads past the table. */
  lemma ReplyRight(s: Svc, port: uint16, now: uint64, flags: Option<bv8>)
    requires Valid(s)
    ensures var (n, o) := Replied(s, port, now, flags);
            && n.open == s.open
            && (o == PastTable <==> port < SYSTEM_PORTS)
            && (Valid(n) <==> now != 0 || !o.ToClient?)
            && forall k :: o == ToClient(k) <==> k in s.open && PortFor(s, k) == port
  {
    SlotOfIff(port, 0);
    var p := SlotOf(port);
    if p < |s.conns| {
      assert Listed(s, p);
      if s.conns[p].ts != 0 { TouchKeepsIff(s, p, now, flags); }
    }
    forall k | k in s.open ensures Replied(s, port, now, flags).1 == ToClient(k) <==> PortFor(s, k) == port {
      ByOpen(s, k);
    }
  }

  ghost function PortFor(s: Svc, k: Client): nat
    requires k in s.open
  {
    s.open[k] + SYSTEM_PORTS
  }

  /** Distinct clients never share a port. */
  lemma DistinctPorts(s: Svc, j: Client, k: Client)
    requires Valid(s) && j in s.open && k in s.open && j != k
    ensures PortFor(s, j) != PortFor(s, k)
  {
    ByOpen(s, j);
    ByOpen(s, k);
  }

  // ---------- messages from the peer and deleted interfaces ----------

  lemma ForgetKeeps(s: Svc, k: Client)
    requires Valid(s)
    ensures Valid(Forgotten(s, k)) && Forgotten(s, k).open == s.open - {k}
  {
    var n := Forgotten(s, k);
    if k in s.open {
      ByOpen(s, k);
      forall x | x in n.open ensures LeadsBack(n, x) { assert LeadsBack(s, x); }
      forall i | 0 <= i < |n.conns| ensures Listed(n, i) { assert Listed(s, i); }
    } else {
      assert s.open - {k} == s.open;
    }
  }

  /** A message from the active instance puts the client into the slot it names and nowhere else;
      whoever had that slot is forgotten. */
  lemma SyncRight(s: Svc, k: Client, p: nat, now: uint64)
    requires Valid(s) && p < |s.conns|
    ensures var n := Synced(s, k, p, now);
            (Valid(n) <==> now != 0) && GaveSlot(s.open, n.open, k, p)
  {
    ForgetKeeps(s, k);
    var s1, n := Forgotten(s, k), Synced(s, k, p, now);
    assert n == Given(s1, k, p, n.conns[p]);
    GiveKeepsIff(s1, k, p, n.conns[p]);
    GiveOpens(s1, k, p, n.conns[p]);
  }

  /** What a message does to the slots: the one it names starts anew, the client's former one is given
      up, and the round robin goes on behind the named one. */
  lemma SyncSlots(s: Svc, k: Client, p: nat, now: uint64)
    requires Valid(s) && p < |s.conns|
    ensures var n := Synced(s, k, p, now);
            && |n.conns| == |s.conns| && n.last == p && n.conns[p] == Conn(now, k, Transient)
            && forall i :: 0 <= i < |s.conns| && i != p ==>
                 if k in s.open && s.open[k] == i then n.conns[i].ts == 0 else n.conns[i] == s.conns[i]
  {
  }

  /** Deleting an interface forgets its clients and no others. */
  lemma DelIfaceRight(s: Svc, portId: uint16)
    requires Valid(s)
    ensures var n := WithoutIface(s, portId);
            && Valid(n)
            && (forall k :: k in n.open <==> k in s.open && k.portId != portId)
            && (forall k :: k in n.open ==> n.open[k] == s.open[k])
  {
    var n := WithoutIface(s, portId);
    forall k | k in n.open ensures LeadsBack(n, k) { assert LeadsBack(s, k); }
    forall i | 0 <= i < |n.conns| ensures Listed(n, i) { assert Listed(s, i); }
  }

  // ---------- runs ----------

  datatype Event =
    | Request(k: Client, now: uint64, flags: Option<bv8>)
    | Reply(port: uint16, now: uint64, flags: Option<bv8>)
    | SyncMsg(k: Client, p: uint16, now: uint64)
    | DelIface(portId: uint16)

  /** The state after an event, if it stays within the table: neither the port of a reply nor the
      slot in a message is checked. */
  ghost function After(s: Svc, e: Event, hz: nat): Option<Svc>
    requires Valid(s)
  {
    match e
    case Request(k, now, flags) => Some(Requested(s, k, now, hz, flags).0)
    case Reply(port, now, flags) =>
      if Replied(s, port, now, flags).1 == PastTable then None else Some(Replied(s, port, now, flags).0)
    case SyncMsg(k, p, now) => if p < |s.conns| then Some(Synced(s, k, p, now)) else None
    case DelIface(portId) => Some(WithoutIface(s, portId))
  }

  predicate WithinTable(e: Event) {
    match e
    case Reply(port, _, _) => port >= SYSTEM_PORTS
    case SyncMsg(_, p, _) => p < PORT_COUNT
    case _ => true
  }

  /** The clock does not stand at zero when a slot is dated. */
  ghost predicate Timely(s: Svc, e: Event) {
    match e
    case Request(k, now, _) => now != 0 || k !in s.open
    case Reply(port, now, _) => now != 0 || forall k :: k in s.open ==> PortFor(s, k) != port
    case SyncMsg(_, _, now) => now != 0
    case DelIface(_) => true
  }

  /** What ends client k's hold of slot p: a new client taking over the slot once it is old, a
      message that moves either of them, or the end of its interface. */
  ghost predicate Ends(s: Svc, e: Event, hz: nat, k: Client, p: nat)
    requires Valid(s)
  {
    match e
    case Request(x, now, _) => x !in s.open && FreePort(s.conns, s.last, now, hz) == Some(p)
    case Reply(_, _, _) => false
    case SyncMsg(x, q, _) => (x == k) != (q == p)
    case DelIface(portId) => k.portId == portId
  }

  /** Every event that stays within the table keeps it inverse to the hash table exactly if it is
      timely, and a client loses its slot exactly to an event that ends its hold. */
  lemma StepRight(s: Svc, e: Event, hz: nat)
    requires Valid(s)
    ensures After(s, e, hz).Some? <==> WithinTable(e)
    ensures After(s, e, hz).Some? ==>
              && (Valid(After(s, e, hz).value) <==> Timely(s, e))
              && forall k, p :: Has(s, k, p) ==> (Has(After(s, e, hz).value, k, p) <==> !Ends(s, e, hz, k, p))
  {
    match e {
      case Request(k, now, flags) => RequestRight(s, k, now, hz, flags);
      case Reply(port, now, flags) => ReplyRight(s, port, now, flags);
      case SyncMsg(k, p, now) => if p < |s.conns| { SyncRight(s, k, p, now); }
      case DelIface(portId) => DelIfaceRight(s, portId);
    }
  }

  ghost predicate Has(s: Svc, k: Client, p: nat) { k in s.open && s.open[k] == p }

  ghost predicate IsRun(ss: seq<Svc>, es: seq<Event>, hz: nat) {
    && |ss| == |es| + 1 && Valid(ss[0])
    && forall i :: 0 <= i < |es| ==>
        Timely(ss[i], es[i]) && (Valid(ss[i]) ==> After(ss[i], es[i], hz) == Some(ss[i + 1]))
  }

  lemma {:induction false} RunValid(ss: seq<Svc>, es: seq<Event>, hz: nat, n: nat)
    requires IsRun(ss, es, hz) && n < |ss|
    ensures Valid(ss[n])
  {
    if n > 0 {
      RunValid(ss, es, hz, n - 1);
      StepRight(ss[n - 1], es[n - 1], hz);
    }
  }

  /** Over a whole run: as long as nothing ends its hold, a client keeps its slot, and a reply to
      its port reaches it. */
  lemma {:induction false} RunRestores(ss: seq<Svc>, es: seq<Event>, hz: nat, k: Client, p: nat, n: nat, now: uint64,
                                       flags: Option<bv8>)
    requires IsRun(ss, es, hz) && n < |ss| && Has(ss[0], k, p)
    requires forall i :: 0 <= i < n ==> (Valid(ss[i]) ==> !Ends(ss[i], es[i], hz, k, p))
    ensures Valid(ss[n]) && Has(ss[n], k, p) && p < PORT_COUNT && Replied(ss[n], PortOf(p), now, flags).1 == ToClient(k)
  {
    RunValid(ss, es, hz, n);
    if n > 0 {
      RunRestores(ss, es, hz, k, p, n - 1, now, flags);
      StepRight(ss[n - 1], es[n - 1], hz);
    }
    ByOpen(ss[n], k);
    SlotOfIff(0, p);
  }

  // ---------- how long a hold lasts ----------

  predicate HasClock(e: Event) { !e.DelIface? }

  /** The clock never goes back, and stays within start and limit. */
  ghost predicate Ticking(es: seq<Event>, start: nat, limit: nat) {
    && (forall i :: 0 <= i < |es| && HasClock(es[i]) ==> start <= es[i].now <= limit)
    && (forall i, j :: 0 <= i < j < |es| && HasClock(es[i]) && HasClock(es[j]) ==> es[i].now <= es[j].now)
  }

  /** Nothing but requests, replies, and the end of other interfaces. */
  predicate Ordinary(e: Event, k: Client) { !e.SyncMsg? && (e.DelIface? ==> e.portId != k.portId) }

  /** A packet of the connection with a FIN or RST flag. */
  predicate Closing(e: Event, k: Client, p: nat) {
    && ((e.Request? && e.k == k) || (e.Reply? && e.port == p + SYSTEM_PORTS))
    && e.flags.Some? && TcpState.Packet(e.flags.value, TcpState.Org).Ends()
  }

  /** The connection has until limit: as one that is not established, or as one that is and that no
      packet closes. */
  ghost predicate HasUntil(c: Conn, hz: nat, limit: nat, closes: bool) {
    limit <= c.ts + 30 * hz || (c.state == Established && limit <= c.ts + 86400 * hz && !closes)
  }

  /** One event within the time: the slot stays, and a packet of the connection makes its time run
      anew. */
  lemma HoldStep(s: Svc, e: Event, hz: nat, k: Client, p: nat, limit: nat, n: Svc)
    requires Valid(s) && Has(s, k, p) && p < |s.conns| && HasUntil(s.conns[p], hz, limit, Closing(e, k, p))
    requires Ordinary(e, k) && Timely(s, e) && After(s, e, hz) == Some(n) && limit + 86400 * hz < TWO64
    requires HasClock(e) ==> s.conns[p].ts <= e.now <= limit
    requires s.conns[p].ts <= limit
    ensures Valid(n) && Has(n, k, p) && p < |n.conns| && HasUntil(n.conns[p], hz, limit, Closing(e, k, p))
    ensures n.conns[p].ts == s.conns[p].ts || (HasClock(e) && n.conns[p].ts == e.now)
  {
    StepRight(s, e, hz);
    ByOpen(s, k);
    if e.Request? && e.k !in s.open {
      OfferedByClock(s.conns, s.last, p, e.now, hz);
    }
    assert !Ends(s, e, hz, k, p);
  }

  /** Over every run of requests and replies a connection keeps its slot and gets its replies for 30
      seconds after its last packet, or for a day if it is established and not closed. */
  lemma {:induction false} HeldInTime(ss: seq<Svc>, es: seq<Event>, hz: nat, k: Client, p: nat, limit: nat,
                                      closes: bool, n: nat, now: uint64, flags: Option<bv8>)
    requires IsRun(ss, es, hz) && n < |ss| && Has(ss[0], k, p) && p < |ss[0].conns|
    requires forall i :: 0 <= i < |es| ==> Ordinary(es[i], k) && (Closing(es[i], k, p) ==> closes)
    requires ss[0].conns[p].ts <= limit && Ticking(es, ss[0].conns[p].ts, limit) && limit + 86400 * hz < TWO64
    requires HasUntil(ss[0].conns[p], hz, limit, closes)
    ensures Valid(ss[n]) && Has(ss[n], k, p) && p < PORT_COUNT && HasUntil(ss[n].conns[p], hz, limit, closes)
    ensures ss[n].conns[p].ts <= limit
            && forall j :: n <= j < |es| && HasClock(es[j]) ==> ss[n].conns[p].ts <= es[j].now
    ensures Replied(ss[n], PortOf(p), now, flags).1 == ToClient(k)
  {
    if n > 0 {
      HeldInTime(ss, es, hz, k, p, limit, closes, n - 1, now, flags);
      HoldStep(ss[n - 1], es[n - 1], hz, k, p, limit, ss[n]);
    }
    ByOpen(ss[n], k);
    SlotOfIff(0, p);
  }
}
