/** After a takeover: whether a new standby, filled by a dump of the new active, is in sync with it. */
module SecondStandby {
  import opened Words
  import opened FlowKeys
  import opened NatTables
  import opened SyncProtocol
  import opened Conntrack
  import opened Failover
  import opened NatFlows
  import opened Replication
  import opened Takeover

  /** A restored flow: made of this entry and filed under its two keys. */
  ghost predicate Remade(n: Flows, id: nat, e: Entry) {
    MadeOf(n, id, e) && n.vals[id].Owned() == Some(e.Allocation()) && KeysOf(n.table, id) == {e.Org(), e.Reply()}
  }

  lemma RemadeOf(n: Flows, u: Tables, entries: seq<Entry>, id: nat) returns (e: Entry)
    requires AllMade(n, u, entries) && RefsRight(n.table, n.vals) && id in n.vals
    requires forall x :: x in entries ==> x.FromPacket()
    ensures e in entries && Remade(n, id, e)
  {
    e :| e in entries && MadeOf(n, id, e);
    assert RefCounted(n.table, n.vals[id], id);
    assert KeysOf(n.table, id) <= {e.Org(), e.Reply()};
    TwoOfTwo(KeysOf(n.table, id), e.Org(), e.Reply());
    StoredOrgIff(e.ok, e.meta);
  }

  /** A dump comes by a restored flow exactly if its client is an IPv4 one. */
  lemma RemadeDumpableIff(n: Flows, id: nat, e: Entry)
    requires Remade(n, id, e)
    ensures Dumpable(n, id) <==> e.meta.pk.srcIp.V4?
  {
    StoredOrgIff(e.ok, e.meta);
    assert n.vals[id].org in KeysOf(n.table, id) <==> n.vals[id].org in n.table && n.table[n.vals[id].org] == id;
  }

  ghost predicate AllIpv4(l: Ledger) { forall id :: id in l ==> l[id].pk.srcIp.V4? }

  lemma EntryAt(entries: seq<Entry>, e: Entry)
    requires e in entries
    ensures Records(AllocsOf(entries), e.Allocation())
  {
    var j: nat :| j < |entries| && entries[j] == e;
    var m := AllocsOf(entries);
    assert j in m && m[j] == e.Allocation();
  }

  lemma RemadeRecorded(n: Flows, u: Tables, entries: seq<Entry>, id: nat)
    requires AllMade(n, u, entries) && RefsRight(n.table, n.vals) && forall x :: x in entries ==> x.FromPacket()
    requires id in n.vals && n.vals[id].Owned().Some?
    ensures Records(AllocsOf(entries), n.vals[id].Owned().value)
  {
    var e := RemadeOf(n, u, entries, id);
    EntryAt(entries, e);
  }

  lemma CarriedRecorded(n: Flows, j: nat, e: Entry)
    requires Carries(n, j, e)
    ensures Records(LedgerOf(n.vals), e.Allocation())
  {
    var l := LedgerOf(n.vals);
    assert j in l && l[j] == e.Allocation();
  }

  /** The restored flows own what the entries say. */
  lemma RemadeLedger(n: Flows, u: Tables, entries: seq<Entry>)
    requires AllMade(n, u, entries) && RefsRight(n.table, n.vals) && forall x :: x in entries ==> x.FromPacket()
    requires forall j :: 0 <= j < |entries| ==> Carries(n, j, entries[j])
    ensures SameAllocs(LedgerOf(n.vals), AllocsOf(entries))
  {
    forall id | id in LedgerOf(n.vals) ensures Records(AllocsOf(entries), LedgerOf(n.vals)[id]) {
      RemadeRecorded(n, u, entries, id);
    }
    forall j: nat | j < |entries| ensures Records(LedgerOf(n.vals), entries[j].Allocation()) {
      CarriedRecorded(n, j, entries[j]);
    }
  }

  lemma SameAllIpv4(l: Ledger, m: Ledger)
    requires forall j :: j in m ==> Records(l, m[j])
    ensures AllIpv4(l) ==> AllIpv4(m)
  {
    if AllIpv4(l) {
      forall j | j in m ensures m[j].pk.srcIp.V4? {
        assert Records(l, m[j]);
      }
    }
  }

  lemma AllDumpableIff(n: Flows, u: Tables, entries: seq<Entry>)
    requires AllMade(n, u, entries) && RefsRight(n.table, n.vals) && forall x :: x in entries ==> x.FromPacket()
    ensures (forall id :: id in LedgerOf(n.vals) ==> Dumpable(n, id)) <==> AllIpv4(LedgerOf(n.vals))
  {
    var l := LedgerOf(n.vals);
    forall id | id in l ensures Dumpable(n, id) <==> l[id].pk.srcIp.V4? {
      var e := RemadeOf(n, u, entries, id);
      RemadeDumpableIff(n, id, e);
    }
  }

  lemma SameOneAddress(t: Tables, l: Ledger, u: Tables, m: Ledger)
    requires OneAddress(t, l) && Same(u, t) && forall j :: j in m ==> Records(l, m[j])
    ensures OneAddress(u, m)
  {
    forall j | j in m ensures m[j].pk in u.portmap && u.portmap[m[j].pk].natIp == m[j].ok.natIp {
      assert Records(l, m[j]);
    }
  }

  lemma {:induction false} SameAllocsTrans(l: Ledger, m: Ledger, k: Ledger)
    requires SameAllocs(l, m) && SameAllocs(m, k)
    ensures SameAllocs(l, k)
  {
    forall i | i in l ensures Records(k, l[i]) {
      assert Records(m, l[i]);
      var j :| j in m && m[j] == l[i];
      assert Records(k, m[j]);
    }
    forall i | i in k ensures Records(l, k[i]) {
      assert Records(m, k[i]);
      var j :| j in m && m[j] == k[i];
      assert Records(l, m[j]);
    }
  }

  /** The new active has its predecessor's allocations. */
  lemma RestoredLedger(s: Flows, u: Tables, entries: seq<Entry>, now: uint64, timeout: nat)
    requires Ready(s, u, entries) && Restorable(s)
    ensures var n := RestoredAll(Standby(u), entries, now, timeout);
            && Inv(n) && AllMade(n, u, entries) && (forall x :: x in entries ==> x.FromPacket())
            && SameAllocs(LedgerOf(s.vals), LedgerOf(n.vals))
  {
    var n := RestoredAll(Standby(u), entries, now, timeout);
    RestorableDistinct(s, u, entries);
    EntriesTracked(s, u, entries);
    FailoverIff(u, entries, now, timeout);
    AllAreMade(u, entries, now, timeout);
    RemadeLedger(n, u, entries);
    EntriesAreLedger(s, u, entries);
    SameAllocsTrans(LedgerOf(s.vals), AllocsOf(entries), LedgerOf(n.vals));
  }

  /** After a takeover that worked, a standby that starts and is sent a full dump is in sync with
      the new active exactly if no client of the old one was behind NAT64. */
  lemma SecondStandbyIff(s: Flows, u: Tables, entries: seq<Entry>, now: uint64, timeout: nat, order: seq<nat>)
    requires Ready(s, u, entries) && Restorable(s) && OnOneAddress(s)
    requires ListsAll(RestoredAll(Standby(u), entries, now, timeout), order)
    ensures var n := RestoredAll(Standby(u), entries, now, timeout);
            InSync(n, ApplyAll(EMPTY, DumpOf(n, order))) <==> AllIpv4(LedgerOf(s.vals))
  {
    var n := RestoredAll(Standby(u), entries, now, timeout);
    var l, m := LedgerOf(s.vals), LedgerOf(n.vals);
    RestoredLedger(s, u, entries, now, timeout);
    RestoredTables(s, u, entries, now, timeout);
    SameOneAddress(s.nats, l, u, m);
    FreshStandbyIff(n, order);
    AllDumpableIff(n, u, entries);
    SameAllIpv4(l, m);
    SameAllIpv4(m, l);
  }

  // ---------- a NAT64 flow ----------

  /** The client 2001:db8::1 talks to port 80 of the IPv4 host 8. */
  const CLIENT6: Ipv6 := [0x20, 1, 0xd, 0xb8, 0, 0, 0, 0, 0, 0, 0, 0, 0, 0, 0, 1]
  const TO_IPV4: Ask :=
    Ask(Headers(Ip6(CLIENT6, Embed(8)), TCP, 1000, 80, 0, 0, 0, None), Virtual(7, true, false), 9, 5000, 6000, 0)
  const NAT64_KEY: FlowKey := FlowKey(V6(Embed(8)), TCP, 80, V6(CLIENT6), Nat, 1000, 7)
  const NAT64_INFO: Info := Info(1, 30, 4, ZERO_IPV6)

  lemma Nat64Key()
    ensures BuildKey(TO_IPV4.h, TO_IPV4.ing, Undefined) == Some(NAT64_KEY) && Natted(TO_IPV4.h, TO_IPV4.ing)
    ensures !TO_IPV4.Untranslatable() && Invert(NAT64_KEY) != NAT64_KEY
  {
    EmbedRoundTrip(8, ZERO_IPV6);
  }

  ghost function Arrived64(): Flows { Looked(Standby(EMPTY), NAT64_KEY, NAT64_INFO).0 }

  lemma Nat64Arrives()
    ensures var s := Arrived64();
            && Granted(s, 0, TO_IPV4, Undefined) && s.nats == EMPTY && s.vals == map[0 := s.vals[0]]
            && s.vals[0].org == NAT64_KEY && s.vals[0].reply == Invert(NAT64_KEY) && s.vals[0].info.port == 4
            && s.table == map[NAT64_KEY := 0][Invert(NAT64_KEY) := 0]
  {
    Nat64Key();
    StandbyInv();
    LookRight(Standby(EMPTY), NAT64_KEY, NAT64_INFO);
    assert TO_IPV4.Outcome(EMPTY).Done?;
  }

  ghost function Nat64Msg(): Msg
    requires 0 in Arrived64().vals && TO_IPV4.Outcome(Arrived64().nats).Done?
  {
    CreateMsg(Arrived64(), 0, TO_IPV4)
  }

  ghost function Nat64(): Flows
    requires 0 in Arrived64().vals
  {
    Snatted(Arrived64(), 0, TO_IPV4, true)
  }

  /** Both instances from their start on: the packet arrives, gets its port, and the backup hears. */
  ghost function Pairs(): seq<Ha>
    requires 0 in Arrived64().vals && TO_IPV4.Outcome(Arrived64().nats).Done?
  {
    [START, Ha(Arrived64(), [], EMPTY), Ha(Nat64(), [Nat64Msg()], EMPTY), Ha(Nat64(), [], Apply(EMPTY, Nat64Msg()))]
  }

  const NAT64_EVENTS: seq<Event> :=
    [Acts(Arrives(NAT64_KEY, NAT64_INFO)), Acts(Hides(0, TO_IPV4, Undefined, true)), Event.Delivers]

  lemma Nat64Safe()
    ensures var s := Arrived64();
            0 in s.vals && TO_IPV4.Outcome(s.nats).Done? && NewReply(s, 0, TO_IPV4) !in s.table
            && OnlyFlow(s, TO_IPV4, Undefined) && SnatSafe(s, 0, TO_IPV4, true)
  {
    Nat64Arrives();
    Nat64Key();
    var reply := NewReply(Arrived64(), 0, TO_IPV4);
    assert reply.l3Dst == V4(9);
  }

  lemma Nat64Step0()
    ensures var e := Acts(Arrives(NAT64_KEY, NAT64_INFO));
            Inv(START.active) && Replication.Enabled(START, e) && Ha(Arrived64(), [], EMPTY) == After(START, e)
  {
    StandbyInv();
    Nat64Key();
  }

  ghost predicate Leads(h: Ha, e: Event, h': Ha) {
    Inv(h.active) && Replication.Enabled(h, e) && h' == After(h, e)
  }

  /** The first packet of the only flow gets its port, and the backup is told. */
  lemma HidesLeads(s: Flows, q: Ask)
    requires Granted(s, 0, q, Undefined) && SnatSafe(s, 0, q, true)
    ensures Leads(Ha(s, [], EMPTY), Acts(Hides(0, q, Undefined, true)),
                  Ha(Snatted(s, 0, q, true), [CreateMsg(s, 0, q)], EMPTY))
  {
    var t := Hides(0, q, Undefined, true);
    assert Sent(s, t) == [CreateMsg(s, 0, q)];
    assert [] + [CreateMsg(s, 0, q)] == [CreateMsg(s, 0, q)];
  }

  lemma HidesOneAddress(s: Flows, q: Ask)
    requires Granted(s, 0, q, Undefined) && SnatSafe(s, 0, q, true) && s.nats == EMPTY
    ensures OnOneAddress(Snatted(s, 0, q, true))
  {
    var t := Hides(0, q, Undefined, true);
    forall i | i in LedgerOf(s.vals) ensures false { OwnWire(LedgerOf(s.vals), i); }
    Replication.AddressKeptIff(s, t);
  }

  lemma Nat64Step1()
    ensures 0 in Arrived64().vals && TO_IPV4.Outcome(Arrived64().nats).Done?
    ensures Leads(Ha(Arrived64(), [], EMPTY), Acts(Hides(0, TO_IPV4, Undefined, true)),
                  Ha(Nat64(), [Nat64Msg()], EMPTY))
  {
    Nat64Arrives();
    Nat64Safe();
    HidesLeads(Arrived64(), TO_IPV4);
  }

  lemma Nat64Good()
    ensures 0 in Arrived64().vals && TO_IPV4.Outcome(Arrived64().nats).Done?
    ensures Good(Ha(Nat64(), [Nat64Msg()], EMPTY))
  {
    StartGood();
    Nat64Step0();
    EventKeepsGood(START, Acts(Arrives(NAT64_KEY, NAT64_INFO)));
    Nat64Step1();
    EventKeepsGood(Ha(Arrived64(), [], EMPTY), Acts(Hides(0, TO_IPV4, Undefined, true)));
  }

  lemma Delivered(s: Flows, m: Msg)
    requires Inv(s)
    ensures After(Ha(s, [m], EMPTY), Event.Delivers) == Ha(s, [], Apply(EMPTY, m))
  {
    assert [m][1..] == [];
  }

  lemma ThreeSteps(hs: seq<Ha>, es: seq<Event>)
    requires |hs| == 4 && |es| == 3
    requires Leads(hs[0], es[0], hs[1]) && Leads(hs[1], es[1], hs[2]) && Leads(hs[2], es[2], hs[3])
    ensures Steps(hs, es)
  {
    forall k | 0 <= k < |es|
      ensures Replication.Enabled(hs[k], es[k]) && (Inv(hs[k].active) ==> hs[k + 1] == After(hs[k], es[k]))
    {
      assert k == 0 || k == 1 || k == 2;
    }
  }

  lemma Nat64Steps()
    ensures 0 in Arrived64().vals && TO_IPV4.Outcome(Arrived64().nats).Done? && Steps(Pairs(), NAT64_EVENTS)
  {
    Nat64Step0();
    Nat64Step1();
    Nat64Good();
    Delivered(Nat64(), Nat64Msg());
    ThreeSteps(Pairs(), NAT64_EVENTS);
  }

  /** What the backup was told, as the one entry of its table. */
  ghost function Nat64Entry(): Entry
    requires 0 in Arrived64().vals && TO_IPV4.Outcome(Arrived64().nats).Done?
  {
    Entry(Nat64Msg().a.ok, Nat64Msg().meta)
  }

  /** A backup that has heard of one allocation. */
  lemma OneReady(s: Flows, m: Msg)
    requires Good(Ha(s, [m], EMPTY)) && m.NatCreate?
    ensures Ready(s, Apply(EMPTY, m), [Entry(m.a.ok, m.meta)])
  {
    ApplyAllAppend(EMPTY, [], m);
    assert [] + [m] == [m];
    assert Apply(EMPTY, m).overload == map[m.a.ok := Some(m.meta)];
  }

  lemma Nat64OneAddress()
    ensures 0 in Arrived64().vals && OnOneAddress(Nat64())
  {
    Nat64Arrives();
    Nat64Safe();
    HidesOneAddress(Arrived64(), TO_IPV4);
  }

  lemma Nat64Restorable()
    ensures 0 in Arrived64().vals && Restorable(Nat64()) && 0 in Nat64().vals
  {
    Nat64Arrives();
    Nat64Safe();
    OnlyFlowTranslated(Arrived64(), TO_IPV4, Undefined);
    SnatMoved(Arrived64(), 0, TO_IPV4, Undefined);
  }

  lemma Nat64Ledger()
    ensures 0 in Arrived64().vals && !AllIpv4(LedgerOf(Nat64().vals))
  {
    Nat64Arrives();
    Nat64Safe();
    SnatMoved(Arrived64(), 0, TO_IPV4, Undefined);
    var l := LedgerOf(Nat64().vals);
    assert 0 in l && l[0] == Got(Arrived64(), TO_IPV4);
  }

  lemma UnlistedOne(n: Flows, u: Tables, entries: seq<Entry>, id: nat)
    requires AllMade(n, u, entries) && RefsRight(n.table, n.vals)
    requires forall e :: e in entries ==> e.FromPacket() && e.meta.pk.srcIp.V6?
    ensures !Dumpable(n, id)
  {
    if id in n.vals {
      var e := RemadeOf(n, u, entries, id);
      RemadeDumpableIff(n, id, e);
    }
  }

  /** With none but NAT64 clients, the new active's dump is empty. */
  lemma NothingListed(s: Flows, u: Tables, entries: seq<Entry>, now: uint64, timeout: nat)
    requires Ready(s, u, entries) && Restorable(s) && forall e :: e in entries ==> e.meta.pk.srcIp.V6?
    ensures ListsAll(RestoredAll(Standby(u), entries, now, timeout), [])
  {
    var n := RestoredAll(Standby(u), entries, now, timeout);
    RestoredLedger(s, u, entries, now, timeout);
    forall id ensures !Dumpable(n, id) {
      UnlistedOne(n, u, entries, id);
    }
  }

  /** The backup has heard everything and takes over well. The new active's dump is empty, and a
      standby that gets it is not in sync. */
  ghost predicate LostLater(h: Ha, entries: seq<Entry>, now: uint64, timeout: nat) {
    var n := RestoredAll(Standby(h.backup), entries, now, timeout);
    && h.link == [] && Enumerates(h.backup, entries) && TookOver(h.active, n)
    && ListsAll(n, []) && !InSync(n, ApplyAll(EMPTY, DumpOf(n, [])))
  }

  lemma AllLostLater(s: Flows, u: Tables, entries: seq<Entry>, now: uint64, timeout: nat)
    requires Ready(s, u, entries) && Restorable(s) && OnOneAddress(s) && !AllIpv4(LedgerOf(s.vals))
    requires forall e :: e in entries ==> e.meta.pk.srcIp.V6?
    ensures LostLater(Ha(s, [], u), entries, now, timeout)
  {
    TakeoverIff(s, u, entries, now, timeout);
    NothingListed(s, u, entries, now, timeout);
    SecondStandbyIff(s, u, entries, now, timeout, []);
  }

  /** The backup's first message is under way, about a NAT64 client. */
  ghost predicate FirstOfNat64(s: Flows, m: Msg) {
    && Good(Ha(s, [m], EMPTY)) && Restorable(s) && OnOneAddress(s) && !AllIpv4(LedgerOf(s.vals))
    && m.NatCreate? && m.meta.pk.srcIp.V6?
  }

  lemma FirstLost(s: Flows, m: Msg, now: uint64, timeout: nat)
    requires FirstOfNat64(s, m)
    ensures LostLater(Ha(s, [], Apply(EMPTY, m)), [Entry(m.a.ok, m.meta)], now, timeout)
  {
    OneReady(s, m);
    AllLostLater(s, Apply(EMPTY, m), [Entry(m.a.ok, m.meta)], now, timeout);
  }

  lemma Nat64First()
    ensures 0 in Arrived64().vals && TO_IPV4.Outcome(Arrived64().nats).Done? && FirstOfNat64(Nat64(), Nat64Msg())
  {
    Nat64Good();
    Nat64Restorable();
    Nat64OneAddress();
    Nat64Ledger();
  }

  lemma Nat64Lost(now: uint64, timeout: nat)
    ensures 0 in Arrived64().vals && TO_IPV4.Outcome(Arrived64().nats).Done?
    ensures LostLater(Ha(Nat64(), [], Apply(EMPTY, Nat64Msg())), [Nat64Entry()], now, timeout)
  {
    Nat64First();
    FirstLost(Nat64(), Nat64Msg(), now, timeout);
  }

  /** A NAT64 flow that the second standby never hears of, whatever the clock. */
  lemma Nat64LostLater(now: uint64, timeout: nat)
    ensures 0 in Arrived64().vals && TO_IPV4.Outcome(Arrived64().nats).Done?
    ensures Steps(Pairs(), NAT64_EVENTS) && LostLater(Pairs()[3], [Nat64Entry()], now, timeout)
  {
    Nat64Steps();
    Nat64Lost(now, timeout);
  }
}
