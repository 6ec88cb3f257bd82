/** From replication to failover: what becomes of the active's NAT flows when a backup that has
    heard of all of them takes over. */
module Takeover {
  import opened Words
  import opened FlowKeys
  import opened NatTables
  import opened SyncProtocol
  import opened Conntrack
  import opened Failover
  import opened NatFlows
  import opened Replication
  import opened Sweeps

  // ---------- the same ledger under other names ----------

  /** The entries list the table, each wire key once. */
  ghost predicate Enumerates(u: Tables, entries: seq<Entry>) {
    && (forall ok :: ok in u.overload ==> u.overload[ok].Some? && Entry(ok, u.overload[ok].value) in entries)
    && (forall e :: e in entries ==> e.ok in u.overload && u.overload[e.ok] == Some(e.meta))
    && (forall j, k :: 0 <= j < k < |entries| ==> entries[j].ok != entries[k].ok)
  }

  ghost function WiresOf(l: Ledger, ids: set<nat>): set<OverloadKey>
    requires ids <= l.Keys
  {
    set i | i in ids :: l[i].ok
  }

  /** A client's allocations can be counted by their wire keys. */
  lemma {:induction false} CountByWire(l: Ledger, ids: set<nat>)
    requires OneOwner(l) && ids <= l.Keys
    ensures |WiresOf(l, ids)| == |ids|
    decreases ids
  {
    if ids == {} {
      assert WiresOf(l, ids) == {};
    } else {
      var i :| i in ids;
      CountByWire(l, ids - {i});
      assert WiresOf(l, ids) == WiresOf(l, ids - {i}) + {l[i].ok};
      assert l[i].ok !in WiresOf(l, ids - {i});
    }
  }

  /** Two ledgers that have the same allocations under different names. */
  ghost predicate SameAllocs(l: Ledger, m: Ledger) {
    (forall i :: i in l ==> Records(m, l[i])) && (forall j :: j in m ==> Records(l, m[j]))
  }

  ghost predicate Records(l: Ledger, a: Alloc) { exists i :: i in l && l[i] == a }

  lemma SameWires(l: Ledger, m: Ledger)
    requires forall i :: i in l ==> Records(m, l[i])
    ensures Wires(l) <= Wires(m)
  {
    forall ok | ok in Wires(l) ensures ok in Wires(m) {
      var i :| i in l && l[i].ok == ok;
      assert Records(m, l[i]);
      var j :| j in m && m[j] == l[i];
    }
  }

  lemma SameUsers(l: Ledger, m: Ledger, pk: PortmapKey)
    requires OneOwner(l) && OneOwner(m) && SameAllocs(l, m)
    ensures |Users(l, pk)| == |Users(m, pk)|
  {
    CountByWire(l, Users(l, pk));
    CountByWire(m, Users(m, pk));
    var a, b := WiresOf(l, Users(l, pk)), WiresOf(m, Users(m, pk));
    forall ok | ok in a ensures ok in b {
      var i :| i in Users(l, pk) && l[i].ok == ok;
      assert Records(m, l[i]);
      var j :| j in m && m[j] == l[i];
      assert j in Users(m, pk);
    }
    forall ok | ok in b ensures ok in a {
      var j :| j in Users(m, pk) && m[j].ok == ok;
      assert Records(l, m[j]);
      var i :| i in l && l[i] == m[j];
      assert i in Users(l, pk);
    }
    assert a == b;
  }

  lemma RelabelTracks(t: Tables, l: Ledger, u: Tables, m: Ledger)
    requires Tracks(t, l) && Same(u, t) && OneOwner(m) && SameAllocs(l, m)
    ensures Tracks(u, m)
  {
    SameWires(l, m);
    SameWires(m, l);
    forall pk ensures Counted(u, m, pk) {
      assert Counted(t, l, pk);
      SameUsers(l, m, pk);
    }
    forall j | j in m ensures Placed(u, m[j]) {
      assert Records(l, m[j]);
      var i :| i in l && l[i] == m[j];
      assert Placed(t, l[i]);
    }
  }

  lemma EntriesOwnWires(u: Tables, entries: seq<Entry>)
    requires Enumerates(u, entries)
    ensures OneOwner(AllocsOf(entries))
  {
    var m := AllocsOf(entries);
    forall i, j | i in m && j in m && m[i].ok == m[j].ok ensures i == j {
      assert entries[i].ok == entries[j].ok;
    }
  }

  // ---------- entries and flows ----------

  /** A backup with the active's tables, and its entries in some order. */
  ghost predicate Ready(s: Flows, u: Tables, entries: seq<Entry>) {
    Inv(s) && Shaped(s) && InSync(s, u) && Enumerates(u, entries)
  }

  /** Entry e is that of flow v, and its keys are the ones restored for it. */
  ghost predicate Matches(e: Entry, v: FlowVal) {
    v.Owned() == Some(e.Allocation()) && e.Org() == EntryFor(v).Org() && e.Reply() == EntryFor(v).Reply()
  }

  lemma TaggedMatches(u: Tables, v: FlowVal, e: Entry)
    requires TaggedVal(u, v) && v.Owned().Some? && e.ok == v.Owned().value.ok && e.ok in u.overload
             && u.overload[e.ok] == Some(e.meta)
    ensures Matches(e, v)
  {
    SameRestored(e.ok, e.meta, EntryFor(v).meta);
  }

  lemma FlowOf(s: Flows, u: Tables, entries: seq<Entry>, e: Entry) returns (id: nat)
    requires Ready(s, u, entries) && e in entries
    ensures id in s.vals && Matches(e, s.vals[id])
  {
    var l := LedgerOf(s.vals);
    assert e.ok in u.overload.Keys && e.ok in Wires(l);
    id :| id in l && l[id].ok == e.ok;
    assert TaggedVal(u, s.vals[id]);
    TaggedMatches(u, s.vals[id], e);
  }

  lemma EntryOf(s: Flows, u: Tables, entries: seq<Entry>, id: nat) returns (j: nat)
    requires Ready(s, u, entries) && id in s.vals && s.vals[id].Owned().Some?
    ensures j < |entries| && Matches(entries[j], s.vals[id])
  {
    assert TaggedVal(u, s.vals[id]);
    var ok := s.vals[id].Owned().value.ok;
    var e := Entry(ok, u.overload[ok].value);
    j :| 0 <= j < |entries| && entries[j] == e;
    TaggedMatches(u, s.vals[id], e);
  }

  lemma FlowRecorded(s: Flows, u: Tables, entries: seq<Entry>, id: nat)
    requires Ready(s, u, entries) && id in s.vals && s.vals[id].Owned().Some?
    ensures Records(AllocsOf(entries), s.vals[id].Owned().value)
  {
    var j := EntryOf(s, u, entries, id);
    var m := AllocsOf(entries);
    assert j in m && m[j] == s.vals[id].Owned().value;
  }

  lemma EntryRecorded(s: Flows, u: Tables, entries: seq<Entry>, j: nat)
    requires Ready(s, u, entries) && j < |entries|
    ensures Records(LedgerOf(s.vals), entries[j].Allocation())
  {
    var id := FlowOf(s, u, entries, entries[j]);
    var l := LedgerOf(s.vals);
    assert id in l && l[id] == entries[j].Allocation();
  }

  lemma EntriesAreLedger(s: Flows, u: Tables, entries: seq<Entry>)
    requires Ready(s, u, entries)
    ensures SameAllocs(LedgerOf(s.vals), AllocsOf(entries))
  {
    forall id | id in LedgerOf(s.vals) ensures Records(AllocsOf(entries), LedgerOf(s.vals)[id]) {
      FlowRecorded(s, u, entries, id);
    }
    forall j: nat | j < |entries| ensures Records(LedgerOf(s.vals), entries[j].Allocation()) {
      EntryRecorded(s, u, entries, j);
    }
  }

  lemma EntriesTracked(s: Flows, u: Tables, entries: seq<Entry>)
    requires Ready(s, u, entries)
    ensures Tracks(u, AllocsOf(entries))
  {
    EntriesAreLedger(s, u, entries);
    EntriesOwnWires(u, entries);
    RelabelTracks(s.nats, LedgerOf(s.vals), u, AllocsOf(entries));
  }

  // ---------- which flows can be restored ----------

  /** The flow has both its keys, and its reply is not ICMPv6. */
  ghost predicate RestorableVal(v: FlowVal) { v.natType == NetworkLocal ==> v.refs == 2 && v.reply.proto != ICMPV6 }

  ghost predicate Restorable(s: Flows) { forall id :: id in s.vals ==> RestorableVal(s.vals[id]) }

  /** A flow's keys are the two restored for it exactly if it is restorable. */
  lemma NatKeysIff(s: Flows, id: nat, e: Entry)
    requires Inv(s) && Shaped(s) && id in s.vals && Matches(e, s.vals[id])
    ensures KeysOf(s.table, id) == {e.Org(), e.Reply()} && e.Org() != e.Reply() <==> RestorableVal(s.vals[id])
  {
    var v, keys := s.vals[id], KeysOf(s.table, id);
    assert ValShaped(v) && RefCounted(s.table, v, id);
    forall k | k in keys ensures k == e.Org() || k == v.reply { assert KeyShaped(s.vals[s.table[k]], k); }
    assert keys <= {e.Org(), v.reply};
    if v.refs == 2 {
      TwoOfTwo(keys, e.Org(), v.reply);
    }
    if keys == {e.Org(), e.Reply()} && e.Org() != e.Reply() {
      assert e.Reply() in keys;
    }
  }

  lemma TwoOfTwo<T>(s: set<T>, a: T, b: T)
    requires s <= {a, b} && |s| == 2
    ensures s == {a, b} && a != b
  {
    if a !in s || b !in s || a == b {
      var c := if a in s then a else b;
      assert s <= {c};
      SubsetCard(s, {c});
    }
  }

  lemma OtherKeys(s: Flows, j: nat, a: Entry, k: nat, b: Entry)
    requires KeysOf(s.table, j) == {a.Org(), a.Reply()} && KeysOf(s.table, k) == {b.Org(), b.Reply()} && j != k
    ensures !a.Shares(b)
  {
    assert a.Org() in KeysOf(s.table, j) && a.Reply() in KeysOf(s.table, j);
    assert b.Org() in KeysOf(s.table, k) && b.Reply() in KeysOf(s.table, k);
  }

  /** The keys of restorable flows cannot meet: the active's own table keeps them apart. */
  lemma RestorableDistinct(s: Flows, u: Tables, entries: seq<Entry>)
    requires Ready(s, u, entries) && Restorable(s)
    ensures DistinctKeys(entries)
  {
    forall k | 0 <= k < |entries| ensures entries[k].Org() != entries[k].Reply() && entries[k].FromPacket() {
      var id := FlowOf(s, u, entries, entries[k]);
      NatKeysIff(s, id, entries[k]);
    }
    forall j, k | 0 <= j < k < |entries| ensures !entries[k].Shares(entries[j]) {
      var a := FlowOf(s, u, entries, entries[j]);
      var b := FlowOf(s, u, entries, entries[k]);
      NatKeysIff(s, a, entries[j]);
      NatKeysIff(s, b, entries[k]);
      assert a != b;
      OtherKeys(s, b, entries[k], a, entries[j]);
    }
  }

  // ---------- taking over ----------

  /** Both keys lead to flows that own the same and began at the same port. */
  ghost predicate LedAlike(s: Flows, n: Flows, k: FlowKey)
    requires InNatPart(s, k)
  {
    && k in n.table && n.table[k] in n.vals
    && n.vals[n.table[k]].Owned() == s.vals[s.table[k]].Owned()
    && n.vals[n.table[k]].info.port == s.vals[s.table[k]].info.port
  }

  /** n's flows are s's NAT flows. */
  ghost predicate SameNatPart(s: Flows, n: Flows) {
    (forall k :: k in n.table ==> InNatPart(s, k)) && (forall k :: InNatPart(s, k) ==> LedAlike(s, n, k))
  }

  /** n is a good state whose flows are the NAT flows of s. */
  ghost predicate TookOver(s: Flows, n: Flows) { Inv(n) && SameNatPart(s, n) }

  ghost predicate InNatPart(s: Flows, k: FlowKey) {
    k in s.table && s.table[k] in s.vals && s.vals[s.table[k]].natType == NetworkLocal
  }

  lemma RestoredIds(t: Tables, entries: seq<Entry>, now: uint64, timeout: nat)
    requires DistinctKeys(entries)
    ensures forall k :: k in RestoredAll(Standby(t), entries, now, timeout).table ==>
              RestoredAll(Standby(t), entries, now, timeout).table[k] < |entries|
  {
    RestoringWorks(t, entries, now, timeout);
    var s := RestoredAll(Standby(t), entries, now, timeout);
    forall k | k in s.table ensures s.table[k] < |entries| { assert LeadsHome(s, Homes(entries), k); }
  }

  lemma KeyComesBack(s: Flows, u: Tables, entries: seq<Entry>, n: Flows, k: FlowKey)
    requires Ready(s, u, entries) && Restorable(s) && InNatPart(s, k)
    requires forall j :: 0 <= j < |entries| ==> Carries(n, j, entries[j])
    ensures k in n.table && n.table[k] in n.vals && n.vals[n.table[k]].Owned() == s.vals[s.table[k]].Owned()
  {
    var id := s.table[k];
    assert Sane(s.vals[id]);
    var j := EntryOf(s, u, entries, id);
    NatKeysIff(s, id, entries[j]);
    assert k in KeysOf(s.table, id);
    assert Carries(n, j, entries[j]);
    assert k in KeysOf(n.table, j);
  }

  /** The port is part of what the active sends, and of what the new active makes of it. */
  lemma PortComesBack(s: Flows, u: Tables, entries: seq<Entry>, n: Flows, id: nat, m: nat)
    requires Ready(s, u, entries) && AllMade(n, u, entries) && id in s.vals && m in n.vals
    requires s.vals[id].Owned().Some? && n.vals[m].Owned() == s.vals[id].Owned()
    ensures n.vals[m].info.port == s.vals[id].info.port
  {
    var e :| e in entries && MadeOf(n, m, e);
    StoredOrgIff(e.ok, e.meta);
    assert TaggedVal(u, s.vals[id]);
  }

  lemma KeyWasThere(s: Flows, u: Tables, entries: seq<Entry>, n: Flows, k: FlowKey)
    requires Ready(s, u, entries) && Restorable(s) && k in n.table && n.table[k] < |entries|
    requires Carries(n, n.table[k], entries[n.table[k]])
    ensures InNatPart(s, k)
  {
    var e := entries[n.table[k]];
    assert k in KeysOf(n.table, n.table[k]);
    var id := FlowOf(s, u, entries, e);
    NatKeysIff(s, id, e);
    assert k in KeysOf(s.table, id);
  }

  lemma SameParts(s: Flows, u: Tables, entries: seq<Entry>, n: Flows)
    requires Ready(s, u, entries) && Restorable(s)
    requires forall j :: 0 <= j < |entries| ==> Carries(n, j, entries[j])
    requires forall k :: k in n.table ==> n.table[k] < |entries|
    ensures forall k :: k in n.table ==> InNatPart(s, k)
    ensures forall k :: InNatPart(s, k) ==>
              k in n.table && n.table[k] in n.vals && n.vals[n.table[k]].Owned() == s.vals[s.table[k]].Owned()
  {
    forall k | InNatPart(s, k)
      ensures k in n.table && n.table[k] in n.vals && n.vals[n.table[k]].Owned() == s.vals[s.table[k]].Owned()
    {
      KeyComesBack(s, u, entries, n, k);
    }
    forall k | k in n.table ensures InNatPart(s, k) {
      KeyWasThere(s, u, entries, n, k);
    }
  }

  lemma SamePorts(s: Flows, u: Tables, entries: seq<Entry>, n: Flows)
    requires Ready(s, u, entries) && AllMade(n, u, entries)
    requires forall k :: k in n.table ==> InNatPart(s, k)
    requires forall k :: InNatPart(s, k) ==>
               k in n.table && n.table[k] in n.vals && n.vals[n.table[k]].Owned() == s.vals[s.table[k]].Owned()
    ensures SameNatPart(s, n)
  {
    forall k | InNatPart(s, k) ensures LedAlike(s, n, k) {
      assert Sane(s.vals[s.table[k]]);
      PortComesBack(s, u, entries, n, s.table[k], n.table[k]);
    }
  }

  lemma RestorableTakeover(s: Flows, u: Tables, entries: seq<Entry>, now: uint64, timeout: nat)
    requires Ready(s, u, entries) && Restorable(s)
    ensures TookOver(s, RestoredAll(Standby(u), entries, now, timeout))
  {
    RestorableDistinct(s, u, entries);
    EntriesTracked(s, u, entries);
    FailoverIff(u, entries, now, timeout);
    RestoredIds(u, entries, now, timeout);
    AllAreMade(u, entries, now, timeout);
    SameParts(s, u, entries, RestoredAll(Standby(u), entries, now, timeout));
    SamePorts(s, u, entries, RestoredAll(Standby(u), entries, now, timeout));
  }

  /** Flows that own the same have the same keys, if the NAT parts agree. */
  lemma SameKeys(s: Flows, n: Flows, id: nat, m: nat)
    requires SameNatPart(s, n) && OneOwner(LedgerOf(s.vals)) && OneOwner(LedgerOf(n.vals))
    requires id in s.vals && m in n.vals && s.vals[id].natType == NetworkLocal
    requires s.vals[id].Owned().Some? && n.vals[m].Owned() == s.vals[id].Owned()
    ensures KeysOf(n.table, m) == KeysOf(s.table, id)
  {
    var l, l' := LedgerOf(s.vals), LedgerOf(n.vals);
    forall k | k in KeysOf(n.table, m) ensures k in KeysOf(s.table, id) {
      assert InNatPart(s, k);
      assert l[s.table[k]] == l[id];
    }
    forall k | k in KeysOf(s.table, id) ensures k in KeysOf(n.table, m) {
      assert InNatPart(s, k);
      assert l'[n.table[k]] == l'[m];
    }
  }

  lemma TakenOverFlow(s: Flows, n: Flows, id: nat) returns (m: nat)
    requires SameNatPart(s, n) && OneOwner(LedgerOf(s.vals)) && OneOwner(LedgerOf(n.vals))
    requires id in s.vals && s.vals[id].natType == NetworkLocal && s.vals[id].Owned().Some?
             && RefCounted(s.table, s.vals[id], id)
    ensures m in n.vals && n.vals[m].Owned() == s.vals[id].Owned() && KeysOf(n.table, m) == KeysOf(s.table, id)
  {
    assert KeysOf(s.table, id) != {};
    var k :| k in KeysOf(s.table, id);
    assert InNatPart(s, k);
    m := n.table[k];
    SameKeys(s, n, id, m);
  }

  lemma MadeKeys(n: Flows, u: Tables, entries: seq<Entry>, m: nat) returns (e: Entry)
    requires AllMade(n, u, entries) && m in n.vals && RefCounted(n.table, n.vals[m], m) && n.vals[m].Owned().Some?
    ensures e in entries && n.vals[m].Owned().value.ok == e.ok
    ensures KeysOf(n.table, m) == {e.Org(), e.Reply()} && e.Org() != e.Reply()
  {
    e :| e in entries && MadeOf(n, m, e);
    assert KeysOf(n.table, m) <= {e.Org(), e.Reply()};
    TwoOfTwo(KeysOf(n.table, m), e.Org(), e.Reply());
  }

  lemma TakenOverVal(s: Flows, u: Tables, entries: seq<Entry>, n: Flows, id: nat)
    requires Ready(s, u, entries) && AllMade(n, u, entries) && RefsRight(n.table, n.vals) && OneOwner(LedgerOf(n.vals))
    requires SameNatPart(s, n) && id in s.vals && s.vals[id].natType == NetworkLocal
    ensures RestorableVal(s.vals[id])
  {
    assert Sane(s.vals[id]) && RefCounted(s.table, s.vals[id], id);
    var m := TakenOverFlow(s, n, id);
    assert RefCounted(n.table, n.vals[m], m);
    var e := MadeKeys(n, u, entries, m);
    assert TaggedVal(u, s.vals[id]);
    TaggedMatches(u, s.vals[id], e);
    NatKeysIff(s, id, e);
  }

  lemma TakenOverRestorable(s: Flows, u: Tables, entries: seq<Entry>, n: Flows)
    requires Ready(s, u, entries) && AllMade(n, u, entries) && RefsRight(n.table, n.vals) && OneOwner(LedgerOf(n.vals))
    requires SameNatPart(s, n)
    ensures Restorable(s)
  {
    forall id | id in s.vals ensures RestorableVal(s.vals[id]) {
      if s.vals[id].natType == NetworkLocal { TakenOverVal(s, u, entries, n, id); }
    }
  }

  lemma TakeoverOnlyIf(s: Flows, u: Tables, entries: seq<Entry>, now: uint64, timeout: nat)
    requires Ready(s, u, entries) && TookOver(s, RestoredAll(Standby(u), entries, now, timeout))
    ensures Restorable(s)
  {
    AllAreMade(u, entries, now, timeout);
    TakenOverRestorable(s, u, entries, RestoredAll(Standby(u), entries, now, timeout));
  }

  lemma RestoredTables(s: Flows, u: Tables, entries: seq<Entry>, now: uint64, timeout: nat)
    requires InSync(s, u)
    ensures RestoredAll(Standby(u), entries, now, timeout).nats == u && Same(u, s.nats)
  {
    AllAreMade(u, entries, now, timeout);
  }

  /** Taking over: the new active is in a good state and its flow table is exactly the NAT part of
      the old one - the same keys, leading to flows that own the same - if and only if every NAT
      flow of the old one had both its keys and none had an ICMPv6 reply. The order in which the
      entries become flows does not matter. */
  lemma TakeoverIff(s: Flows, u: Tables, entries: seq<Entry>, now: uint64, timeout: nat)
    requires Ready(s, u, entries)
    ensures var n := RestoredAll(Standby(u), entries, now, timeout);
            n.nats == u && Same(n.nats, s.nats) && (TookOver(s, n) <==> Restorable(s))
  {
    RestoredTables(s, u, entries, now, timeout);
    if Restorable(s) {
      RestorableTakeover(s, u, entries, now, timeout);
    } else if TookOver(s, RestoredAll(Standby(u), entries, now, timeout)) {
      TakeoverOnlyIf(s, u, entries, now, timeout);
    }
  }

  /** What the flows are given: a full timeout from the moment of the takeover, and no target. */
  lemma TakeoverStamps(u: Tables, entries: seq<Entry>, now: uint64, timeout: nat)
    ensures AllStamped(RestoredAll(Standby(u), entries, now, timeout), now, timeout)
  {
    AllAreStamped(u, entries, now, timeout);
  }

  /** Removing the NAT flows of a port from the new active does what it would have done to the NAT
      part of the old one. */
  lemma NatRemovalCommutes(s: Flows, n: Flows, s': Flows, n': Flows, port: uint16)
    requires Inv(s) && Inv(n) && SameNatPart(s, n)
    requires NatRemoved(s, s', port, NetworkLocal) && NatRemoved(n, n', port, NetworkLocal)
    ensures SameNatPart(s', n')
  {
    forall k | InNatPart(s, k) ensures n.vals[n.table[k]].natType == NetworkLocal && LedAlike(s, n, k) {
      assert Sane(s.vals[s.table[k]]);
    }
    forall k | k in n'.table ensures InNatPart(s', k) {
      KeyStays(n, n', port, k);
      KeyStays(s, s', port, k);
    }
    forall k | InNatPart(s', k) ensures LedAlike(s', n', k) {
      KeyStays(s, s', port, k);
      assert InNatPart(s, k) && LedAlike(s, n, k);
      KeyStays(n, n', port, k);
    }
  }

  lemma KeyStays(s: Flows, s': Flows, port: uint16, k: FlowKey)
    requires Inv(s) && NatRemoved(s, s', port, NetworkLocal) && k in s.table
    ensures s.table[k] in s.vals
    ensures var v := s.vals[s.table[k]];
            if v.info.port == port && v.natType == NetworkLocal then k !in s'.table
            else k in s'.table && s'.table[k] == s.table[k] && s.table[k] in s'.vals && s'.vals[s.table[k]] == v
  {
    var id := s.table[k];
    assert k in KeysOf(s.table, id);
    assert k in s'.table ==> k in KeysOf(s'.table, id);
    if s.vals[id].info.port == port && s.vals[id].natType == NetworkLocal {
      assert Gone(s', id);
    } else {
      assert Kept(s, s', id);
      assert k in KeysOf(s'.table, id);
    }
  }

  /** The same at the end of every run in which nothing is left under way. */
  lemma RunTakeoverIff(hs: seq<Ha>, es: seq<Event>, entries: seq<Entry>, now: uint64, timeout: nat)
    requires Replication.IsRun(hs, es) && hs[|es|].link == [] && Enumerates(hs[|es|].backup, entries)
    ensures var h := hs[|es|];
            var n := RestoredAll(Standby(h.backup), entries, now, timeout);
            Same(n.nats, h.active.nats) && (TookOver(h.active, n) <==> Restorable(h.active))
  {
    RunKeepsGood(hs, es, |es|);
    TakeoverIff(hs[|es|].active, hs[|es|].backup, entries, now, timeout);
  }

  /** So for every run from two instances that have just started. */
  lemma StartedTakeoverIff(hs: seq<Ha>, es: seq<Event>, entries: seq<Entry>, now: uint64, timeout: nat)
    requires Replication.Steps(hs, es) && hs[0] == START
    requires hs[|es|].link == [] && Enumerates(hs[|es|].backup, entries)
    ensures var h := hs[|es|];
            var n := RestoredAll(Standby(h.backup), entries, now, timeout);
            Same(n.nats, h.active.nats) && (TookOver(h.active, n) <==> Restorable(h.active))
  {
    StartGood();
    RunTakeoverIff(hs, es, entries, now, timeout);
  }

  // ---------- the next generation ----------

  /** The new active's flows have the shape that replication relies on. */
  lemma MadeShaped(n: Flows, u: Tables, entries: seq<Entry>)
    requires AllMade(n, u, entries) && forall e :: e in entries ==> e.FromPacket()
    ensures Shaped(n)
  {
    forall id | id in n.vals
      ensures ValShaped(n.vals[id]) && forall k :: k in KeysOf(n.table, id) ==> KeyShaped(n.vals[id], k)
    {
      var e :| e in entries && MadeOf(n, id, e);
      MadeOne(n, id, e);
    }
    forall k | k in n.table ensures n.table[k] in n.vals && KeyShaped(n.vals[n.table[k]], k) {
      assert k in KeysOf(n.table, n.table[k]);
    }
  }

  lemma MadeOne(n: Flows, id: nat, e: Entry)
    requires MadeOf(n, id, e) && e.FromPacket()
    ensures ValShaped(n.vals[id]) && forall k :: k in KeysOf(n.table, id) ==> KeyShaped(n.vals[id], k)
  {
    var v := n.vals[id];
    StoredOrgIff(e.ok, e.meta);
    assert v.Owned() == Some(e.Allocation());
    SameRestored(e.ok, e.meta, EntryFor(v).meta);
  }

  /** After a takeover that worked, the new active again is one that a backup can follow. */
  lemma NewActiveShaped(s: Flows, u: Tables, entries: seq<Entry>, now: uint64, timeout: nat)
    requires Ready(s, u, entries) && Restorable(s)
    ensures Inv(RestoredAll(Standby(u), entries, now, timeout))
            && Shaped(RestoredAll(Standby(u), entries, now, timeout))
  {
    RestorableTakeover(s, u, entries, now, timeout);
    RestorableDistinct(s, u, entries);
    AllAreMade(u, entries, now, timeout);
    MadeShaped(RestoredAll(Standby(u), entries, now, timeout), u, entries);
  }

  /** A dump comes by exactly the flows it can. */
  ghost predicate ListsAll(s: Flows, order: seq<nat>) {
    (forall id :: id in order ==> Dumpable(s, id)) && (forall id :: Dumpable(s, id) ==> id in order)
  }

  /** A standby that has just started and been sent a dump is in sync with the active exactly if
      the dump comes by every NAT flow, that is if each is filed under the original key it
      remembers. */
  lemma FreshStandbyIff(s: Flows, order: seq<nat>)
    requires Inv(s) && OnOneAddress(s) && ListsAll(s, order)
    ensures InSync(s, ApplyAll(EMPTY, DumpOf(s, order))) <==>
              forall id :: id in LedgerOf(s.vals) ==> Dumpable(s, id)
  {
    var l, metas := LedgerOf(s.vals), MetasOf(s.vals);
    EmptyTracks();
    DumpRebuildsIff(s.nats, l, EMPTY, map[], order, metas);
    var u := ApplyAll(EMPTY, Dump(l, order, metas));
    KnownIsOrder(l, order);
    if Known(map[], l, order) == l {
      forall id | id in s.vals ensures TaggedVal(u, s.vals[id]) {
        if s.vals[id].Owned().Some? { assert id in l && TaggedOne(u, l[id], metas[id]); }
      }
    }
  }

  lemma KnownIsOrder(l: Ledger, order: seq<nat>)
    requires forall id :: id in order ==> id in l
    ensures Known(map[], l, order) == l <==> forall id :: id in l ==> id in order
  {
    if Known(map[], l, order) == l {
      forall id | id in l ensures id in order { assert id in Known(map[], l, order); }
    }
  }

  /** So a takeover by such a standby is characterised in the same way. */
  lemma FreshStandbyTakeover(s: Flows, order: seq<nat>, entries: seq<Entry>, now: uint64, timeout: nat)
    requires Inv(s) && Shaped(s) && OnOneAddress(s)
    requires ListsAll(s, order) && (forall id :: id in LedgerOf(s.vals) ==> Dumpable(s, id))
    requires Enumerates(ApplyAll(EMPTY, DumpOf(s, order)), entries)
    ensures var u := ApplyAll(EMPTY, DumpOf(s, order));
            TookOver(s, RestoredAll(Standby(u), entries, now, timeout)) <==> Restorable(s)
  {
    FreshStandbyIff(s, order);
    TakeoverIff(s, ApplyAll(EMPTY, DumpOf(s, order)), entries, now, timeout);
  }

  // ---------- a flow that cannot be restored ----------

  /** A client on NAT address 9 talks to port 7000 of address 10, which is nobody's NAT address yet. */
  const TO_NEIGHBOUR: Ask := Ask(Headers(Ip4(1, 10), TCP, 1000, 7000, 0, 0, 0, None), Virtual(7, true, false), 9, 5000,
      6000, 0)
  const NEIGHBOUR_KEY: FlowKey := FlowKey(V4(10), TCP, 7000, V4(1), Nat, 1000, 7)

  ghost function Arrived(): Flows { Looked(Standby(EMPTY), NEIGHBOUR_KEY, Info(1, 30, 4, ZERO_IPV6)).0 }

  ghost function Translated(): Flows
    requires 0 in Arrived().vals
  {
    Snatted(Arrived(), 0, TO_NEIGHBOUR, true)
  }

  lemma NeighbourArrives()
    ensures var s := Arrived();
            && Granted(s, 0, TO_NEIGHBOUR, Undefined) && s.nats == EMPTY && s.vals[0].org == NEIGHBOUR_KEY
            && s.table == map[NEIGHBOUR_KEY := 0][Invert(NEIGHBOUR_KEY) := 0]
            && s.vals[0].reply == Invert(NEIGHBOUR_KEY)
  {
    StandbyInv();
    LookRight(Standby(EMPTY), NEIGHBOUR_KEY, Info(1, 30, 4, ZERO_IPV6));
    assert BuildKey(TO_NEIGHBOUR.h, TO_NEIGHBOUR.ing, Undefined) == Some(NEIGHBOUR_KEY);
    assert TO_NEIGHBOUR.Outcome(EMPTY).Done?;
  }

  /** A table with one flow, an untouched one whose first packet gets a port. */
  ghost predicate OnlyFlow(s: Flows, q: Ask, stale: VnfType) {
    && Granted(s, 0, q, stale) && !q.Untranslatable() && s.nats.portmap == map[]
    && s.table == map[s.vals[0].org := 0][s.vals[0].reply := 0] && NewReply(s, 0, q) !in s.table
  }

  lemma OnlyFlowGood(s: Flows, q: Ask, stale: VnfType)
    requires OnlyFlow(s, q, stale)
    ensures Inv(Snatted(s, 0, q, true))
  {
    SnatMovedIff(s, 0, q, stale);
  }

  lemma OnlyFlowTranslated(s: Flows, q: Ask, stale: VnfType)
    requires OnlyFlow(s, q, stale)
    ensures var n, reply := Snatted(s, 0, q, true), NewReply(s, 0, q);
            && 0 in n.vals && n.vals[0].natType == NetworkLocal && n.table == map[s.vals[0].org := 0][reply := 0]
  {
    assert Sane(s.vals[0]);
    SnatMoved(s, 0, q, stale);
    assert (s.table - {s.vals[0].reply})[NewReply(s, 0, q) := 0] == map[s.vals[0].org := 0][NewReply(s, 0, q) := 0];
  }

  lemma NeighbourReply()
    ensures 0 in Arrived().vals && TO_NEIGHBOUR.Outcome(Arrived().nats).Done?
    ensures var reply := NewReply(Arrived(), 0, TO_NEIGHBOUR);
            reply !in Arrived().table && reply.l3Dst == V4(9)
  {
    NeighbourArrives();
    var reply := NewReply(Arrived(), 0, TO_NEIGHBOUR);
    assert reply.l3Src == V4(10) && reply.l3Dst == V4(9);
  }

  lemma OneKeyLeft(s: Flows, n: Flows, r: Removal, id: nat, k: FlowKey, gone: FlowKey)
    requires RefsRight(s.table, s.vals) && RemovedExactly(s, n, r) && id in s.vals
    requires KeysOf(s.table, id) == {k, gone} && r.Takes(gone, s.vals[id]) && !r.Takes(k, s.vals[id])
    ensures KeysOf(n.table, id) == {k} && id in n.vals && n.vals[id] == s.vals[id].(refs := 1)
  {
    assert k in KeysOf(s.table, id);
    forall x | x in KeysOf(n.table, id) ensures x == k { assert x in KeysOf(s.table, id); }
    assert KeysOf(n.table, id) == {k};
    assert Fated(s, n, r, id);
  }

  /** A removal that takes one key of a NAT flow and not the other leaves a good state whose flow
      cannot be restored. */
  lemma HalfRemoved(s: Flows, id: nat, r: Removal, doomed: seq<FlowKey>, k: FlowKey, gone: FlowKey)
    requires Inv(s) && Picks(s, r, doomed) && id in s.vals && s.vals[id].natType == NetworkLocal
    requires KeysOf(s.table, id) == {k, gone} && r.Takes(gone, s.vals[id]) && !r.Takes(k, s.vals[id])
    ensures Inv(Swept(s, doomed)) && !Restorable(Swept(s, doomed))
  {
    RemovalExact(s, doomed, r);
    OneKeyLeft(s, Swept(s, doomed), r, id, k, gone);
    assert !RestorableVal(Swept(s, doomed).vals[id]);
  }

  lemma NeighbourPicked(s: Flows, reply: FlowKey)
    requires RefsRight(s.table, s.vals) && s.table == map[NEIGHBOUR_KEY := 0][reply := 0]
    requires reply.l3Dst == V4(9)
    ensures Picks(s, NeighNat(10, 7, 6000, 8000), [NEIGHBOUR_KEY]) && KeysOf(s.table, 0) == {reply, NEIGHBOUR_KEY}
  {
  }

  lemma NeighbourOnly()
    ensures OnlyFlow(Arrived(), TO_NEIGHBOUR, Undefined)
  {
    NeighbourArrives();
    NeighbourReply();
  }

  /** Ports 6000 to 8000 of address 10 become a neighbouring NAT after the flow began, and later
      cease to be one. Removing the flows towards it takes the original key and leaves the reply key:
      the flow lives on with one key, in a good state, and cannot be restored. */
  lemma HalfRemovedFlow()
    ensures 0 in Arrived().vals && Inv(Translated())
            && Picks(Translated(), NeighNat(10, 7, 6000, 8000), [NEIGHBOUR_KEY])
    ensures Inv(Swept(Translated(), [NEIGHBOUR_KEY])) && !Restorable(Swept(Translated(), [NEIGHBOUR_KEY]))
  {
    NeighbourArrives();
    NeighbourReply();
    NeighbourOnly();
    OnlyFlowGood(Arrived(), TO_NEIGHBOUR, Undefined);
    OnlyFlowTranslated(Arrived(), TO_NEIGHBOUR, Undefined);
    var s, reply := Translated(), NewReply(Arrived(), 0, TO_NEIGHBOUR);
    NeighbourPicked(s, reply);
    HalfRemoved(s, 0, NeighNat(10, 7, 6000, 8000), [NEIGHBOUR_KEY], reply, NEIGHBOUR_KEY);
  }
}
