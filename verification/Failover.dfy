/** What a backup does with the replicated NAT entries when it becomes the active instance. */
module Failover {
  import opened Words
  import opened FlowKeys
  import opened NatTables
  import opened Conntrack

  /** One entry of the replicated portoverload table. */
  datatype Entry = Entry(ok: OverloadKey, meta: SyncMeta) {
    function Org(): FlowKey { RestoredOrg(ok, meta) }
    function Reply(): FlowKey { RestoredReply(ok, meta) }
    function Allocation(): Alloc { Alloc(meta.pk, ok) }

    /** Entries come from packets, so an ICMP entry carries its identifier on both sides. */
    ghost predicate FromPacket() {
      ok.l4Type == ICMP || ok.l4Type == ICMPV6 ==> ok.dstPort == meta.pk.ifaceSrcPort
    }

    ghost predicate Shares(e: Entry) {
      Org() == e.Org() || Org() == e.Reply() || Reply() == e.Org() || Reply() == e.Reply()
    }
  }

  /** dp_cntrack_from_sync_nat */
  function Restored(s: Flows, e: Entry, now: uint64, timeout: nat): Flows {
    var stored := StoredOrg(e.ok, e.meta);
    if stored in s.table then s else
    var v := FlowVal(stored, e.Reply(), NetworkLocal, e.meta.pk.vni, true, 2,
        Info(now, timeout, e.meta.port, ZERO_IPV6));
    s.(table := s.table[e.Org() := s.nextId][e.Reply() := s.nextId], vals := s.vals[s.nextId := v],
        nextId := s.nextId + 1)
  }

  /** dp_create_sync_snat_flows, in whatever order the table yields its entries. */
  function RestoredAll(s: Flows, entries: seq<Entry>, now: uint64, timeout: nat): Flows {
    if entries == [] then s
    else Restored(RestoredAll(s, entries[..|entries| - 1], now, timeout), entries[|entries| - 1], now, timeout)
  }

  /** No two keys of the restored flows meet. */
  ghost predicate DistinctKeys(entries: seq<Entry>) {
    && (forall k :: 0 <= k < |entries| ==> entries[k].Org() != entries[k].Reply() && entries[k].FromPacket())
    && (forall j, k :: 0 <= j < k < |entries| ==> !entries[k].Shares(entries[j]))
  }

  ghost function AllocsOf(entries: seq<Entry>): Ledger { map k: nat | k < |entries| :: entries[k].Allocation() }

  // ---------- restoring one entry after another ----------

  lemma RestoredMore(s: Flows, entries: seq<Entry>, now: uint64, timeout: nat)
    requires entries != []
    ensures var n := |entries| - 1;
            RestoredAll(s, entries, now, timeout) ==
              Restored(RestoredAll(s, entries[..n], now, timeout), entries[n], now, timeout)
  {
  }

  lemma Rejoined(entries: seq<Entry>)
    requires entries != []
    ensures entries[..|entries| - 1] + [entries[|entries| - 1]] == entries
  {
  }

  /** Where a flow lives: its two keys and what it owns. */
  datatype Home = Home(org: FlowKey, reply: FlowKey, owns: Alloc) {
    ghost predicate Shares(h: Home) { org == h.org || org == h.reply || reply == h.org || reply == h.reply }
  }

  ghost function HomeOf(e: Entry): Home { Home(e.Org(), e.Reply(), e.Allocation()) }

  ghost function Homes(entries: seq<Entry>): (hs: seq<Home>)
    ensures |hs| == |entries| && forall k :: 0 <= k < |hs| ==> hs[k] == HomeOf(entries[k])
  {
    seq(|entries|, k requires 0 <= k < |entries| => HomeOf(entries[k]))
  }

  /** Flow id lives there. */
  ghost predicate LivesAt(s: Flows, h: Home, id: nat) {
    && h.org in s.table && s.table[h.org] == id
    && h.reply in s.table && s.table[h.reply] == id
    && id in s.vals && s.vals[id].refs == 2 && s.vals[id].flagged && s.vals[id].Owned() == Some(h.owns)
  }

  ghost predicate LeadsHome(s: Flows, hs: seq<Home>, k: FlowKey)
    requires k in s.table
  {
    s.table[k] < |hs| && (k == hs[s.table[k]].org || k == hs[s.table[k]].reply)
  }

  ghost predicate AllRestored(s: Flows, t: Tables, hs: seq<Home>) {
    && s == Standby(t).(table := s.table, vals := s.vals, nextId := |hs|)
    && (forall id :: id in s.vals <==> 0 <= id < |hs|)
    && (forall k :: k in s.table ==> LeadsHome(s, hs, k))
    && (forall id :: 0 <= id < |hs| ==> LivesAt(s, hs[id], id))
  }

  /** Filing one more flow under two fresh keys. */
  lemma SettleOne(s: Flows, t: Tables, hs: seq<Home>, h: Home, v: FlowVal)
    requires AllRestored(s, t, hs) && h.org != h.reply && h.org !in s.table && h.reply !in s.table
    requires v.refs == 2 && v.flagged && v.Owned() == Some(h.owns)
    ensures AllRestored(s.(table := s.table[h.org := s.nextId][h.reply := s.nextId], vals := s.vals[s.nextId := v],
            nextId := s.nextId + 1), t, hs + [h])
  {
    var all := hs + [h];
    var s' := s.(table := s.table[h.org := s.nextId][h.reply := s.nextId], vals := s.vals[s.nextId := v],
        nextId := s.nextId + 1);
    forall k | k in s'.table ensures LeadsHome(s', all, k) {
      if k in s.table { assert LeadsHome(s, hs, k); }
    }
    forall id | 0 <= id < |all| ensures LivesAt(s', all[id], id) {
      if id < |hs| { assert LivesAt(s, hs[id], id); }
    }
  }

  /** The unadjusted key of a NAT64 entry mixes address families, which no filed key does. */
  lemma StoredIsFresh(e: Entry, other: Entry)
    requires !e.Shares(other)
    ensures StoredOrg(e.ok, e.meta) != other.Org() && StoredOrg(e.ok, e.meta) != other.Reply()
  {
  }

  lemma RestoreOne(s: Flows, t: Tables, entries: seq<Entry>, e: Entry, now: uint64, timeout: nat)
    requires AllRestored(s, t, Homes(entries)) && e.Org() != e.Reply() && e.FromPacket()
    requires forall j :: 0 <= j < |entries| ==> !e.Shares(entries[j])
    ensures AllRestored(Restored(s, e, now, timeout), t, Homes(entries + [e]))
  {
    var hs, stored, org, reply := Homes(entries), StoredOrg(e.ok, e.meta), e.Org(), e.Reply();
    forall k | k in s.table ensures k != stored && k != org && k != reply {
      assert LeadsHome(s, hs, k);
      StoredIsFresh(e, entries[s.table[k]]);
    }
    StoredOrgIff(e.ok, e.meta);
    SettleOne(s, t, hs, HomeOf(e),
        FlowVal(stored, reply, NetworkLocal, e.meta.pk.vni, true, 2, Info(now, timeout, e.meta.port, ZERO_IPV6)));
    assert Homes(entries + [e]) == hs + [HomeOf(e)];
  }

  lemma {:induction false} RestoringWorks(t: Tables, entries: seq<Entry>, now: uint64, timeout: nat)
    requires DistinctKeys(entries)
    ensures AllRestored(RestoredAll(Standby(t), entries, now, timeout), t, Homes(entries))
  {
    if entries != [] {
      var n := |entries| - 1;
      RestoringWorks(t, entries[..n], now, timeout);
      RestoreOne(RestoredAll(Standby(t), entries[..n], now, timeout), t, entries[..n], entries[n], now, timeout);
      RestoredMore(Standby(t), entries, now, timeout);
      Rejoined(entries);
    }
  }

  lemma SettledRefs(s: Flows, t: Tables, hs: seq<Home>, id: nat)
    requires AllRestored(s, t, hs) && id < |hs| && hs[id].org != hs[id].reply
    ensures KeysOf(s.table, id) == {hs[id].org, hs[id].reply}
    ensures id in s.vals && RefCounted(s.table, s.vals[id], id) && Sane(s.vals[id])
  {
    assert LivesAt(s, hs[id], id);
    forall k | k in KeysOf(s.table, id) ensures k in {hs[id].org, hs[id].reply} {
      assert LeadsHome(s, hs, k);
    }
    assert KeysOf(s.table, id) == {hs[id].org, hs[id].reply};
  }

  ghost function OwnsOf(hs: seq<Home>): Ledger { map k: nat | k < |hs| :: hs[k].owns }

  lemma HomesOwn(entries: seq<Entry>)
    ensures AllocsOf(entries) == OwnsOf(Homes(entries))
  {
    assert forall k: nat :: k < |entries| ==> Homes(entries)[k] == HomeOf(entries[k]);
  }

  lemma SettledLedger(s: Flows, t: Tables, hs: seq<Home>)
    requires AllRestored(s, t, hs)
    ensures LedgerOf(s.vals) == OwnsOf(hs)
  {
    forall id: nat | id < |hs| ensures id in LedgerOf(s.vals) && LedgerOf(s.vals)[id] == hs[id].owns {
      assert LivesAt(s, hs[id], id);
    }
  }

  lemma SettledCounts(s: Flows, t: Tables, hs: seq<Home>)
    requires AllRestored(s, t, hs) && forall id :: 0 <= id < |hs| ==> hs[id].org != hs[id].reply
    ensures RefsRight(s.table, s.vals) && AllSane(s.vals)
  {
    forall id | 0 <= id < |hs| ensures id in s.vals && RefCounted(s.table, s.vals[id], id) && Sane(s.vals[id]) {
      SettledRefs(s, t, hs, id);
    }
    forall k | k in s.table ensures s.table[k] in s.vals {
      assert LeadsHome(s, hs, k);
    }
  }

  lemma SettledInv(s: Flows, t: Tables, hs: seq<Home>)
    requires AllRestored(s, t, hs) && forall id :: 0 <= id < |hs| ==> hs[id].org != hs[id].reply
    requires Tracks(t, OwnsOf(hs))
    ensures Inv(s)
  {
    SettledCounts(s, t, hs);
    SettledLedger(s, t, hs);
  }

  /** Flow id owns the entry's allocation and is filed under its two keys. */
  ghost predicate Carries(s: Flows, id: nat, e: Entry) {
    id in s.vals && s.vals[id].Owned() == Some(e.Allocation()) && KeysOf(s.table, id) == {e.Org(), e.Reply()}
  }

  lemma EntryCarried(t: Tables, entries: seq<Entry>, now: uint64, timeout: nat, id: nat)
    requires DistinctKeys(entries) && id < |entries|
    ensures Carries(RestoredAll(Standby(t), entries, now, timeout), id, entries[id])
  {
    RestoringWorks(t, entries, now, timeout);
    var s, hs := RestoredAll(Standby(t), entries, now, timeout), Homes(entries);
    SettledRefs(s, t, hs, id);
    assert LivesAt(s, hs[id], id);
  }

  lemma FailoverInv(t: Tables, entries: seq<Entry>, now: uint64, timeout: nat)
    requires Tracks(t, AllocsOf(entries)) && DistinctKeys(entries)
    ensures Inv(RestoredAll(Standby(t), entries, now, timeout))
  {
    RestoringWorks(t, entries, now, timeout);
    HomesOwn(entries);
    SettledInv(RestoredAll(Standby(t), entries, now, timeout), t, Homes(entries));
  }

  // ---------- whatever the entries ----------

  /** Flow id was made of entry e; some of its keys may since have been taken by another. */
  ghost predicate MadeOf(s: Flows, id: nat, e: Entry) {
    && id in s.vals && s.vals[id].refs == 2 && s.vals[id].org == StoredOrg(e.ok, e.meta)
    && s.vals[id].reply == e.Reply()
    && s.vals[id].natType == NetworkLocal && s.vals[id].natVni == e.meta.pk.vni && s.vals[id].flagged
    && s.vals[id].info.port == e.meta.port
    && forall k :: k in s.table && s.table[k] == id ==> k == e.Org() || k == e.Reply()
  }

  /** Every flow there is was made of an entry, and every key leads to a flow. */
  ghost predicate AllMade(s: Flows, t: Tables, entries: seq<Entry>) {
    && s == Standby(t).(table := s.table, vals := s.vals, nextId := s.nextId)
    && (forall k :: k in s.table ==> s.table[k] in s.vals)
    && (forall id :: id in s.vals ==> id < s.nextId && exists e :: e in entries && MadeOf(s, id, e))
  }

  lemma MakeOne(s: Flows, t: Tables, entries: seq<Entry>, e: Entry, now: uint64, timeout: nat)
    requires AllMade(s, t, entries)
    ensures AllMade(Restored(s, e, now, timeout), t, entries + [e])
  {
    var n := Restored(s, e, now, timeout);
    forall id | id in n.vals ensures id < n.nextId && exists x :: x in entries + [e] && MadeOf(n, id, x) {
      if id in s.vals {
        var x :| x in entries && MadeOf(s, id, x);
        assert x in entries + [e] && MadeOf(n, id, x);
      } else {
        assert e in entries + [e] && MadeOf(n, id, e);
      }
    }
  }

  lemma {:induction false} AllAreMade(t: Tables, entries: seq<Entry>, now: uint64, timeout: nat)
    ensures AllMade(RestoredAll(Standby(t), entries, now, timeout), t, entries)
  {
    if entries != [] {
      var n := |entries| - 1;
      AllAreMade(t, entries[..n], now, timeout);
      MakeOne(RestoredAll(Standby(t), entries[..n], now, timeout), t, entries[..n], entries[n], now, timeout);
      RestoredMore(Standby(t), entries, now, timeout);
      Rejoined(entries);
    }
  }

  /** A restored flow has its full time before it, and is relayed nowhere. */
  ghost predicate AllStamped(s: Flows, now: uint64, timeout: nat) {
    forall id :: id in s.vals ==>
      s.vals[id].info.timestamp == now && s.vals[id].info.timeout == timeout && s.vals[id].info.underlay == ZERO_IPV6
  }

  lemma {:induction false} AllAreStamped(t: Tables, entries: seq<Entry>, now: uint64, timeout: nat)
    ensures AllStamped(RestoredAll(Standby(t), entries, now, timeout), now, timeout)
  {
    if entries != [] {
      var n := |entries| - 1;
      AllAreStamped(t, entries[..n], now, timeout);
      StampOne(RestoredAll(Standby(t), entries[..n], now, timeout), entries[n], now, timeout);
      RestoredMore(Standby(t), entries, now, timeout);
    }
  }

  lemma StampOne(s: Flows, e: Entry, now: uint64, timeout: nat)
    requires AllStamped(s, now, timeout)
    ensures AllStamped(Restored(s, e, now, timeout), now, timeout)
  {
  }

  lemma CarriedIsDistinct(s: Flows, t: Tables, entries: seq<Entry>, id: nat, e: Entry)
    requires AllMade(s, t, entries) && RefsRight(s.table, s.vals) && Carries(s, id, e)
    ensures e.Org() != e.Reply() && e.FromPacket()
  {
    var x :| x in entries && MadeOf(s, id, x);
    assert RefCounted(s.table, s.vals[id], id);
    assert e.Org() == e.Reply() ==> {e.Org(), e.Reply()} == {e.Org()};
    assert |{e.Org(), e.Reply()}| == 2;
  }

  lemma CarriedAreApart(s: Flows, j: nat, a: Entry, k: nat, b: Entry)
    requires Carries(s, j, a) && Carries(s, k, b) && j != k
    ensures !a.Shares(b)
  {
    assert a.Org() in KeysOf(s.table, j) && a.Reply() in KeysOf(s.table, j);
    assert b.Org() in KeysOf(s.table, k) && b.Reply() in KeysOf(s.table, k);
  }

  /** Failover: when the replicated tables track the peer's allocations, the new active starts from
      a good state in which every entry has its flow, under exactly its two keys and owning its
      port, if and only if no two keys of the entries meet. */
  lemma FailoverIff(t: Tables, entries: seq<Entry>, now: uint64, timeout: nat)
    requires Tracks(t, AllocsOf(entries))
    ensures var s := RestoredAll(Standby(t), entries, now, timeout);
            && s.nats == t
            && (Inv(s) && (forall id :: 0 <= id < |entries| ==> Carries(s, id, entries[id])) <==> DistinctKeys(entries))
  {
    var s := RestoredAll(Standby(t), entries, now, timeout);
    AllAreMade(t, entries, now, timeout);
    if DistinctKeys(entries) {
      FailoverInv(t, entries, now, timeout);
      forall id | 0 <= id < |entries| ensures Carries(s, id, entries[id]) {
        EntryCarried(t, entries, now, timeout, id);
      }
    }
    if Inv(s) && forall id :: 0 <= id < |entries| ==> Carries(s, id, entries[id]) {
      CarriedDistinct(s, t, entries);
    }
  }

  lemma CarriedDistinct(s: Flows, t: Tables, entries: seq<Entry>)
    requires AllMade(s, t, entries) && RefsRight(s.table, s.vals)
    requires forall id :: 0 <= id < |entries| ==> Carries(s, id, entries[id])
    ensures DistinctKeys(entries)
  {
    forall k | 0 <= k < |entries| ensures entries[k].Org() != entries[k].Reply() && entries[k].FromPacket() {
      CarriedIsDistinct(s, t, entries, k, entries[k]);
    }
    forall j, k | 0 <= j < k < |entries| ensures !entries[k].Shares(entries[j]) {
      CarriedAreApart(s, k, entries[k], j, entries[j]);
    }
  }

  // ---------- when keys meet ----------

  /** The client of a is b's peer, and talks to b's NAT port. */
  ghost predicate Hairpin(a: Entry, b: Entry) {
    && a.meta.pk.vni == b.meta.pk.vni && a.ok.l4Type == b.ok.l4Type
    && a.ok.dstIp == b.ok.natIp && a.ok.dstPort == b.ok.natPort
    && a.meta.pk.srcIp == V4(b.ok.dstIp) && a.meta.pk.ifaceSrcPort == b.ok.dstPort
  }

  /** With ports in the keys, an original key is another entry's reply key exactly for a hairpin. */
  lemma HairpinIff(a: Entry, b: Entry)
    requires Ports(a.ok.l4Type) && Ports(b.ok.l4Type)
    ensures a.Org() == b.Reply() <==> Hairpin(a, b)
  {
  }

  lemma SameKindApart(t: Tables, entries: seq<Entry>, j: nat, k: nat)
    requires Tracks(t, AllocsOf(entries)) && OneAddress(t, AllocsOf(entries))
    requires j < k < |entries| && Ports(entries[j].ok.l4Type) && Ports(entries[k].ok.l4Type)
    ensures entries[j].Reply() != entries[k].Reply() && entries[j].Org() != entries[k].Org()
  {
    var l, a, b := AllocsOf(entries), entries[j], entries[k];
    assert l[j] == a.Allocation() && l[k] == b.Allocation();
    assert a.ok != b.ok;
    RepliesCollideIff(a.ok, b.ok, a.meta, b.meta);
    assert Placed(t, l[j]) && Placed(t, l[k]);
    EmbedRoundTrip(a.ok.dstIp, ZERO_IPV6);
    EmbedRoundTrip(b.ok.dstIp, ZERO_IPV6);
  }

  /** TCP and UDP entries of clients that stay on one NAT address: their keys are distinct exactly
      if none of them is a hairpin of another, or of itself. */
  lemma PortKeysDistinctIff(t: Tables, entries: seq<Entry>)
    requires Tracks(t, AllocsOf(entries)) && OneAddress(t, AllocsOf(entries))
    requires forall k :: 0 <= k < |entries| ==> Ports(entries[k].ok.l4Type)
    ensures DistinctKeys(entries) <==>
            forall j, k :: 0 <= j < |entries| && 0 <= k < |entries| ==> !Hairpin(entries[j], entries[k])
  {
    forall j, k | 0 <= j < |entries| && 0 <= k < |entries|
      ensures entries[j].Org() == entries[k].Reply() <==> Hairpin(entries[j], entries[k])
    {
      HairpinIff(entries[j], entries[k]);
    }
    forall j, k | 0 <= j < k < |entries|
      ensures entries[j].Reply() != entries[k].Reply() && entries[j].Org() != entries[k].Org()
    {
      SameKindApart(t, entries, j, k);
    }
    if j, k :| 0 <= j < |entries| && 0 <= k < |entries| && Hairpin(entries[j], entries[k]) {
      assert entries[j].Org() == entries[k].Reply();
      if j < k { assert entries[k].Shares(entries[j]); }
      if k < j { assert entries[j].Shares(entries[k]); }
    }
  }

  /** Two such entries: a client talks to a peer, and that peer, a client itself, to the NAT port
      the first one was given. The tables hold both. */
  lemma HairpinEntries()
    ensures var a := Entry(OverloadKey(9, 5000, 2, 80, TCP), SyncMeta(PortmapKey(7, V4(1), 1000), 0, 0));
            var b := Entry(OverloadKey(9, 5001, 9, 5000, TCP), SyncMeta(PortmapKey(7, V4(2), 80), 0, 0));
            && !DistinctKeys([a, b])
            && exists t :: Tracks(t, AllocsOf([a, b])) && OneAddress(t, AllocsOf([a, b]))
  {
    var a := Entry(OverloadKey(9, 5000, 2, 80, TCP), SyncMeta(PortmapKey(7, V4(1), 1000), 0, 0));
    var b := Entry(OverloadKey(9, 5001, 9, 5000, TCP), SyncMeta(PortmapKey(7, V4(2), 80), 0, 0));
    HairpinIff(b, a);
    assert [a, b][1].Shares([a, b][0]);
    EmptyTracks();
    var l0: Ledger := map[];
    var t1 := CreateNew(EMPTY, a.meta.pk, a.ok, None);
    assert Users(l0, a.meta.pk) == {} && Users(l0[0 := a.Allocation()], b.meta.pk) == {};
    FilingTracks(EMPTY, l0, 0, a.Allocation(), PortmapData(9, 5000, 1), None);
    FilingTracks(t1, l0[0 := a.Allocation()], 1, b.Allocation(), PortmapData(9, 5001, 1), None);
    var t2 := CreateNew(t1, b.meta.pk, b.ok, None);
    assert AllocsOf([a, b]) == l0[0 := a.Allocation()][1 := b.Allocation()];
    assert Tracks(t2, AllocsOf([a, b])) && OneAddress(t2, AllocsOf([a, b]));
  }
}
