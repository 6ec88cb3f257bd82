/** The flow table as the running process keeps it. Each method does to the fields what the
    functions of Conntrack and Failover do to a value of type Flows. */
module FlowTable {
  import opened Words
  import opened FlowKeys
  import opened NatTables
  import opened Conntrack
  import opened Failover
  import opened Sweeps

  /** The keys not yet looked at are todo; of the others those the removal takes are doomed. */
  ghost predicate Examined(s: Flows, doomed: seq<FlowKey>, todo: set<FlowKey>, r: Removal)
    requires RefsRight(s.table, s.vals)
  {
    && todo <= s.table.Keys
    && (forall k :: k in todo ==> k !in doomed)
    && (forall k :: k in s.table && k !in todo ==> (k in doomed <==> r.Takes(k, s.vals[s.table[k]])))
  }

  ghost function WithTaken(s: Flows, doomed: seq<FlowKey>, key: FlowKey, r: Removal): seq<FlowKey>
    requires RefsRight(s.table, s.vals) && key in s.table
  {
    if r.Takes(key, s.vals[s.table[key]]) then doomed + [key] else doomed
  }

  lemma ExaminedOne(s: Flows, doomed: seq<FlowKey>, todo: set<FlowKey>, key: FlowKey, r: Removal)
    requires RefsRight(s.table, s.vals) && Examined(s, doomed, todo, r) && key in todo
    ensures Examined(s, WithTaken(s, doomed, key, r), todo - {key}, r)
  {
    assert forall k :: k in todo - {key} ==> k in todo;
  }

  lemma SweptMore(s: Flows, doomed: seq<FlowKey>, key: FlowKey)
    ensures Swept(s, doomed + [key]) == SweptOne(Swept(s, doomed), key)
  {
    assert (doomed + [key])[..|doomed|] == doomed;
  }

  lemma Spared(s: Flows, doomed: seq<FlowKey>, n: Flows, key: FlowKey, r: Removal)
    requires RefsRight(n.table, n.vals) && Thinned(s, doomed, n) && key in s.table && key !in doomed
    ensures key in n.table && n.table[key] == s.table[key] && s.table[key] in n.vals && s.table[key] in s.vals
    ensures r.Takes(key, n.vals[s.table[key]]) <==> r.Takes(key, s.vals[s.table[key]])
    ensures SweptOne(n, key) == FlowDeleted(n, key, s.table[key])
  {
    var id := s.table[key];
    assert key in n.table && id in n.vals;
  }

  /** What the sweep finds when it comes to a key it has spared so far. */
  lemma YetToExamine(s: Flows, doomed: seq<FlowKey>, key: FlowKey, r: Removal)
    requires Inv(s) && key in s.table && key !in doomed
    ensures var n := Swept(s, doomed);
            && key in n.table && n.table[key] == s.table[key] && s.table[key] in n.vals
            && (r.Takes(key, n.vals[s.table[key]]) <==> r.Takes(key, s.vals[s.table[key]]))
            && Swept(s, doomed + [key]) == FlowDeleted(n, key, s.table[key])
  {
    SweepRight(s, doomed);
    Spared(s, doomed, Swept(s, doomed), key, r);
    SweptMore(s, doomed, key);
  }

  class Table {
    var table: map<FlowKey, nat>
    var vals: map<nat, FlowVal>
    var nextId: nat
    ghost var freed: seq<nat>
    const store: NatStore
    var slots: seq<FlowKey>
    var index: nat
    var prev: Option<nat>
    var cached: nat

    ghost function Now(): Flows
      reads this, store
    {
      Flows(table, vals, nextId, freed, store.Now(), Cache(slots, index, prev, cached))
    }

    constructor ()
      ensures fresh(store) && Now() == Standby(EMPTY) && Inv(Now())
    {
      table, vals, nextId, freed := map[], map[], 0, [];
      slots, index, prev, cached := [NO_KEY, NO_KEY], 0, None, 0;
      var s := new NatStore();
      store := s;
      new;
      StandbyInv();
    }

    method FlushCache()
      modifies this`prev
      ensures Now() == old(Now()).(cache := Flushed(old(Now()).cache))
    {
      prev := None;
    }

    /** dp_remove_network_snat_port */
    method RemovePort(v: FlowVal)
      modifies store
      ensures Now() == Released(old(Now()), v)
    {
      var a := AllocOf(v.org, v.reply, v.natVni);
      if a.Some? {
        store.DeleteEntries(a.value.pk, a.value.ok);
      }
    }

    method FreeFlow(id: nat)
      requires id in vals
      modifies this, store
      ensures Now() == Freed(old(Now()), id)
    {
      if vals[id].natType == NetworkLocal {
        RemovePort(vals[id]);
      }
      FlushCache();
      vals := vals - {id};
      freed := freed + [id];
    }

    method RefDec(id: nat)
      requires id in vals
      modifies this, store
      ensures Now() == RefDropped(old(Now()), id)
    {
      var refs := vals[id].refs - 1;
      if refs == 0 {
        FreeFlow(id);
      } else {
        vals := vals[id := vals[id].(refs := refs)];
      }
    }

    method DeleteFlow(key: FlowKey, id: nat) returns (found: bool)
      requires id in vals
      modifies this, store
      ensures found == (key in old(table)) && Now() == FlowDeleted(old(Now()), key, id)
    {
      found := key in table;
      if found {
        table := table - {key};
        RefDec(id);
        FlushCache();
      }
    }

    method AddFlow(key: FlowKey, id: nat)
      modifies this`table
      ensures table == old(table)[key := id]
    {
      table := table[key := id];
    }

    method RefInc(id: nat)
      requires id in vals
      modifies this`vals
      ensures vals == old(vals)[id := old(vals)[id].(refs := old(vals)[id].refs + 1)]
    {
      vals := vals[id := vals[id].(refs := vals[id].refs + 1)];
    }

    method InsertEntry(key: FlowKey, b: Info) returns (id: nat)
      modifies this`table, this`vals, this`nextId
      ensures id == old(nextId) && Now() == Inserted(old(Now()), key, b)
    {
      id := nextId;
      nextId := nextId + 1;
      var inverted := Invert(key);
      vals := vals[id := FlowVal(key, inverted, NoNat, 0, false, 1, b)];
      AddFlow(key, id);
      AddFlow(inverted, id);
      RefInc(id);
    }

    method CacheFlowVal(id: nat)
      modifies this`index, this`prev, this`cached
      ensures Now() == old(Now()).(cache := Cached(old(Now()).cache, id))
    {
      prev := Some(index % 2);
      index := index + 1;
      cached := id;
    }

    /** A packet gets the live value that the table holds for its key, whether or not the cache
        answers. */
    method GetFlowVal(key: FlowKey, b: Info) returns (id: nat)
      requires Inv(Now())
      modifies this
      ensures (Now(), id) == Looked(old(Now()), key, b)
      ensures key in old(table) ==>
              id == old(table)[key] && table == old(table) && vals == old(vals) && id in vals && id !in freed
      ensures Inv(Now()) <==> key in old(table) || FreshReply(old(Now()), key)
    {
      LookRight(Now(), key, b);
      id := LookUp(key, b);
    }

    method LookUp(key: FlowKey, b: Info) returns (id: nat)
      requires |slots| == 2 && (prev.Some? ==> prev.value < 2)
      modifies this`slots, this`index, this`prev, this`cached, this`table, this`vals, this`nextId
      ensures (Now(), id) == Looked(old(Now()), key, b)
    {
      slots := slots[index % 2 := key];
      if prev.Some? && slots[prev.value] == key {
        id := cached;
      } else if key in table {
        id := table[key];
        CacheFlowVal(id);
      } else {
        id := InsertEntry(key, b);
        CacheFlowVal(id);
      }
    }

    /** The tail of the NAT nodes. */
    method MoveReply(id: nat, reply: FlowKey)
      requires id in vals
      modifies this, store
      ensures Now() == Moved(old(Now()), id, reply)
    {
      var _ := DeleteFlow(vals[id].reply, id);
      if id in vals {
        vals := vals[id := vals[id].(reply := reply)];
      }
      AddFlow(reply, id);
      if id in vals {
        RefInc(id);
      }
    }

    method Dnat(id: nat, dnatIp: uint32)
      requires id in vals
      modifies this, store
      ensures Now() == Dnatted(old(Now()), id, dnatIp)
    {
      var reply := vals[id].reply.(l3Src := V4(dnatIp));
      vals := vals[id := vals[id].(flagged := true)];
      MoveReply(id, reply);
    }

    /** Source NAT of a flow's first packet. */
    method Snat(id: nat, q: Ask, inserted: bool) returns (done: bool)
      requires id in vals && q.HasIp()
      modifies this, store
      ensures Now() == Snatted(old(Now()), id, q, inserted)
      ensures done ==> inserted && !q.Untranslatable()
    {
      var a := q.Wanted();
      var port := store.AllocatePort(a.pk, a.ok, q.min, q.max, q.hash);
      if port.None? {
        return false;
      }
      var v := vals[id];
      if q.Untranslatable() {
        RemovePort(v);
        return false;
      }
      var reply :=
        if q.h.l3.Ip6? then ReplyNat64(v.reply, q.h, q.natIp, port.value) else ReplyNat4(v.reply, q.natIp, port.value);
      vals := vals[id := Marked(v, q.ing.Vni())];
      if inserted {
        MoveReply(id, reply);
        return true;
      }
      var _ := DeleteFlow(v.reply, id);
      if id in vals {
        vals := vals[id := vals[id].(reply := reply)];
        RemovePort(vals[id]);
      }
      return false;
    }

    method VisitKey(key: FlowKey, r: Removal, ghost s: Flows, ghost doomed: seq<FlowKey>)
        returns (ghost more: seq<FlowKey>)
      requires Inv(s) && key in s.table && key !in doomed && Now() == Swept(s, doomed)
      modifies this, store
      ensures Now() == Swept(s, more) && more == WithTaken(s, doomed, key, r)
    {
      more := WithTaken(s, doomed, key, r);
      YetToExamine(s, doomed, key, r);
      var id := table[key];
      if r.Takes(key, vals[id]) {
        var _ := DeleteFlow(key, id);
      }
    }

    /** A sweep in whatever order the table yields its keys, deleting the current one on the way. */
    method Sweep(r: Removal)
      requires Inv(Now())
      modifies this, store
      ensures Inv(Now()) && RemovedExactly(old(Now()), Now(), r)
    {
      ghost var s, doomed := Now(), [];
      var todo := table.Keys;
      while todo != {}
        invariant Now() == Swept(s, doomed) && Examined(s, doomed, todo, r)
        decreases todo
      {
        var key :| key in todo;
        ghost var was := doomed;
        doomed := VisitKey(key, r, s, doomed);
        ExaminedOne(s, was, todo, key, r);
        todo := todo - {key};
      }
      RemovalExact(s, doomed, r);
    }

    method ProcessAgedFlows(now: uint64, hz: nat)
      requires Inv(Now())
      modifies this, store
      ensures Inv(Now()) && Aged(old(Now()), Now(), now, hz)
    {
      Sweep(Aging(now, hz));
      AgingRight(old(Now()), Now(), now, hz);
    }

    method RemoveNatFlows(port: uint16, natType: NatType)
      requires Inv(Now())
      modifies this, store
      ensures Inv(Now()) && NatRemoved(old(Now()), Now(), port, natType)
    {
      Sweep(NatFlows(port, natType));
      NatFlowsRight(old(Now()), Now(), port, natType);
    }

    method RemoveNeighnatFlows(ipv4: uint32, vni: uint32, min: uint16, max: uint16)
      requires Inv(Now())
      modifies this, store
      ensures Inv(Now()) && NeighRemoved(old(Now()), Now(), ipv4, vni, min, max)
    {
      Sweep(NeighNat(ipv4, vni, min, max));
      NeighNatRight(old(Now()), Now(), ipv4, vni, min, max);
    }

    method RemoveIfaceFlows(port: uint16, ipv4: uint32, vni: uint32)
      requires Inv(Now())
      modifies this, store
      ensures Inv(Now()) && IfaceRemoved(old(Now()), Now(), port, ipv4, vni)
    {
      Sweep(IfaceFlows(port, ipv4, vni));
      IfaceFlowsRight(old(Now()), Now(), port, ipv4, vni);
    }

    method RemoveLbtargetFlows(target: Ipv6)
      requires Inv(Now())
      modifies this, store
      ensures Inv(Now()) && TargetRemoved(old(Now()), Now(), target)
    {
      Sweep(LbTarget(target));
      LbTargetRight(old(Now()), Now(), target);
    }

    /** dp_create_sync_snat_flows: one flow for each replicated entry, in some order. */
    method CreateSyncFlows(now: uint64, timeout: nat) returns (ghost entries: seq<Entry>)
      requires forall ok :: ok in store.overload ==> store.overload[ok].Some?
      modifies this
      ensures Now() == RestoredAll(old(Now()), entries, now, timeout)
      ensures forall ok :: ok in store.overload ==> Entry(ok, store.overload[ok].value) in entries
      ensures forall e :: e in entries ==> e.ok in store.overload && store.overload[e.ok] == Some(e.meta)
      ensures forall j, k :: 0 <= j < k < |entries| ==> entries[j].ok != entries[k].ok
    {
      entries := [];
      ghost var s := Now();
      var todo := store.overload.Keys;
      while todo != {}
        invariant todo <= store.overload.Keys && Now() == RestoredAll(s, entries, now, timeout)
        invariant forall ok :: ok in store.overload && ok !in todo ==> Entry(ok, store.overload[ok].value) in entries
        invariant forall e :: e in entries ==>
                  e.ok in store.overload && e.ok !in todo && store.overload[e.ok] == Some(e.meta)
        invariant forall j, k :: 0 <= j < k < |entries| ==> entries[j].ok != entries[k].ok
        decreases todo
      {
        var ok :| ok in todo;
        todo := todo - {ok};
        var e := Entry(ok, store.overload[ok].value);
        FromSync(e, now, timeout);
        assert (entries + [e])[..|entries|] == entries;
        entries := entries + [e];
      }
    }

    method FromSync(e: Entry, now: uint64, timeout: nat)
      modifies this`table, this`vals, this`nextId
      ensures Now() == Restored(old(Now()), e, now, timeout)
    {
      var stored := StoredOrg(e.ok, e.meta);
      if stored in table {
        return;
      }
      var id := nextId;
      nextId := nextId + 1;
      vals := vals[id := FlowVal(stored, e.Reply(), NetworkLocal, e.meta.pk.vni, true, 1,
          Info(now, timeout, e.meta.port, ZERO_IPV6))];
      AddFlow(e.Org(), id);
      AddFlow(e.Reply(), id);
      RefInc(id);
    }
  }
}
