/** What each of the five removals of flows leaves, said of the fields of flows and keys. */
module Sweeps {
  import opened Words
  import opened FlowKeys
  import opened Conntrack

  /** The flow and everything about it is as before. */
  ghost predicate Kept(s: Flows, n: Flows, id: nat)
    requires id in s.vals
  {
    id in n.vals && n.vals[id] == s.vals[id] && KeysOf(n.table, id) == KeysOf(s.table, id)
  }

  ghost predicate Gone(n: Flows, id: nat) { id !in n.vals && KeysOf(n.table, id) == {} }

  /** Nothing has been added. */
  ghost predicate Fewer(s: Flows, n: Flows) {
    n.vals.Keys <= s.vals.Keys && forall k :: k in n.table ==> k in s.table && n.table[k] == s.table[k]
  }

  /** The key leads where it led before. */
  ghost predicate KeyKept(s: Flows, n: Flows, k: FlowKey)
    requires k in s.table
  {
    k in n.table && n.table[k] == s.table[k]
  }

  /** A flow lives on, with nothing but its counter changed, exactly if one of its keys does. */
  ghost predicate LivesByKey(s: Flows, n: Flows, id: nat)
    requires id in s.vals
  {
    && (id in n.vals <==> KeysOf(n.table, id) != {})
    && (id in n.vals ==> n.vals[id] == s.vals[id].(refs := |KeysOf(n.table, id)|))
  }

  lemma RemovalLeaves(s: Flows, n: Flows, r: Removal)
    requires Inv(s) && RemovedExactly(s, n, r)
    ensures Fewer(s, n) && forall id :: id in s.vals ==> LivesByKey(s, n, id)
  {
    forall id | id in s.vals ensures LivesByKey(s, n, id) {
      assert Fated(s, n, r, id);
      if k :| k in KeysOf(s.table, id) && !r.Takes(k, s.vals[id]) {
        assert k in KeysOf(n.table, id);
      }
      if k :| k in KeysOf(n.table, id) {
        assert k in KeysOf(s.table, id) && !r.Takes(k, s.vals[id]);
      }
    }
  }

  lemma TakenIsGone(s: Flows, n: Flows, r: Removal, id: nat)
    requires Inv(s) && RemovedExactly(s, n, r) && id in s.vals
    requires forall k :: k in KeysOf(s.table, id) ==> r.Takes(k, s.vals[id])
    ensures Gone(n, id)
  {
    assert Fated(s, n, r, id);
    assert KeysOf(n.table, id) == {};
  }

  lemma SparedIsKept(s: Flows, n: Flows, r: Removal, id: nat)
    requires Inv(s) && RemovedExactly(s, n, r) && id in s.vals
    requires forall k :: k in KeysOf(s.table, id) ==> !r.Takes(k, s.vals[id])
    ensures Kept(s, n, id)
  {
    assert Fated(s, n, r, id) && RefCounted(s.table, s.vals[id], id);
    assert KeysOf(n.table, id) == KeysOf(s.table, id);
    assert KeysOf(s.table, id) != {};
  }

  // ---------- aging ----------

  /** When the flow expires, on a clock that does not wrap. */
  function Deadline(v: FlowVal, hz: nat): nat { v.info.timestamp + hz * v.info.timeout }

  /** Exactly the flows past their deadline are gone, and the others are as they were. A flow dated
      in the future counts as dated one turn of the 64-bit clock ago. */
  ghost predicate Aged(s: Flows, n: Flows, now: uint64, hz: nat) {
    Fewer(s, n) && forall id :: id in s.vals ==> AgedOne(s, n, now, hz, id)
  }

  ghost predicate AgedOne(s: Flows, n: Flows, now: uint64, hz: nat, id: nat)
    requires id in s.vals
  {
    if (if s.vals[id].info.timestamp <= now then now else now + TWO64) <= Deadline(s.vals[id], hz)
    then Kept(s, n, id) else Gone(n, id)
  }

  lemma AgingRight(s: Flows, n: Flows, now: uint64, hz: nat)
    requires Inv(s) && RemovedExactly(s, n, Aging(now, hz))
    ensures Aged(s, n, now, hz)
  {
    RemovalLeaves(s, n, Aging(now, hz));
    forall id | id in s.vals ensures AgedOne(s, n, now, hz, id) {
      AgingOne(s, n, now, hz, id);
    }
  }

  lemma AgingOne(s: Flows, n: Flows, now: uint64, hz: nat, id: nat)
    requires Inv(s) && RemovedExactly(s, n, Aging(now, hz)) && id in s.vals
    ensures AgedOne(s, n, now, hz, id)
  {
    AgeOf(s.vals[id].info.timestamp, now);
    if (if s.vals[id].info.timestamp <= now then now else now + TWO64) <= Deadline(s.vals[id], hz) {
      SparedIsKept(s, n, Aging(now, hz), id);
    } else {
      TakenIsGone(s, n, Aging(now, hz), id);
    }
  }

  lemma AgeOf(stamp: uint64, now: uint64)
    ensures (now - stamp) % TWO64 == if stamp <= now then now - stamp else now + TWO64 - stamp
  {
  }

  /** A flow is safe from every aging sweep up to its deadline, however many there are. */
  lemma {:induction false} SafeUntilDeadline(ss: seq<Flows>, nows: seq<uint64>, hz: nat, id: nat)
    requires |ss| == |nows| + 1 && id in ss[0].vals
    requires forall i :: 0 <= i < |nows| ==> Aged(ss[i], ss[i + 1], nows[i], hz)
    requires forall i :: 0 <= i < |nows| ==> ss[0].vals[id].info.timestamp <= nows[i] <= Deadline(ss[0].vals[id], hz)
    ensures Kept(ss[0], ss[|nows|], id)
  {
    if nows != [] {
      var n := |nows| - 1;
      SafeUntilDeadline(ss[..n + 1], nows[..n], hz, id);
      assert Aged(ss[n], ss[n + 1], nows[n], hz);
      assert AgedOne(ss[n], ss[n + 1], nows[n], hz, id);
    }
  }

  /** A packet puts the deadline off: the flow it belongs to survives the sweeps that follow within
      its timeout, and the first one after that removes it if it got no other. */
  lemma PacketPutsOff(s: Flows, id: nat, t: uint64, timeout: nat, n: Flows, now: uint64, hz: nat)
    requires Inv(s) && id in s.vals && t <= now
    requires Aged(Next(s, Touches(id, t, timeout)), n, now, hz)
    ensures if now <= t + hz * timeout then Kept(Next(s, Touches(id, t, timeout)), n, id) else Gone(n, id)
  {
    var m := Next(s, Touches(id, t, timeout));
    assert id in m.vals && m.vals[id].info.timestamp == t && m.vals[id].info.timeout == timeout;
    assert AgedOne(m, n, now, hz, id);
  }

  // ---------- removals on request ----------

  /** The port's flows of that NAT type are gone, and no others. */
  ghost predicate NatRemoved(s: Flows, n: Flows, port: uint16, natType: NatType) {
    && Fewer(s, n)
    && forall id :: id in s.vals ==>
         if s.vals[id].info.port == port && s.vals[id].natType == natType then Gone(n, id) else Kept(s, n, id)
  }

  lemma NatFlowsRight(s: Flows, n: Flows, port: uint16, natType: NatType)
    requires Inv(s) && RemovedExactly(s, n, NatFlows(port, natType))
    ensures NatRemoved(s, n, port, natType)
  {
    RemovalLeaves(s, n, NatFlows(port, natType));
    forall id | id in s.vals
      ensures if s.vals[id].info.port == port && s.vals[id].natType == natType then Gone(n, id) else Kept(s, n, id)
    {
      if s.vals[id].info.port == port && s.vals[id].natType == natType {
        TakenIsGone(s, n, NatFlows(port, natType), id);
      } else {
        SparedIsKept(s, n, NatFlows(port, natType), id);
      }
    }
  }

  /** A flow whose packets have been translated to a virtual IP goes with the virtual IP, one that
      is relayed goes with its kind. */
  lemma TypedFlowsGo(s: Flows, t: Step, n: Flows)
    requires Inv(s) && Enabled(s, t) && Benign(s, t) && (t.Presents? || t.Retypes?)
    requires NatRemoved(Next(s, t), n, s.vals[t.id].info.port, if t.Presents? then VipNat else t.natType)
    ensures Gone(n, t.id)
  {
    var id := t.id;
    if t.Presents? {
      var v := s.vals[id];
      assert Sane(v);
      MarkedMove(s, id, v.(natType := VipNat, flagged := true), s.nats, v.reply.(l3Dst := V4(t.vipIp)));
    }
    assert id in Next(s, t).vals;
  }

  /** A relayed flow goes with its target. */
  lemma RelayedFlowGoes(s: Flows, id: nat, natType: NatType, target: Ipv6, n: Flows)
    requires Inv(s) && Enabled(s, Retypes(id, natType, target))
    requires TargetRemoved(Next(s, Retypes(id, natType, target)), n, target)
    ensures Gone(n, id)
  {
    assert id in Next(s, Retypes(id, natType, target)).vals;
  }

  /** The flows relayed to that address are gone, and no others. */
  ghost predicate TargetRemoved(s: Flows, n: Flows, target: Ipv6) {
    && Fewer(s, n)
    && forall id :: id in s.vals ==>
         if s.vals[id].info.underlay == target then Gone(n, id) else Kept(s, n, id)
  }

  lemma LbTargetRight(s: Flows, n: Flows, target: Ipv6)
    requires Inv(s) && RemovedExactly(s, n, LbTarget(target))
    ensures TargetRemoved(s, n, target)
  {
    RemovalLeaves(s, n, LbTarget(target));
    forall id | id in s.vals ensures if s.vals[id].info.underlay == target then Gone(n, id) else Kept(s, n, id) {
      if s.vals[id].info.underlay == target {
        TakenIsGone(s, n, LbTarget(target), id);
      } else {
        SparedIsKept(s, n, LbTarget(target), id);
      }
    }
  }

  /** Keys towards that range of the NAT address are gone, and no others. */
  ghost predicate NeighRemoved(s: Flows, n: Flows, ipv4: uint32, vni: uint32, min: uint16, max: uint16) {
    && Fewer(s, n) && (forall id :: id in s.vals ==> LivesByKey(s, n, id))
    && forall k :: k in s.table ==>
         (KeyKept(s, n, k) <==> k.vni != vni || k.l3Dst != V4(ipv4) || k.portDst < min || k.portDst >= max)
  }

  lemma NeighNatRight(s: Flows, n: Flows, ipv4: uint32, vni: uint32, min: uint16, max: uint16)
    requires Inv(s) && RemovedExactly(s, n, NeighNat(ipv4, vni, min, max))
    ensures NeighRemoved(s, n, ipv4, vni, min, max)
  {
    RemovalLeaves(s, n, NeighNat(ipv4, vni, min, max));
    forall k | k in s.table
      ensures KeyKept(s, n, k) <==> k.vni != vni || k.l3Dst != V4(ipv4) || k.portDst < min || k.portDst >= max
    {
      KeyKeptIff(s, n, NeighNat(ipv4, vni, min, max), k);
    }
  }

  /** Flows that began at the port are gone. Of the others those keys are that are in the network
      and belong to a flow towards the interface's address. */
  ghost predicate IfaceRemoved(s: Flows, n: Flows, port: uint16, ipv4: uint32, vni: uint32) {
    && Fewer(s, n) && (forall id :: id in s.vals ==> LivesByKey(s, n, id))
    && (forall id :: id in s.vals && s.vals[id].info.port == port ==> Gone(n, id))
    && forall k :: k in s.table && s.table[k] in s.vals && s.vals[s.table[k]].info.port != port ==>
         (KeyKept(s, n, k) <==> k.vni != vni || s.vals[s.table[k]].org.l3Dst != V4(ipv4))
  }

  lemma IfaceFlowsRight(s: Flows, n: Flows, port: uint16, ipv4: uint32, vni: uint32)
    requires Inv(s) && RemovedExactly(s, n, IfaceFlows(port, ipv4, vni))
    ensures IfaceRemoved(s, n, port, ipv4, vni)
  {
    RemovalLeaves(s, n, IfaceFlows(port, ipv4, vni));
    forall id | id in s.vals && s.vals[id].info.port == port ensures Gone(n, id) {
      TakenIsGone(s, n, IfaceFlows(port, ipv4, vni), id);
    }
    forall k | k in s.table && s.table[k] in s.vals && s.vals[s.table[k]].info.port != port
      ensures KeyKept(s, n, k) <==> k.vni != vni || s.vals[s.table[k]].org.l3Dst != V4(ipv4)
    {
      KeyKeptIff(s, n, IfaceFlows(port, ipv4, vni), k);
    }
  }

  lemma KeyKeptIff(s: Flows, n: Flows, r: Removal, k: FlowKey)
    requires RefsRight(s.table, s.vals) && RemovedExactly(s, n, r) && k in s.table
    ensures s.table[k] in s.vals && (KeyKept(s, n, k) <==> !r.Takes(k, s.vals[s.table[k]]))
  {
  }
}
