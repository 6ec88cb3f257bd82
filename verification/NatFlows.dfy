/** What the flow table knows of its NAT flows: which keys they are filed under, and that these can
    be computed from the allocation a flow owns. */
module NatFlows {
  import opened Words
  import opened FlowKeys
  import opened NatTables
  import opened Conntrack
  import opened Failover

  /** What dp_sync_snat_flow sends of a NAT flow. */
  function EntryFor(v: FlowVal): Entry
    requires v.Owned().Some?
  {
    Entry(v.Owned().value.ok, SyncMeta(v.Owned().value.pk, v.org.src, v.info.port))
  }

  /** A NAT flow's reply key is the one restored from its entry, unless it is ICMPv6. */
  ghost predicate ValShaped(v: FlowVal) {
    v.natType == NetworkLocal ==> v.Owned().Some? && (v.reply == EntryFor(v).Reply() <==> v.reply.proto != ICMPV6)
  }

  /** A key of an untouched flow is one of the two it was created with; a key of a NAT flow is the
      original key restored from its entry, or its reply key. */
  ghost predicate KeyShaped(v: FlowVal, k: FlowKey) {
    && (!v.flagged ==> k == v.org || k == v.reply)
    && (v.natType == NetworkLocal ==> v.Owned().Some? && (k == EntryFor(v).Org() || k == v.reply))
  }

  ghost predicate Shaped(s: Flows) {
    && (forall k :: k in s.table ==> s.table[k] in s.vals && KeyShaped(s.vals[s.table[k]], k))
    && (forall id :: id in s.vals ==> ValShaped(s.vals[id]))
  }

  /** Changes that keep a value's shape. */
  lemma UpdateKeepsShape(s: Flows, id: nat, w: FlowVal)
    requires Shaped(s) && id in s.vals
             && (s.vals[id].natType == NetworkLocal ==>
                 w == s.vals[id].(flagged := w.flagged, info := w.info) && w.info.port == s.vals[id].info.port)
    requires s.vals[id].natType != NetworkLocal ==>
             w.natType != NetworkLocal
                 && (!w.flagged ==> !s.vals[id].flagged && w.org == s.vals[id].org && w.reply == s.vals[id].reply)
    requires s.vals[id].flagged ==> w.flagged
    ensures Shaped(s.(vals := s.vals[id := w]))
  {
    var n := s.(vals := s.vals[id := w]);
    forall k | k in n.table ensures n.table[k] in n.vals && KeyShaped(n.vals[n.table[k]], k) {
      assert KeyShaped(s.vals[s.table[k]], k);
    }
    assert ValShaped(s.vals[id]);
  }

  lemma InsertKeepsShape(s: Flows, key: FlowKey, b: Info)
    requires Shaped(s) && s.nextId !in s.vals
    ensures Shaped(Inserted(s, key, b))
  {
    var n := Inserted(s, key, b);
    forall k | k in n.table ensures n.table[k] in n.vals && KeyShaped(n.vals[n.table[k]], k) {
      if k in s.table { assert KeyShaped(s.vals[s.table[k]], k); }
    }
  }

  lemma SweepKeepsShape(s: Flows, doomed: seq<FlowKey>, n: Flows)
    requires Shaped(s) && Thinned(s, doomed, n) && RefsRight(n.table, n.vals)
    ensures Shaped(n)
  {
    forall k | k in n.table ensures n.table[k] in n.vals && KeyShaped(n.vals[n.table[k]], k) {
      assert KeyShaped(s.vals[s.table[k]], k);
      SameButRefs(s.vals[s.table[k]], n.vals[n.table[k]]);
    }
    forall id | id in n.vals ensures ValShaped(n.vals[id]) {
      assert ValShaped(s.vals[id]);
      SameButRefs(s.vals[id], n.vals[id]);
    }
  }

  lemma SameButRefs(v: FlowVal, w: FlowVal)
    requires w == v.(refs := w.refs)
    ensures w.Owned() == v.Owned() && (v.Owned().Some? ==> EntryFor(w) == EntryFor(v))
  {
  }

  /** The value a safe move to a new reply key leaves behind. */
  lemma MoveKeepsShape(s: Flows, id: nat, w: FlowVal, n: Flows)
    requires Shaped(s) && id in s.vals && n.table == (s.table - {s.vals[id].reply})[w.reply := id]
             && n.vals == s.vals[id := w]
    requires w.flagged && ValShaped(w) && !s.vals[id].flagged
    requires w.natType == NetworkLocal ==> w.Owned().Some? && EntryFor(w).Org() == s.vals[id].org
    ensures Shaped(n)
  {
    forall k | k in n.table ensures n.table[k] in n.vals && KeyShaped(n.vals[n.table[k]], k) {
      if k in s.table { assert KeyShaped(s.vals[s.table[k]], k); }
    }
  }

  /** The marked flow's keys are those restored from its entry. */
  lemma SnatShapes(v: FlowVal, q: Ask, stale: VnfType, natPort: uint16, w: FlowVal)
    requires Sane(v) && !v.flagged && FirstPacket(v, q, stale)
    requires w == Marked(v, q.ing.Vni()).(reply := NattedReply(q.h, v.org, q.natIp, natPort), refs := w.refs)
    ensures w.Owned() == Some(AllocFor(q.h, q.ing.Vni(), q.natIp, natPort)) && ValShaped(w)
            && EntryFor(w).Org() == v.org
  {
    ReleaseFindsAllocation(q.h, q.ing, stale, q.natIp, natPort);
    FailoverKeysIff(q.h, q.ing, stale, q.natIp, natPort, v.info.port);
    var a := AllocFor(q.h, q.ing.Vni(), q.natIp, natPort);
    SameRestored(a.ok, MetaFor(q.h, q.ing.Vni(), v.info.port), EntryFor(w).meta);
  }

  /** Of the metadata only the client and, for ICMP, the type matter to a restored key. */
  lemma SameRestored(ok: OverloadKey, m: SyncMeta, n: SyncMeta)
    requires m.pk == n.pk && (ok.l4Type == ICMP || ok.l4Type == ICMPV6 ==> m.icmpType == n.icmpType)
    ensures RestoredOrg(ok, m) == RestoredOrg(ok, n) && RestoredReply(ok, m) == RestoredReply(ok, n)
  {
  }

  lemma SnatKeepsShape(s: Flows, id: nat, q: Ask, stale: VnfType)
    requires Granted(s, id, q, stale) && Shaped(s) && SnatSafe(s, id, q, true)
    ensures Shaped(Snatted(s, id, q, true))
  {
    assert Sane(s.vals[id]);
    SnatMoved(s, id, q, stale);
    var n := Snatted(s, id, q, true);
    SnatShapes(s.vals[id], q, stale, q.Outcome(s.nats).natPort, n.vals[id]);
    MoveKeepsShape(s, id, n.vals[id], n);
  }

  lemma PlainMoveKeepsShape(s: Flows, id: nat, w: FlowVal, reply: FlowKey)
    requires Inv(s) && Untouched(s, id) && Shaped(s) && MoveSafe(s, id, reply)
    requires w.refs == s.vals[id].refs && w.reply == s.vals[id].reply && w.flagged && w.natType != NetworkLocal
    ensures Shaped(Moved(s.(vals := s.vals[id := w]), id, reply))
  {
    MarkedMove(s, id, w, s.nats, reply);
    assert s.(vals := s.vals[id := w]) == s.(nats := s.nats, vals := s.vals[id := w]);
    var n := Moved(s.(vals := s.vals[id := w]), id, reply);
    MoveKeepsShape(s, id, n.vals[id], n);
  }

  /** Every benign step keeps the shape. */
  lemma StepKeepsShape(s: Flows, t: Step)
    requires Inv(s) && Shaped(s) && Enabled(s, t) && Benign(s, t)
    ensures Shaped(Next(s, t))
  {
    match t {
      case Arrives(key, b) =>
        LookRight(s, key, b);
        assert s.nextId !in s.vals;
        InsertKeepsShape(s, key, b);
      case Unreadable(junk) =>
      case Translates(id, dnatIp) =>
        assert Sane(s.vals[id]);
        PlainMoveKeepsShape(s, id, s.vals[id].(flagged := true), s.vals[id].reply.(l3Src := V4(dnatIp)));
      case Presents(id, vipIp) =>
        PlainMoveKeepsShape(s, id, s.vals[id].(natType := VipNat, flagged := true),
            s.vals[id].reply.(l3Dst := V4(vipIp)));
      case Hides(id, q, stale, _) =>
        if q.Outcome(s.nats).Done? { SnatKeepsShape(s, id, q, stale); }
      case Retypes(id, natType, underlay) =>
        assert Sane(s.vals[id]);
        UpdateKeepsShape(s, id, Relayed(s.vals[id], natType, underlay));
      case Flags(id) => UpdateKeepsShape(s, id, s.vals[id].(flagged := true));
      case Touches(id, now, timeout) => UpdateKeepsShape(s, id, Conntrack.Touched(s.vals[id], now, timeout));
      case Sweeps(doomed) =>
        SweepRight(s, doomed);
        SweepKeepsShape(s, doomed, Swept(s, doomed));
    }
  }
}
