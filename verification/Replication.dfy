/** The active instance's flow table and the NAT tables of its backup, with the messages between
    them: what the active sends at which step, and what the backup makes of it over whole runs. */
module Replication {
  import opened Words
  import opened FlowKeys
  import opened NatTables
  import opened SyncProtocol
  import opened Conntrack
  import opened Failover
  import opened NatFlows

  datatype Ha = Ha(active: Flows, link: seq<Msg>, backup: Tables)

  datatype Event = Acts(t: Conntrack.Step) | Dumps(order: seq<nat>) | Delivers

  // ---------- what is sent ----------

  /** Freeing a NAT flow announces the release of its port. */
  function FreeMsgs(s: Flows, key: FlowKey): seq<Msg> {
    if key in s.table && s.table[key] in s.vals && s.vals[s.table[key]].refs == 1 && s.vals[s.table[key]].Owned().Some?
    then [NatDelete(s.vals[s.table[key]].Owned().value)] else []
  }

  function SweepMsgs(s: Flows, doomed: seq<FlowKey>): seq<Msg> {
    if doomed == [] then [] else
    SweepMsgs(s, doomed[..|doomed| - 1]) + FreeMsgs(Swept(s, doomed[..|doomed| - 1]), doomed[|doomed| - 1])
  }

  /** The message an allocation sends, from the packet at hand. */
  ghost function CreateMsg(s: Flows, id: nat, q: Ask): Msg
    requires id in s.vals && q.HasIp() && q.Outcome(s.nats).Done?
  {
    NatCreate(Got(s, q), MetaFor(q.h, q.ing.Vni(), s.vals[id].info.port))
  }

  /** What a benign step sends; it frees flows in sweeps only. */
  ghost function Sent(s: Flows, t: Conntrack.Step): seq<Msg>
    requires Inv(s) && Conntrack.Enabled(s, t)
  {
    match t
    case Hides(id, q, _, _) => if q.Outcome(s.nats).Done? then [CreateMsg(s, id, q)] else []
    case Sweeps(doomed) => SweepMsgs(s, doomed)
    case _ => []
  }

  ghost function MetasOf(vals: map<nat, FlowVal>): map<nat, SyncMeta> {
    map id | id in vals && vals[id].Owned().Some? :: EntryFor(vals[id]).meta
  }

  /** Whether a dump comes by the flow: under the original key the flow itself remembers. */
  ghost predicate Dumpable(s: Flows, id: nat) {
    id in LedgerOf(s.vals) && s.vals[id].org in s.table && s.table[s.vals[id].org] == id
  }

  lemma DumpableListed(s: Flows, order: seq<nat>)
    requires forall i :: i in order ==> Dumpable(s, i)
    ensures forall i :: i in order ==> i in LedgerOf(s.vals) && i in MetasOf(s.vals)
  {
    forall i | i in order ensures i in LedgerOf(s.vals) && i in MetasOf(s.vals) {
      assert Dumpable(s, i);
    }
  }

  /** dp_synchronize_local_nat_flows, in whatever order the flow table yields. */
  ghost function DumpOf(s: Flows, order: seq<nat>): seq<Msg>
    requires forall i :: i in order ==> Dumpable(s, i)
  {
    DumpableListed(s, order);
    Dump(LedgerOf(s.vals), order, MetasOf(s.vals))
  }

  ghost predicate Enabled(h: Ha, e: Event) {
    match e
    case Acts(t) => Conntrack.Enabled(h.active, t) && Benign(h.active, t)
    case Dumps(order) => forall i :: i in order ==> Dumpable(h.active, i)
    case Delivers => h.link != []
  }

  ghost function After(h: Ha, e: Event): Ha
    requires Inv(h.active) && Enabled(h, e)
  {
    match e
    case Acts(t) => h.(active := Next(h.active, t), link := h.link + Sent(h.active, t))
    case Dumps(order) => h.(link := h.link + DumpOf(h.active, order))
    case Delivers => h.(backup := Apply(h.backup, h.link[0]), link := h.link[1..])
  }

  // ---------- in sync ----------

  /** The table holds the flow's allocation, with what is needed to restore the flow. */
  ghost predicate TaggedVal(u: Tables, v: FlowVal) {
    v.Owned().Some? ==> TaggedOne(u, v.Owned().value, EntryFor(v).meta)
  }

  ghost predicate InSync(s: Flows, u: Tables) {
    Same(u, s.nats) && forall id :: id in s.vals ==> TaggedVal(u, s.vals[id])
  }

  /** The active is in a good state, and once all that is under way has arrived the backup will have
      its tables and the metadata of its flows. */
  ghost predicate Good(h: Ha) { Inv(h.active) && Shaped(h.active) && InSync(h.active, ApplyAll(h.backup, h.link)) }

  /** n has no allocation that s does not have in the same way. */
  ghost predicate Quiet(s: Flows, n: Flows) {
    n.nats == s.nats && forall id :: id in n.vals ==> QuietVal(s, id, n.vals[id])
  }

  ghost predicate QuietVal(s: Flows, id: nat, w: FlowVal) {
    w.Owned().Some? ==> id in s.vals && s.vals[id].Owned() == w.Owned() && EntryFor(s.vals[id]) == EntryFor(w)
  }

  lemma QuietInSync(s: Flows, n: Flows, u: Tables)
    requires InSync(s, u) && Quiet(s, n)
    ensures InSync(n, u)
  {
    forall id | id in n.vals ensures TaggedVal(u, n.vals[id]) {
      assert QuietVal(s, id, n.vals[id]);
      if n.vals[id].Owned().Some? { assert TaggedVal(u, s.vals[id]); }
    }
  }

  lemma UpdateQuiet(s: Flows, id: nat, w: FlowVal, n: Flows)
    requires n.nats == s.nats && n.vals == s.vals[id := w] && QuietVal(s, id, w)
    ensures Quiet(s, n)
  {
  }

  // ---------- the steps that say something ----------

  lemma CreateOverload(t: Tables, u: Tables, pk: PortmapKey, ok: OverloadKey, min: uint16, max: uint16, hash: uint32,
                       meta: SyncMeta)
    requires Same(u, t) && Allocate(t, pk, ok, min, max, hash).Done?
    ensures var a := Alloc(pk, ok.(natPort := Allocate(t, pk, ok, min, max, hash).natPort));
            a.ok !in u.overload && Apply(u, NatCreate(a, meta)).overload == u.overload[a.ok := Some(meta)]
  {
    var a := Alloc(pk, ok.(natPort := Allocate(t, pk, ok, min, max, hash).natPort));
    assert a.ok !in t.overload.Keys && a.ok !in u.overload.Keys;
  }

  lemma FirstPacketAlike(v: FlowVal, q: Ask, stale: VnfType, w: FlowVal)
    requires FirstPacket(v, q, stale) && w.org == v.org && w.info == v.info
    requires w.Owned().Some? && w.Owned().value.pk == AllocFor(q.h, q.ing.Vni(), q.natIp, 0).pk
             && w.Owned().value.ok.l4Type == q.h.l4Type
    ensures Alike(MetaFor(q.h, q.ing.Vni(), v.info.port), EntryFor(w).meta, q.h.l4Type)
  {
  }

  lemma HidesInSync(s: Flows, u: Tables, id: nat, q: Ask, stale: VnfType)
    requires Granted(s, id, q, stale) && SnatSafe(s, id, q, true) && InSync(s, u)
    ensures InSync(Snatted(s, id, q, true), Apply(u, CreateMsg(s, id, q)))
  {
    SnatMoved(s, id, q, stale);
    SnatAllocates(s, id, q, stale);
    var n, meta := Snatted(s, id, q, true), MetaFor(q.h, q.ing.Vni(), s.vals[id].info.port);
    CreateReplays(s.nats, u, q.Wanted().pk, q.Wanted().ok, q.min, q.max, q.hash, meta);
    CreateOverload(s.nats, u, q.Wanted().pk, q.Wanted().ok, q.min, q.max, q.hash, meta);
    FirstPacketAlike(s.vals[id], q, stale, n.vals[id]);
    TagsAfterCreate(s.vals, u, id, n.vals[id], n.vals, Apply(u, CreateMsg(s, id, q)), meta);
  }

  lemma TagsAfterCreate(vals: map<nat, FlowVal>, u: Tables, id: nat, w: FlowVal, vals': map<nat, FlowVal>, u': Tables,
                        meta: SyncMeta)
    requires vals' == vals[id := w]
    requires forall j :: j in vals ==> TaggedVal(u, vals[j])
    requires w.Owned().Some? && w.Owned().value.ok !in u.overload
             && u'.overload == u.overload[w.Owned().value.ok := Some(meta)]
    requires Alike(meta, EntryFor(w).meta, w.Owned().value.ok.l4Type)
    ensures forall j :: j in vals' ==> TaggedVal(u', vals'[j])
  {
    forall j | j in vals' ensures TaggedVal(u', vals'[j]) {
      if j != id { assert TaggedVal(u, vals[j]); }
    }
  }

  lemma TagsAfterFree(s: Flows, u: Tables, id: nat)
    requires PortsRight(s) && id in s.vals && s.vals[id].Owned().Some?
             && forall j :: j in s.vals ==> TaggedVal(u, s.vals[j])
    ensures forall j :: j in s.vals && j != id ==> TaggedVal(Apply(u, NatDelete(s.vals[id].Owned().value)), s.vals[j])
  {
    var l := LedgerOf(s.vals);
    forall j | j in s.vals && j != id ensures TaggedVal(Apply(u, NatDelete(s.vals[id].Owned().value)), s.vals[j]) {
      assert TaggedVal(u, s.vals[j]);
      if s.vals[j].Owned().Some? { assert l[j].ok != l[id].ok; }
    }
  }

  lemma FreeInSync(s: Flows, u: Tables, id: nat, n: Flows)
    requires PortsRight(s) && InSync(s, u) && id in s.vals && s.vals[id].Owned().Some?
    requires n.vals == s.vals - {id} && n.nats == Apply(s.nats, NatDelete(s.vals[id].Owned().value))
    ensures InSync(n, Apply(u, NatDelete(s.vals[id].Owned().value)))
  {
    ApplyRespectsSame(u, s.nats, NatDelete(s.vals[id].Owned().value));
    TagsAfterFree(s, u, id);
  }

  lemma ApplyOne(u: Tables, m: Msg)
    ensures ApplyAll(u, [m]) == Apply(u, m)
  {
    assert [m][..0] == [];
  }

  lemma KeyGoneInSync(s: Flows, u: Tables, key: FlowKey)
    requires PortsRight(s) && InSync(s, u) && key in s.table && s.table[key] in s.vals
    ensures InSync(SweptOne(s, key), ApplyAll(u, FreeMsgs(s, key)))
  {
    var id, n := s.table[key], SweptOne(s, key);
    var v := s.vals[id];
    if v.refs != 1 {
      UpdateQuiet(s, id, v.(refs := v.refs - 1), n);
      QuietInSync(s, n, u);
    } else if v.Owned().Some? {
      FreeInSync(s, u, id, n);
      ApplyOne(u, NatDelete(v.Owned().value));
    } else {
      assert Quiet(s, n);
      QuietInSync(s, n, u);
    }
  }

  lemma {:induction false} ApplyAllConcat(t: Tables, a: seq<Msg>, b: seq<Msg>)
    ensures ApplyAll(t, a + b) == ApplyAll(ApplyAll(t, a), b)
  {
    if b == [] {
      assert a + b == a;
    } else {
      var n := |b| - 1;
      ApplyAllConcat(t, a, b[..n]);
      assert a + b == (a + b[..n]) + [b[n]];
      ApplyAllAppend(t, a + b[..n], b[n]);
    }
  }

  lemma {:induction false} SweepInSync(s: Flows, u: Tables, doomed: seq<FlowKey>)
    requires Inv(s) && InSync(s, u)
    ensures InSync(Swept(s, doomed), ApplyAll(u, SweepMsgs(s, doomed)))
  {
    if doomed != [] {
      var init, last := doomed[..|doomed| - 1], doomed[|doomed| - 1];
      SweepInSync(s, u, init);
      SweepRight(s, init);
      SweepStepInSync(Swept(s, init), ApplyAll(u, SweepMsgs(s, init)), last);
      ApplyAllConcat(u, SweepMsgs(s, init), FreeMsgs(Swept(s, init), last));
    }
  }

  lemma SweepStepInSync(s: Flows, u: Tables, key: FlowKey)
    requires Inv(s) && InSync(s, u)
    ensures InSync(SweptOne(s, key), ApplyAll(u, FreeMsgs(s, key)))
  {
    if key in s.table { KeyGoneInSync(s, u, key); }
  }

  // ---------- the steps that say nothing ----------

  lemma MoveQuiet(s: Flows, id: nat, w: FlowVal, reply: FlowKey)
    requires Inv(s) && Untouched(s, id) && MoveSafe(s, id, reply)
    requires w.refs == s.vals[id].refs && w.reply == s.vals[id].reply && w.natType != NetworkLocal
    ensures Quiet(s, Moved(s.(vals := s.vals[id := w]), id, reply))
  {
    MarkedMove(s, id, w, s.nats, reply);
    assert s.(vals := s.vals[id := w]) == s.(nats := s.nats, vals := s.vals[id := w]);
    var n := Moved(s.(vals := s.vals[id := w]), id, reply);
    UpdateQuiet(s, id, n.vals[id], n);
  }

  lemma StepQuiet(s: Flows, t: Conntrack.Step)
    requires Inv(s) && Conntrack.Enabled(s, t) && Benign(s, t) && !t.Sweeps?
    requires t.Hides? ==> !t.q.Outcome(s.nats).Done?
    ensures Quiet(s, Next(s, t))
  {
    match t {
      case Arrives(key, b) => LookRight(s, key, b);
      case Unreadable(junk) =>
      case Translates(id, dnatIp) =>
        assert Sane(s.vals[id]);
        MoveQuiet(s, id, s.vals[id].(flagged := true), s.vals[id].reply.(l3Src := V4(dnatIp)));
      case Presents(id, vipIp) =>
        MoveQuiet(s, id, s.vals[id].(natType := VipNat, flagged := true), s.vals[id].reply.(l3Dst := V4(vipIp)));
      case Hides(id, q, stale, _) =>
      case Retypes(id, natType, underlay) => UpdateQuiet(s, id, Relayed(s.vals[id], natType, underlay), Next(s, t));
      case Flags(id) => UpdateQuiet(s, id, s.vals[id].(flagged := true), Next(s, t));
      case Touches(id, now, timeout) => UpdateQuiet(s, id, Conntrack.Touched(s.vals[id], now, timeout), Next(s, t));
    }
  }

  lemma StepInSync(s: Flows, u: Tables, t: Conntrack.Step)
    requires Inv(s) && Conntrack.Enabled(s, t) && Benign(s, t) && InSync(s, u)
    ensures InSync(Next(s, t), ApplyAll(u, Sent(s, t)))
  {
    if t.Sweeps? {
      SweepInSync(s, u, t.doomed);
    } else if t.Hides? && t.q.Outcome(s.nats).Done? {
      HidesInSync(s, u, t.id, t.q, t.stale);
      ApplyOne(u, CreateMsg(s, t.id, t.q));
    } else {
      StepQuiet(s, t);
      QuietInSync(s, Next(s, t), u);
    }
  }

  // ---------- runs ----------

  lemma DumpInSync(h: Ha, order: seq<nat>)
    requires Good(h) && Enabled(h, Event.Dumps(order))
    ensures Good(After(h, Event.Dumps(order)))
  {
    var n := Net(h.active.nats, LedgerOf(h.active.vals), h.link, h.backup);
    DumpIsIgnored(n, order, MetasOf(h.active.vals), h.link);
  }

  /** Every event keeps the two instances in sync. */
  lemma EventKeepsGood(h: Ha, e: Event)
    requires Good(h) && Enabled(h, e)
    ensures Good(After(h, e))
  {
    match e {
      case Acts(t) =>
        StepKeepsIff(h.active, t);
        StepKeepsShape(h.active, t);
        StepInSync(h.active, ApplyAll(h.backup, h.link), t);
        ApplyAllConcat(h.backup, h.link, Sent(h.active, t));
      case Dumps(order) => DumpInSync(h, order);
      case Delivers => ApplyAllHead(h.backup, h.link);
    }
  }

  /** Each state comes of the one before. */
  ghost predicate Steps(hs: seq<Ha>, es: seq<Event>) {
    && |hs| == |es| + 1
    && forall k :: 0 <= k < |es| ==> Enabled(hs[k], es[k]) && (Inv(hs[k].active) ==> hs[k + 1] == After(hs[k], es[k]))
  }

  ghost predicate IsRun(hs: seq<Ha>, es: seq<Event>) { Steps(hs, es) && Good(hs[0]) }

  /** Over every run of packets, NAT, sweeps, dumps and deliveries the active stays in a good state
      and the backup, once it has heard everything, has its tables and the metadata of its flows. */
  lemma {:induction false} RunKeepsGood(hs: seq<Ha>, es: seq<Event>, n: nat)
    requires IsRun(hs, es) && n < |hs|
    ensures Good(hs[n])
  {
    if n > 0 {
      RunKeepsGood(hs, es, n - 1);
      EventKeepsGood(hs[n - 1], es[n - 1]);
    }
  }

  /** Two instances that have just started. */
  const START: Ha := Ha(Standby(EMPTY), [], EMPTY)

  lemma StartGood()
    ensures Good(START)
  {
    StandbyInv();
  }

  // ---------- NAT addresses ----------

  ghost predicate OnOneAddress(s: Flows) { OneAddress(s.nats, LedgerOf(s.vals)) }

  /** A client with flows asks for ports of the address they are on. */
  ghost predicate Steady(s: Flows, t: Conntrack.Step)
    requires Conntrack.Enabled(s, t)
  {
    t.Hides? && t.q.Outcome(s.nats).Done? && t.q.Wanted().pk in s.nats.portmap ==>
      s.nats.portmap[t.q.Wanted().pk].natIp == t.q.natIp
  }

  lemma QuietAddress(s: Flows, n: Flows)
    requires Quiet(s, n) && OnOneAddress(s)
    ensures OnOneAddress(n)
  {
    var l, m := LedgerOf(s.vals), LedgerOf(n.vals);
    forall i | i in m ensures m[i].pk in n.nats.portmap && n.nats.portmap[m[i].pk].natIp == m[i].ok.natIp {
      assert QuietVal(s, i, n.vals[i]);
      assert i in l && l[i] == m[i];
    }
  }

  lemma KeyGoneAddress(s: Flows, key: FlowKey)
    requires PortsRight(s) && OnOneAddress(s) && key in s.table && s.table[key] in s.vals
    ensures OnOneAddress(SweptOne(s, key))
  {
    var id, n := s.table[key], SweptOne(s, key);
    var v := s.vals[id];
    if v.refs != 1 {
      UpdateQuiet(s, id, v.(refs := v.refs - 1), n);
      QuietAddress(s, n);
    } else if v.Owned().Some? {
      LedgerAfterFree(s.vals, id);
      ReleaseKeepsAddress(s.nats, LedgerOf(s.vals), id);
    } else {
      assert Quiet(s, n);
      QuietAddress(s, n);
    }
  }

  lemma {:induction false} SweepAddress(s: Flows, doomed: seq<FlowKey>)
    requires Inv(s) && OnOneAddress(s)
    ensures OnOneAddress(Swept(s, doomed))
  {
    if doomed != [] {
      var init, last := doomed[..|doomed| - 1], doomed[|doomed| - 1];
      SweepAddress(s, init);
      SweepRight(s, init);
      if last in Swept(s, init).table { KeyGoneAddress(Swept(s, init), last); }
    }
  }

  /** A benign step leaves every client on one address exactly if it is steady. */
  lemma AddressKeptIff(s: Flows, t: Conntrack.Step)
    requires Inv(s) && OnOneAddress(s) && Conntrack.Enabled(s, t) && Benign(s, t)
    ensures OnOneAddress(Next(s, t)) <==> Steady(s, t)
  {
    if t.Sweeps? {
      SweepAddress(s, t.doomed);
    } else if t.Hides? && t.q.Outcome(s.nats).Done? {
      var q := t.q;
      SnatMoved(s, t.id, q, t.stale);
      SnatAllocates(s, t.id, q, t.stale);
      NatTables.AddressKeptIff(s.nats, LedgerOf(s.vals), t.id, q.Wanted().pk, q.Wanted().ok, q.min, q.max, q.hash);
    } else {
      StepQuiet(s, t);
      QuietAddress(s, Next(s, t));
    }
  }

  /** Over runs of steady steps the active keeps every client on one address. */
  lemma {:induction false} RunKeepsAddress(hs: seq<Ha>, es: seq<Event>, n: nat)
    requires IsRun(hs, es) && n < |hs| && OnOneAddress(hs[0].active)
    requires forall k :: 0 <= k < n && es[k].Acts? ==> Steady(hs[k].active, es[k].t)
    ensures OnOneAddress(hs[n].active)
  {
    if n > 0 {
      RunKeepsAddress(hs, es, n - 1);
      RunKeepsGood(hs, es, n - 1);
      if es[n - 1].Acts? { AddressKeptIff(hs[n - 1].active, es[n - 1].t); }
    }
  }
}
