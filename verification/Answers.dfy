/** From packets to flows: what a first packet leaves in the flow table, and that the answer to it
    finds the flow again. */
module Answers {
  import opened Words
  import opened FlowKeys
  import opened NatPorts
  import opened NatTables
  import opened Conntrack

  /** Both keys lead to flow id, which is as its first packet made it. */
  ghost predicate IsNew(n: Flows, id: nat, key: FlowKey, b: Info) {
    && id in n.vals && n.vals[id].org == key && n.vals[id].reply == Invert(key)
    && n.vals[id].natType == NoNat && !n.vals[id].flagged && n.vals[id].info == b
    && KeysOf(n.table, id) == {key, Invert(key)}
  }

  /** A packet of an unknown flow whose answers could be told apart makes a new one of it. */
  lemma NewFlow(s: Flows, key: FlowKey, b: Info)
    requires Inv(s) && key !in s.table && FreshReply(s, key)
    ensures var (n, id) := Looked(s, key, b); id !in s.vals && IsNew(n, id, key, b)
  {
    LookRight(s, key, b);
    var (n, id) := Looked(s, key, b);
    forall k | k in KeysOf(n.table, id) ensures k in {key, Invert(key)} {
      if k in s.table { assert s.table[k] in s.vals; }
    }
    assert KeysOf(n.table, id) == {key, Invert(key)};
  }

  /** The first packet of a flow without NAT, and its answer: one flow. */
  lemma PlainAnswerReaches(s: Flows, h: Headers, ing: Ingress, stale: VnfType, b: Info, tunVnf: VnfType,
                           stale': VnfType,
                           b': Info)
    requires Inv(s) && ing.Virtual? && !ing.hasNat && !ing.hasLbPrefix && h.l3.Ip4? && Answerable(h)
    requires tunVnf != Nat && tunVnf != LbAliasPfx
    requires BuildKey(h, ing, stale).Some? ==>
               BuildKey(h, ing, stale).value !in s.table && FreshReply(s, BuildKey(h, ing, stale).value)
    ensures BuildKey(h, ing, stale).Some?
    ensures var (n, id) := Looked(s, BuildKey(h, ing, stale).value, b);
            var back := BuildKey(AnswerTo(h), Physical(ing.Vni(), tunVnf), stale');
            back.Some? && Inv(n) && Looked(n, back.value, b').1 == id
  {
    PlainAnswerFoundIff(h, ing, stale, tunVnf, stale');
    var key := BuildKey(h, ing, stale).value;
    NewFlow(s, key, b);
    LookRight(s, key, b);
    var (n, id) := Looked(s, key, b);
    assert Invert(key) in KeysOf(n.table, id);
    LookRight(n, Invert(key), b');
  }

  /** After a translation that got its port and was safe the answer leads to the flow, for all the
      packets that can be answered. The flow keeps what its first packet made it, and is one of the
      network-local NAT now. */
  lemma NatAnswerReaches(s: Flows, id: nat, q: Ask, stale: VnfType, stale': VnfType, b: Info)
    requires Granted(s, id, q, stale) && Answerable(q.h) && MoveSafe(s, id, NewReply(s, id, q))
    requires q.Wanted().pk in s.nats.portmap ==> s.nats.portmap[q.Wanted().pk].flowCnt < 0xffff
    ensures var n, answer := Snatted(s, id, q, true), AnswerTo(OnWire(q.h, q.natIp, q.Outcome(s.nats).natPort));
            var key := BuildKey(answer, Physical(q.ing.Vni(), Nat), stale');
            && Inv(n) && key.Some? && Looked(n, key.value, b).1 == id && id in n.vals
            && n.vals[id].natType == NetworkLocal && n.vals[id].org == s.vals[id].org
            && n.vals[id].info == s.vals[id].info
  {
    assert !q.Untranslatable();
    SnatMoved(s, id, q, stale);
    SnatMovedIff(s, id, q, stale);
    NatAnswerFound(q.h, q.ing, stale, q.natIp, q.Outcome(s.nats).natPort, stale');
    LookRight(Snatted(s, id, q, true), NewReply(s, id, q), b);
  }

  /** A packet that cannot be answered cannot be translated to IPv4 either. */
  lemma Nat64AnswerableIff(h: Headers)
    requires h.l3.Ip6?
    ensures Translatable(h) <==> Answerable(h)
  {
  }

  /** The same for an interface with a virtual IP. */
  lemma VipAnswerReaches(s: Flows, id: nat, h: Headers, ing: Ingress, stale: VnfType, vipIp: uint32, tunVnf: VnfType,
                         stale': VnfType, b: Info)
    requires Inv(s) && Untouched(s, id) && BuildKey(h, ing, stale) == Some(s.vals[id].org)
    requires ing.Virtual? && !ing.hasNat && !ing.hasLbPrefix && h.l3.Ip4? && Answerable(h)
    requires tunVnf != Nat && tunVnf != LbAliasPfx && MoveSafe(s, id, s.vals[id].reply.(l3Dst := V4(vipIp)))
    ensures var n := Vipped(s, id, vipIp);
            var key := BuildKey(AnswerTo(h.(l3 := Ip4(vipIp, h.l3.dst4))), Physical(ing.Vni(), tunVnf), stale');
            && Inv(n) && key.Some? && Looked(n, key.value, b).1 == id && id in n.vals
            && n.vals[id].natType == VipNat && n.vals[id].org == s.vals[id].org && n.vals[id].info == s.vals[id].info
  {
    var v := s.vals[id];
    assert Sane(v);
    VipKeepsIff(s, id, vipIp);
    MarkedMove(s, id, v.(natType := VipNat, flagged := true), s.nats, v.reply.(l3Dst := V4(vipIp)));
    VipAnswerFoundIff(h, ing, stale, vipIp, tunVnf, stale');
    LookRight(Vipped(s, id, vipIp), v.reply.(l3Dst := V4(vipIp)), b);
  }

  /** And for destination NAT, whose answer comes from the interface. */
  lemma DnatAnswerReaches(s: Flows, id: nat, h: Headers, vni: uint32, tunVnf: VnfType, stale: VnfType, dnatIp: uint32,
                          stale': VnfType, b: Info)
    requires Inv(s) && Untouched(s, id) && BuildKey(h, Physical(vni, tunVnf), stale) == Some(s.vals[id].org)
    requires h.l3.Ip4? && Answerable(h) && tunVnf != Nat && tunVnf != LbAliasPfx
    requires MoveSafe(s, id, s.vals[id].reply.(l3Src := V4(dnatIp)))
    ensures var n := Dnatted(s, id, dnatIp);
            var key := BuildKey(AnswerTo(h.(l3 := Ip4(h.l3.src4, dnatIp))), Virtual(vni, false, false), stale');
            && Inv(n) && key.Some? && Looked(n, key.value, b).1 == id && id in n.vals
            && n.vals[id].natType == s.vals[id].natType && n.vals[id].org == s.vals[id].org
            && n.vals[id].info == s.vals[id].info
  {
    var v := s.vals[id];
    assert Sane(v);
    DnatKeepsIff(s, id, dnatIp);
    MarkedMove(s, id, v.(flagged := true), s.nats, v.reply.(l3Src := V4(dnatIp)));
    DnatAnswerFoundIff(h, vni, tunVnf, stale, dnatIp, false, false, stale');
    LookRight(Dnatted(s, id, dnatIp), v.reply.(l3Src := V4(dnatIp)), b);
  }
}
