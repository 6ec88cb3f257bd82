/** Flow keys: how a packet becomes one, how a key is turned around, and how the NAT tables' keys
    and the keys of a restored flow are computed from them. */
module FlowKeys {
  import opened Words

  const TCP: uint8 := 6
  const UDP: uint8 := 17
  const ICMP: uint8 := 1
  const ICMPV6: uint8 := 58

  const ECHO_REPLY: uint8 := 0
  const ECHO_REQUEST: uint8 := 8
  const ICMP_ERROR: uint8 := 3
  const ECHO_REQUEST6: uint8 := 128
  const ECHO_REPLY6: uint8 := 129

  // ---------- addresses ----------

  datatype IpAddr = V4(ipv4: uint32) | V6(ipv6: Ipv6)

  /** 64:ff9b::/96, the well-known prefix of section 2.1 of RFC 6052. */
  const NAT64_PREFIX: seq<uint8> := [0x00, 0x64, 0xff, 0x9b, 0, 0, 0, 0, 0, 0, 0, 0]

  predicate IsNat64(ip: Ipv6) { ip[..12] == NAT64_PREFIX }

  function Embed(ipv4: uint32): Ipv6 {
    var hi := ipv4 / 0x1_0000;
    NAT64_PREFIX + [hi / 0x100, hi % 0x100, ipv4 / 0x100 % 0x100, ipv4 % 0x100]
  }

  function Embedded(ip: Ipv6): uint32 {
    (ip[12] as int * 0x100 + ip[13]) * 0x1_0000 + (ip[14] as int * 0x100 + ip[15])
  }

  lemma LowHalf(hi: int, lo: int)
    requires 0 <= hi < 0x1_0000 && 0 <= lo < 0x1_0000
    ensures (hi * 0x1_0000 + lo) / 0x100 == hi * 0x100 + lo / 0x100 && (hi * 0x1_0000 + lo) % 0x100 == lo % 0x100
  {
  }

  lemma HalfRoundTrip(hi: int, lo: int)
    requires 0 <= hi < 0x1_0000 && 0 <= lo < 0x1_0000
    ensures hi / 0x100 < 0x100 && hi == hi / 0x100 * 0x100 + hi % 0x100
    ensures (hi * 0x1_0000 + lo) / 0x1_0000 == hi
    ensures (hi * 0x1_0000 + lo) / 0x100 % 0x100 == lo / 0x100 && (hi * 0x1_0000 + lo) % 0x100 == lo % 0x100
  {
    LowHalf(hi, lo);
  }

  /** Extracting inverts embedding, and embedding inverts extracting on the NAT64 prefix. */
  lemma EmbedRoundTrip(ipv4: uint32, ip: Ipv6)
    ensures IsNat64(Embed(ipv4)) && Embedded(Embed(ipv4)) == ipv4
    ensures IsNat64(ip) ==> Embed(Embedded(ip)) == ip
  {
    HalfRoundTrip(ipv4 / 0x1_0000, ipv4 % 0x1_0000);
    HalfRoundTrip(ip[12] as int * 0x100 + ip[13], ip[14] as int * 0x100 + ip[15]);
    if IsNat64(ip) {
      assert ip == ip[..12] + [ip[12], ip[13], ip[14], ip[15]];
    }
  }

  /** The text representation example of section 2.4 of RFC 6052: 192.0.2.33 is 64:ff9b::192.0.2.33. */
  lemma EmbedExample()
    ensures Embed(0xc000_0221) == [0, 0x64, 0xff, 0x9b, 0, 0, 0, 0, 0, 0, 0, 0, 192, 0, 2, 33]
  {
  }

  // ---------- keys ----------

  datatype VnfType = Undefined | InterfaceIp | Vip | Nat | Lb | LbAliasPfx | AliasPfx

  /** src is the source port, or the ICMP type. */
  datatype FlowKey = FlowKey(
    l3Dst: IpAddr, proto: uint8, portDst: uint16, l3Src: IpAddr, vnfType: VnfType, src: uint16, vni: uint32)

  /** The network-layer and transport-layer fields a packet brings along. The ICMP fields are
      meaningful for ICMP only, the ports for TCP and UDP only. */
  datatype L3 = Ip4(src4: uint32, dst4: uint32) | Ip6(src6: Ipv6, dst6: Ipv6) | NoIp

  datatype Quoted = Quoted(src: uint32, dst: uint32, proto: uint8, srcPort: uint16, dstPort: uint16)

  datatype Headers = Headers(
    l3: L3, l4Type: uint8, srcPort: uint16, dstPort: uint16,
    icmpType: uint8, icmpCode: uint8, icmpId: uint16, quoted: Option<Quoted>)

  /** Where the packet came in: a physical port with the tunnel's VNI and type, or an interface
      with its own VNI, of which the source's NAT and load-balancer configuration is known. */
  datatype Ingress =
    | Physical(tunVni: uint32, tunVnf: VnfType)
    | Virtual(ifaceVni: uint32, hasNat: bool, hasLbPrefix: bool)
  {
    function Vni(): uint32 { if Physical? then tunVni else ifaceVni }
  }

  /** dp_mark_vnf_type. One branch writes nothing, so what the key buffer held before shows. */
  function VnfMark(ing: Ingress, dst: IpAddr, stale: VnfType): VnfType {
    match ing
    case Physical(_, t) => if t == Nat || t == LbAliasPfx then t else Undefined
    case Virtual(_, hasNat, hasLbPrefix) =>
      match dst
      case V6(ip) => if IsNat64(ip) then Nat else stale
      case V4(_) => if hasNat then Nat else if hasLbPrefix then LbAliasPfx else Undefined
  }

  /** dp_build_flow_key */
  function BuildKey(h: Headers, ing: Ingress, stale: VnfType): Option<FlowKey> {
    if h.l3.NoIp? then None else
    var dst := if h.l3.Ip4? then V4(h.l3.dst4) else V6(h.l3.dst6);
    var src := if h.l3.Ip4? then V4(h.l3.src4) else V6(h.l3.src6);
    var key := FlowKey(dst, h.l4Type, 0, src, VnfMark(ing, dst, stale), 0, ing.Vni());
    if h.l4Type == TCP || h.l4Type == UDP then
      Some(key.(portDst := h.dstPort, src := h.srcPort))
    else if h.l4Type == ICMPV6 || (h.l4Type == ICMP && (h.icmpType == ECHO_REPLY || h.icmpType == ECHO_REQUEST)) then
      Some(key.(portDst := h.icmpId, src := h.icmpType))
    else if h.l4Type == ICMP && h.icmpType == ICMP_ERROR && h.icmpCode in {2, 3, 4} && h.quoted.Some? then
      var q := h.quoted.value;
      if q.srcPort == 0 || q.dstPort == 0 then None
      else Some(key.(l3Dst := V4(q.src), l3Src := V4(q.dst), proto := q.proto, portDst := q.srcPort, src := q.dstPort))
    else None
  }

  /** dp_invert_flow_key */
  function Invert(k: FlowKey): FlowKey {
    var inv := k.(l3Dst := k.l3Src, l3Src := k.l3Dst);
    if k.proto == TCP || k.proto == UDP then inv.(src := k.portDst, portDst := k.src)
    else if k.proto == ICMP then
      inv.(src := if k.src == ECHO_REPLY then ECHO_REQUEST else if k.src == ECHO_REQUEST then ECHO_REPLY else 0)
    else if k.proto == ICMPV6 then
      inv.(src := if k.src == ECHO_REPLY6 then ECHO_REQUEST6 else if k.src == ECHO_REQUEST6 then ECHO_REPLY6 else 0)
    else inv.(src := 0, portDst := 0)
  }

  /** Turning a key around twice gives it back exactly for the traffic a reply can exist for. */
  lemma InvertTwiceIff(k: FlowKey)
    ensures Invert(Invert(k)) == k <==>
              || k.proto == TCP || k.proto == UDP
              || (k.proto == ICMP && k.src in {ECHO_REPLY as int, ECHO_REQUEST as int})
              || (k.proto == ICMPV6 && k.src in {0, ECHO_REPLY6 as int, ECHO_REQUEST6 as int})
              || (k.proto !in {TCP, UDP, ICMP, ICMPV6} && k.src == 0 && k.portDst == 0)
  {
    var kk := Invert(Invert(k));
    assert kk.l3Dst == k.l3Dst && kk.l3Src == k.l3Src && kk.proto == k.proto && kk.vni == k.vni
        && kk.vnfType == k.vnfType;
    assert kk == k <==> kk.src == k.src && kk.portDst == k.portDst;
  }

  // ---------- the NAT tables' keys ----------

  datatype PortmapKey = PortmapKey(vni: uint32, srcIp: IpAddr, ifaceSrcPort: uint16)

  datatype OverloadKey = OverloadKey(natIp: uint32, natPort: uint16, dstIp: uint32, dstPort: uint16, l4Type: uint8)

  /** One allocation: the client's side and the wire's side. */
  datatype Alloc = Alloc(pk: PortmapKey, ok: OverloadKey)

  /** The keys dp_allocate_network_snat_port looks a packet up under, for a given NAT port. */
  function AllocFor(h: Headers, vni: uint32, natIp: uint32, natPort: uint16): Alloc
    requires !h.l3.NoIp?
  {
    var icmp := h.l4Type == ICMP || h.l4Type == ICMPV6;
    Alloc(
      PortmapKey(vni, if h.l3.Ip4? then V4(h.l3.src4) else V6(h.l3.src6), if icmp then h.icmpId else h.srcPort),
      OverloadKey(natIp, natPort, if h.l3.Ip4? then h.l3.dst4 else Embedded(h.l3.dst6),
                  if icmp then h.icmpId else h.dstPort, h.l4Type))
  }

  /** What a conntrack entry remembers of its NAT: its two keys and the VNI. */
  function AllocOf(org: FlowKey, reply: FlowKey, natVni: uint32): Option<Alloc> {
    if reply.l3Dst.V6? then None else
    var icmp := org.proto == ICMP || org.proto == ICMPV6;
    Some(Alloc(
      PortmapKey(natVni, org.l3Src, if icmp then org.portDst else org.src),
      OverloadKey(reply.l3Dst.ipv4, reply.portDst, if org.l3Dst.V6? then Embedded(org.l3Dst.ipv6) else org.l3Dst.ipv4,
                  org.portDst, org.proto)))
  }

  /** ICMPv6 echo types as their ICMP counterparts; anything else becomes zero. */
  function Type4(t: uint16): uint16 {
    if t == ECHO_REQUEST6 then ECHO_REQUEST else if t == ECHO_REPLY6 then ECHO_REPLY else 0
  }

  /** dp_process_ipv4_snat's change of the reply key when NAT is configured. */
  function ReplyNat4(reply: FlowKey, natIp: uint32, natPort: uint16): FlowKey {
    reply.(l3Dst := V4(natIp), portDst := natPort)
  }

  /** dp_process_ipv6_nat64's change of the reply key; the packet is IPv4 by then. */
  function ReplyNat64(reply: FlowKey, h: Headers, natIp: uint32, natPort: uint16): FlowKey
    requires h.l3.Ip6?
  {
    reply.(
      src := if h.l4Type == ICMPV6 then Type4(reply.src) else reply.src,
      l3Src := V4(Embedded(h.l3.dst6)),
      l3Dst := V4(natIp),
      portDst := natPort,
      proto := if h.l4Type == ICMPV6 then ICMP else h.l4Type)
  }

  /** Whether dp_nat_chg_ipv6_to_ipv4_hdr can translate the packet. */
  predicate Translatable(h: Headers) {
    h.l4Type == TCP || h.l4Type == UDP || (h.l4Type == ICMPV6 && h.icmpType in {ECHO_REQUEST6, ECHO_REPLY6})
  }

  /** A first packet that the SNAT node asks a NAT port for: a port-carrying, ICMP echo or ICMPv6
      packet of an interface, IPv4 with NAT configured or IPv6 towards the NAT64 prefix. */
  predicate Natted(h: Headers, ing: Ingress) {
    && ing.Virtual?
    && (if h.l3.Ip4? then ing.hasNat else h.l3.Ip6? && IsNat64(h.l3.dst6))
    && (h.l4Type in {TCP, UDP, ICMPV6} || (h.l4Type == ICMP && h.icmpType in {ECHO_REPLY, ECHO_REQUEST}))
  }

  function NattedReply(h: Headers, org: FlowKey, natIp: uint32, natPort: uint16): FlowKey {
    if h.l3.Ip6? then ReplyNat64(Invert(org), h, natIp, natPort) else ReplyNat4(Invert(org), natIp, natPort)
  }

  /** The keys rebuilt from a conntrack entry when it is released are the very keys its
      allocation inserted. */
  lemma ReleaseFindsAllocation(h: Headers, ing: Ingress, stale: VnfType, natIp: uint32, natPort: uint16)
    requires Natted(h, ing)
    ensures var org := BuildKey(h, ing, stale);
            && org.Some?
            && AllocOf(org.value, NattedReply(h, org.value, natIp, natPort), ing.Vni())
               == Some(AllocFor(h, ing.Vni(), natIp, natPort))
  {
  }

  // ---------- packets that come back ----------

  /** Packets an answer can exist for: with ports, or echoes of the matching ICMP version. */
  predicate Answerable(h: Headers) {
    || h.l4Type == TCP || h.l4Type == UDP
    || (h.l3.Ip4? && h.l4Type == ICMP && h.icmpType in {ECHO_REQUEST, ECHO_REPLY})
    || (h.l3.Ip6? && h.l4Type == ICMPV6 && h.icmpType in {ECHO_REQUEST6, ECHO_REPLY6})
  }

  function OtherEcho(t: uint8): uint8 {
    if t == ECHO_REQUEST then ECHO_REPLY else if t == ECHO_REPLY then ECHO_REQUEST
    else if t == ECHO_REQUEST6 then ECHO_REPLY6 else ECHO_REQUEST6
  }

  /** The peer's answer to a packet that was not translated: everything the other way round, an
      echo under the same identifier. */
  function AnswerTo(h: Headers): Headers
    requires !h.l3.NoIp?
  {
    h.(l3 := if h.l3.Ip4? then Ip4(h.l3.dst4, h.l3.src4) else Ip6(h.l3.dst6, h.l3.src6),
       srcPort := h.dstPort, dstPort := h.srcPort, icmpType := OtherEcho(h.icmpType))
  }

  /** What the peer receives of a packet that left with a NAT address and port, as IPv4. */
  function OnWire(h: Headers, natIp: uint32, natPort: uint16): Headers
    requires !h.l3.NoIp?
  {
    var type4 := if h.icmpType == ECHO_REQUEST6 then ECHO_REQUEST
                 else if h.icmpType == ECHO_REPLY6 then ECHO_REPLY else h.icmpType;
    h.(l3 := Ip4(natIp, if h.l3.Ip4? then h.l3.dst4 else Embedded(h.l3.dst6)),
       l4Type := if h.l4Type == ICMPV6 then ICMP else h.l4Type,
       srcPort := natPort, icmpType := type4, icmpId := natPort)
  }

  /** The answer to a translated packet, coming in through the tunnel for the NAT address, is looked
      up under the very reply key its flow was filed under. */
  lemma NatAnswerFound(h: Headers, ing: Ingress, stale: VnfType, natIp: uint32, natPort: uint16, stale': VnfType)
    requires Natted(h, ing) && Answerable(h)
    ensures BuildKey(AnswerTo(OnWire(h, natIp, natPort)), Physical(ing.Vni(), Nat), stale') ==
            Some(NattedReply(h, BuildKey(h, ing, stale).value, natIp, natPort))
  {
  }

  /** An ICMP error about a translated packet quotes its header, and is looked up under the same
      key; only a quoted port of zero is mistaken for a missing one. */
  lemma NatErrorFoundIff(h: Headers, ing: Ingress, stale: VnfType, natIp: uint32, natPort: uint16, code: uint8,
                         router: uint32, stale': VnfType)
    requires Natted(h, ing) && (h.l4Type == TCP || h.l4Type == UDP) && code in {2, 3, 4}
    ensures var w := OnWire(h, natIp, natPort);
            var error := Headers(Ip4(router, natIp), ICMP, 0, 0, ICMP_ERROR, code, 0,
                                 Some(Quoted(w.l3.src4, w.l3.dst4, w.l4Type, w.srcPort, w.dstPort)));
            BuildKey(error, Physical(ing.Vni(), Nat), stale') ==
              Some(NattedReply(h, BuildKey(h, ing, stale).value, natIp, natPort)) <==>
            natPort != 0 && h.dstPort != 0
  {
  }

  /** Without NAT the answer is looked up under the inverted key. For IPv4 that takes a tunnel of
      the same kind: the one for a load-balanced prefix if the interface has such a prefix, and any
      but that and NAT's if it has none. */
  lemma PlainAnswerFoundIff(h: Headers, ing: Ingress, stale: VnfType, tunVnf: VnfType, stale': VnfType)
    requires ing.Virtual? && !ing.hasNat && h.l3.Ip4? && Answerable(h)
    ensures BuildKey(h, ing, stale).Some?
    ensures BuildKey(AnswerTo(h), Physical(ing.Vni(), tunVnf), stale') ==
              Some(Invert(BuildKey(h, ing, stale).value)) <==>
            if ing.hasLbPrefix then tunVnf == LbAliasPfx else tunVnf != Nat && tunVnf != LbAliasPfx
  {
  }

  /** A packet that leaves with its interface's virtual IP: the answer comes in through a tunnel of
      the virtual IP's kind, which is found exactly if the interface has no load-balanced prefix. */
  lemma VipAnswerFoundIff(h: Headers, ing: Ingress, stale: VnfType, vipIp: uint32, tunVnf: VnfType, stale': VnfType)
    requires ing.Virtual? && !ing.hasNat && h.l3.Ip4? && Answerable(h)
    ensures BuildKey(h, ing, stale).Some?
    ensures BuildKey(AnswerTo(h.(l3 := Ip4(vipIp, h.l3.dst4))), Physical(ing.Vni(), tunVnf), stale') ==
              Some(Invert(BuildKey(h, ing, stale).value).(l3Dst := V4(vipIp))) <==>
            if ing.hasLbPrefix then tunVnf == LbAliasPfx else tunVnf != Nat && tunVnf != LbAliasPfx
  {
    PlainAnswerFoundIff(h, ing, stale, tunVnf, stale');
    AnswerElsewhere(h, vipIp, Physical(ing.Vni(), tunVnf), stale');
  }

  lemma AnswerElsewhere(h: Headers, ipv4: uint32, ing: Ingress, stale: VnfType)
    requires h.l3.Ip4? && Answerable(h) && ing.Physical?
    ensures var k := BuildKey(AnswerTo(h), ing, stale);
            && k.Some? && k.value.l3Dst == V4(h.l3.src4)
            && BuildKey(AnswerTo(h.(l3 := Ip4(ipv4, h.l3.dst4))), ing, stale) == Some(k.value.(l3Dst := V4(ipv4)))
  {
  }

  /** A packet from the wire whose destination is translated: the interface's answer comes from the
      translated address. It is found through an ordinary tunnel exactly if the interface has
      neither a NAT address nor a load-balanced prefix. */
  lemma DnatAnswerFoundIff(h: Headers, vni: uint32, tunVnf: VnfType, stale: VnfType, dnatIp: uint32, hasNat: bool,
                           hasLbPrefix: bool, stale': VnfType)
    requires h.l3.Ip4? && Answerable(h)
    ensures BuildKey(h, Physical(vni, tunVnf), stale).Some?
    ensures BuildKey(AnswerTo(h.(l3 := Ip4(h.l3.src4, dnatIp))), Virtual(vni, hasNat, hasLbPrefix), stale') ==
              Some(Invert(BuildKey(h, Physical(vni, tunVnf), stale).value).(l3Src := V4(dnatIp))) <==>
            (if tunVnf == Nat then hasNat else if tunVnf == LbAliasPfx then !hasNat && hasLbPrefix
             else !hasNat && !hasLbPrefix)
  {
  }

  /** For IPv6 the kind of the flow is whatever the key buffer held before, so through an ordinary
      tunnel the answer finds its flow exactly if that was nothing. */
  lemma Ipv6AnswerFoundIff(h: Headers, ing: Ingress, stale: VnfType, tunVnf: VnfType, stale': VnfType)
    requires ing.Virtual? && h.l3.Ip6? && !IsNat64(h.l3.dst6) && Answerable(h)
    ensures BuildKey(h, ing, stale).Some?
    ensures BuildKey(AnswerTo(h), Physical(ing.Vni(), tunVnf), stale') ==
              Some(Invert(BuildKey(h, ing, stale).value)) <==>
            stale == (if tunVnf == Nat || tunVnf == LbAliasPfx then tunVnf else Undefined)
  {
  }

  // ---------- restoring a flow on failover ----------

  /** What a create message carries beside the two keys. */
  datatype SyncMeta = SyncMeta(pk: PortmapKey, icmpType: uint16, port: uint16)

  /** The original key as dp_cntrack_from_sync_nat stores it in the flow value. */
  function StoredOrg(ok: OverloadKey, meta: SyncMeta): FlowKey {
    var icmp := ok.l4Type == ICMP || ok.l4Type == ICMPV6;
    FlowKey(V4(ok.dstIp), ok.l4Type, ok.dstPort, meta.pk.srcIp, Nat,
            if icmp then meta.icmpType else meta.pk.ifaceSrcPort, meta.pk.vni)
  }

  /** The original key it files the flow under. */
  function RestoredOrg(ok: OverloadKey, meta: SyncMeta): FlowKey {
    var key := StoredOrg(ok, meta);
    if meta.pk.srcIp.V6? then key.(l3Dst := V6(Embed(ok.dstIp))) else key
  }

  /** The reply key it stores and files the flow under. */
  function RestoredReply(ok: OverloadKey, meta: SyncMeta): FlowKey {
    var inv := Invert(StoredOrg(ok, meta)).(l3Dst := V4(ok.natIp), portDst := ok.natPort);
    if ok.l4Type == ICMPV6 then inv.(proto := ICMP, src := Type4(inv.src)) else inv
  }

  /** The metadata the active sends with an allocation. */
  function MetaFor(h: Headers, vni: uint32, port: uint16): SyncMeta
    requires !h.l3.NoIp?
  {
    SyncMeta(AllocFor(h, vni, 0, 0).pk, h.icmpType, port)
  }

  /** A restored flow is filed under the same two keys as on the active, for everything but
      ICMPv6 carried in IPv4, whose reply key the restoring side turns into ICMP. */
  lemma FailoverKeysIff(h: Headers, ing: Ingress, stale: VnfType, natIp: uint32, natPort: uint16, port: uint16)
    requires Natted(h, ing)
    ensures var org := BuildKey(h, ing, stale).value;
            var a := AllocFor(h, ing.Vni(), natIp, natPort);
            var meta := MetaFor(h, ing.Vni(), port);
            && RestoredOrg(a.ok, meta) == org
            && (RestoredReply(a.ok, meta) == NattedReply(h, org, natIp, natPort) <==>
                !(h.l3.Ip4? && h.l4Type == ICMPV6))
  {
    if h.l3.Ip6? {
      EmbedRoundTrip(0, h.l3.dst6);
    }
  }

  /** The flow value keeps the unadjusted original key. That is one of the keys the flow is filed
      under - which is what makes a later dump include the flow - exactly for IPv4 clients.
      Releasing the flow still finds its allocation in both cases. */
  lemma StoredOrgIff(ok: OverloadKey, meta: SyncMeta)
    ensures StoredOrg(ok, meta) in {RestoredOrg(ok, meta), RestoredReply(ok, meta)} <==> meta.pk.srcIp.V4?
    ensures var icmp := ok.l4Type == ICMP || ok.l4Type == ICMPV6;
            (icmp ==> ok.dstPort == meta.pk.ifaceSrcPort) ==>
              AllocOf(StoredOrg(ok, meta), RestoredReply(ok, meta), meta.pk.vni) == Some(Alloc(meta.pk, ok))
  {
  }

  // ---------- reply keys and the wire ----------

  predicate Ports(l4Type: uint8) { l4Type == TCP || l4Type == UDP }

  predicate Echo(l4Type: uint8, icmpType: uint16) {
    || (l4Type == ICMP && icmpType in {ECHO_REQUEST as int, ECHO_REPLY as int})
    || (l4Type == ICMPV6 && icmpType in {ECHO_REQUEST6 as int, ECHO_REPLY6 as int})
  }

  predicate IsRequest(icmpType: uint16) { icmpType == ECHO_REQUEST || icmpType == ECHO_REQUEST6 }

  /** When two allocations share a reply key. With ports it takes one and the same wire key, so
      live TCP and UDP flows of a network are always told apart. ICMP replies do not carry the
      original identifier, which is all that keeps ICMP allocations apart, so there it is enough
      to agree on NAT address, NAT port, peer and kind of echo. */
  lemma RepliesCollideIff(a: OverloadKey, b: OverloadKey, ma: SyncMeta, mb: SyncMeta)
    requires Ports(a.l4Type) || Echo(a.l4Type, ma.icmpType)
    requires Ports(b.l4Type) || Echo(b.l4Type, mb.icmpType)
    ensures RestoredReply(a, ma) == RestoredReply(b, mb) <==>
              && ma.pk.vni == mb.pk.vni
              && (if Ports(a.l4Type) then a == b else
                  && !Ports(b.l4Type) && IsRequest(ma.icmpType) == IsRequest(mb.icmpType)
                  && a.natIp == b.natIp && a.natPort == b.natPort && a.dstIp == b.dstIp)
  {
  }

  /** The failing case, concretely: two pings from two clients of one network, to one host, with
      different identifiers but one NAT port. */
  lemma IcmpRepliesCollide()
    ensures var a := Alloc(PortmapKey(7, V4(1), 100), OverloadKey(9, 5000, 8, 100, ICMP));
            var b := Alloc(PortmapKey(7, V4(2), 200), OverloadKey(9, 5000, 8, 200, ICMP));
            && a.ok != b.ok
            && RestoredReply(a.ok, SyncMeta(a.pk, ECHO_REQUEST, 0)) ==
                RestoredReply(b.ok, SyncMeta(b.pk, ECHO_REQUEST, 0))
  {
  }
}
