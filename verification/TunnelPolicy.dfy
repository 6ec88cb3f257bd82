/** From the wire to connection tracking and back: what classification, the two crypto nodes and
    tunnel decapsulation together let through. */
module TunnelPolicy {
  import opened Words
  import opened Dispatch
  import opened IpsecSad
  import opened IpsecBurst

  const IPIP: uint8 := 4
  const IPV6: uint8 := 41
  const ESP: uint8 := 50
  // Ethernet, IPv6 and ESP headers
  const MIN_LEN: nat := 62

  /** An IPv6 frame from a physical port. inner is what its header says once ESP has been taken
      out of it. */
  datatype Frame = Frame(len: nat, proto: uint8, spi: uint32, src: Addr, dst: Addr, nd: bool, virtsvc: bool,
      inner: uint8)

  datatype Endpoint = Endpoint(vni: uint32, port: nat)

  /** The local endpoints by underlay address, and the existing ports with their encrypt setting. */
  datatype Host = Host(ipsec: bool, vnfs: map<Addr, Endpoint>, encrypts: map<nat, bool>)

  /** What the graph remembers of a frame between nodes. */
  datatype Meta = Meta(resolved: Option<Endpoint>, protoId: uint8)

  datatype Hop = ToDrop | ToVirtsvc | ToIpsecDecap | ToIpipDecap

  predicate IsTunnel(proto: uint8) { proto == IPIP || proto == IPV6 }

  /** dp_vnf_resolve_tunnel_dst, which looks up once per frame. */
  function Resolve(h: Host, f: Frame, m: Meta): (Meta, Option<Endpoint>) {
    if m.resolved.Some? then (m, m.resolved)
    else if f.dst in h.vnfs && h.vnfs[f.dst].port in h.encrypts
        then (m.(resolved := Some(h.vnfs[f.dst])), Some(h.vnfs[f.dst]))
    else (m, None)
  }

  /** The cls node for IPv6 from a physical port. */
  function Classify(h: Host, f: Frame): (Meta, Hop) {
    var m := Meta(None, f.proto);
    if f.nd then (m, ToDrop) else
    if f.virtsvc then (m, ToVirtsvc) else
    var (m', e) := if h.ipsec then Resolve(h, f, m) else (m, None);
    if h.ipsec && e.None? then (m', ToDrop) else
    var encrypt := h.ipsec && e.value.port in h.encrypts && h.encrypts[e.value.port];
    if h.ipsec && encrypt != (f.proto == ESP) then (m', ToDrop) else
    if encrypt then (m', ToIpsecDecap) else
    (m', if IsTunnel(f.proto) then ToIpipDecap else ToDrop)
  }

  /** ipsec_decap_build_key: a frame too short for an ESP header gets the zero key. */
  function DecapKey(f: Frame): Key {
    if f.len < MIN_LEN then Key(0, Addr(0, 0), Addr(0, 0)) else BuildKey(f.spi, f.src, f.dst)
  }

  /** What the decap node checks before it prepares an operation. */
  predicate DecapAccepts(h: Host, s: Sad, f: Frame, m: Meta) {
    && DecapKey(f) in View(s)
    && Resolve(h, f, m).1.Some? && Resolve(h, f, m).1.value.vni == View(s)[DecapKey(f)].vni
  }

  /** The ipip_decap node: where a frame is handed to connection tracking, if at all. */
  function IpipDecap(h: Host, f: Frame, m: Meta): Option<Endpoint> {
    if IsTunnel(m.protoId) then Resolve(h, f, m).1 else None
  }

  /** The way of one frame. crypto: its operation was prepared, completed and sound. */
  function Inbound(h: Host, s: Sad, f: Frame, crypto: bool): Option<Endpoint> {
    var (m, hop) := Classify(h, f);
    match hop
    case ToIpipDecap => IpipDecap(h, f, m)
    case ToIpsecDecap =>
      if DecapAccepts(h, s, f, m) && crypto && IsTunnel(f.inner)
          then IpipDecap(h, f, Resolve(h, f, m).0.(protoId := f.inner)) else None
    case _ => None
  }

  // ---------- the inbound policy ----------

  ghost predicate At(h: Host, f: Frame, e: Endpoint) { f.dst in h.vnfs && h.vnfs[f.dst] == e && e.port in h.encrypts }

  /** What it takes to be delivered at an endpoint: a frame for an encrypting interface must have
      been decrypted under an association for that endpoint's VNI; a frame for any other one must
      be a plain tunnel frame. */
  lemma DeliveredIff(h: Host, s: Sad, f: Frame, crypto: bool, e: Endpoint)
    ensures Inbound(h, s, f, crypto) == Some(e) <==>
              && !f.nd && !f.virtsvc && At(h, f, e)
              && if h.ipsec && h.encrypts[e.port]
                 then f.proto == 50 && DecapKey(f) in View(s) && View(s)[DecapKey(f)].vni == e.vni && crypto
                     && f.inner in {4, 41}
                 else f.proto in {4, 41}
  {
  }

  /** A frame delivered at an encrypting interface was ESP and decrypted under an association for the
      endpoint's VNI. Unless the host's own prefix is zero it was long enough to name that
      association, and if the sender is another host it is an inbound one. ESP is never delivered
      at a cleartext interface. */
  lemma EncryptedEndpoint(h: Host, s: Sad, f: Frame, crypto: bool, e: Endpoint)
    requires Valid(s) && h.ipsec && Inbound(h, s, f, crypto) == Some(e)
    ensures e.port in h.encrypts && (h.encrypts[e.port] <==> f.proto == ESP)
    ensures h.encrypts[e.port] ==> crypto && DecapKey(f) in View(s) && View(s)[DecapKey(f)].vni == e.vni
    ensures h.encrypts[e.port] && s.local != 0 ==> f.len >= MIN_LEN
    ensures h.encrypts[e.port] && f.len >= MIN_LEN && f.src.prefix != s.local ==>
              View(s)[DecapKey(f)].dir == Ingress && View(s)[DecapKey(f)].spi == f.spi
    ensures h.encrypts[e.port] && f.len >= MIN_LEN ==>
              View(s)[DecapKey(f)].src.prefix == f.src.prefix && View(s)[DecapKey(f)].dst.prefix == f.dst.prefix
  {
    DeliveredIff(h, s, f, crypto, e);
    if h.encrypts[e.port] {
      KeyFixesDirection(s, DecapKey(f));
    }
  }

  /** A tunnel frame that is sent round through classification again, as load balancing does with
      those for a local target, is never delivered at an encrypting interface. */
  lemma RecirculatedStaysClear(h: Host, s: Sad, f: Frame, crypto: bool, e: Endpoint)
    requires IsTunnel(f.proto) && Inbound(h, s, f, crypto) == Some(e)
    ensures e.port in h.encrypts && !(h.ipsec && h.encrypts[e.port])
  {
    DeliveredIff(h, s, f, crypto, e);
  }

  /** The zero key of a short frame finds nothing unless the host's own underlay prefix is zero. */
  lemma ShortFrameFindsNothing(s: Sad, f: Frame)
    requires Valid(s) && f.len < MIN_LEN && s.local != 0
    ensures DecapKey(f) !in s.index
  {
    if DecapKey(f) in s.index {
      KeyFixesDirection(s, DecapKey(f));
    }
  }

  /** With a zero prefix it can find an association. */
  lemma ShortFrameZeroPrefix(f: Frame)
    requires f.len < MIN_LEN
    ensures exists s :: Valid(s) && s.local == 0 && DecapKey(f) in s.index
  {
    LocalKeyFitsBoth(0, 0, Ingress);
    var a := Addr(0, 0);
    var s := Create(Fresh(0), Sa(0, 0, Ingress, a, a, 0, [], 0, false), Luck(true, true, true, true)).0;
    assert DecapKey(f) in View(s);
    assert Valid(s) && s.local == 0 && DecapKey(f) in s.index;
  }

  // ---------- the outbound policy ----------

  datatype Leaves = InClear | Encrypted(key: Key) | Recirculated | Lost

  /** What comes of a tunnel frame that ipip_encap has built: the sending interface decides whether
      it goes to the encap node, which drops what it cannot encrypt. */
  function Outbound(s: Sad, vni: uint32, encrypt: bool, recirc: bool, src: Addr, dst: Addr, crypto: bool): Leaves {
    if recirc then Recirculated
    else if !encrypt then InClear
    else if BuildKey(vni, src, dst) in s.index && crypto then Encrypted(BuildKey(vni, src, dst))
    else Lost
  }

  ghost predicate Protects(sa: Sa, vni: uint32, src: Addr, dst: Addr) {
    sa.dir == Egress && sa.vni == vni && sa.src.prefix == src.prefix && sa.dst.prefix == dst.prefix
  }

  /** Nothing of an encrypting interface leaves in the clear. To another host it leaves under an
      outbound association made for its VNI and this pair of hosts, exactly if there is one. */
  lemma OutboundRight(s: Sad, vni: uint32, encrypt: bool, recirc: bool, src: Addr, dst: Addr, crypto: bool)
    requires Valid(s)
    ensures var o := Outbound(s, vni, encrypt, recirc, src, dst, crypto);
            && (recirc ==> !o.InClear? && !o.Encrypted? && !o.Lost?)
            && (encrypt ==> o != InClear) && (!encrypt && !recirc ==> o == InClear)
            && (encrypt && !recirc && dst.prefix != s.local ==>
                  if crypto && exists id :: id in s.live && Protects(s.live[id], vni, src, dst)
                  then o.Encrypted? && o.key in View(s) && Protects(View(s)[o.key], vni, src, dst)
                  else o == Lost)
  {
    var key := BuildKey(vni, src, dst);
    if key in s.index {
      KeyFixesDirection(s, key);
      assert dst.prefix != s.local ==> Protects(s.live[s.index[key]], vni, src, dst);
    }
    forall id | id in s.live && Protects(s.live[id], vni, src, dst) ensures key in s.index {
      assert Filed(s, id);
    }
  }

  /** From host to host: what leaves an encrypting interface under the sender's association arrives
      at encrypting interfaces of the same VNI only, if both ends made their associations for it. */
  lemma StaysInVni(sender: Sad, h: Host, s: Sad, vni: uint32, f: Frame, sent: bool, got: bool, e: Endpoint)
    requires Valid(sender) && Valid(s) && f.dst.prefix != sender.local && f.len >= MIN_LEN && h.ipsec
    requires Outbound(sender, vni, true, false, f.src, f.dst, sent) == Encrypted(BuildKey(vni, f.src, f.dst))
    requires BuildKey(vni, f.src, f.dst) in View(sender) && View(sender)[BuildKey(vni, f.src, f.dst)].spi == f.spi
    requires BuildKey(f.spi, f.src, f.dst) in View(s) ==>
               View(s)[BuildKey(f.spi, f.src, f.dst)].vni == View(sender)[BuildKey(vni, f.src, f.dst)].vni
    requires Inbound(h, s, f, got) == Some(e) && f.proto == ESP
    ensures e.port in h.encrypts && h.encrypts[e.port] && e.vni == vni
  {
    OutboundRight(sender, vni, true, false, f.src, f.dst, sent);
    EncryptedEndpoint(h, s, f, got, e);
  }

  // ---------- bursts ----------

  /** What the device and librte_ipsec do with a burst. */
  datatype Env = Env(pool: Option<seq<nat>>, frames: seq<bool>, completed: seq<nat>, sound: set<nat>)

  /** A burst as the decap node sees it. */
  ghost function DecapBurst(h: Host, s: Sad, fs: seq<Frame>, ms: seq<Meta>, env: Env): (b: Burst)
    requires |fs| == |ms|
    ensures |b.accept| == |b.restores| == |fs|
  {
    Burst(env.pool, seq(|fs|, i requires 0 <= i < |fs| => DecapAccepts(h, s, fs[i], ms[i])), env.frames,
          seq(|fs|, i requires 0 <= i < |fs| => IsTunnel(fs[i].inner)), env.completed, env.sound)
  }

  /** A frame's own operation went through. */
  ghost predicate Sound(b: Burst, i: nat)
    requires b.Sized(|b.accept|) && i < |b.accept|
  {
    b.pool.Some? && b.frames[i] && b.OpOf(i) in b.completed && b.OpOf(i) in b.sound
  }

  /** The decap node on a whole burst, edge 0 being drop and edge 1 ipip_decap: in whatever order
      and with whatever failures the device completes it, exactly the frames whose own operation
      is sound and that the node accepts go on. */
  method DecapNode(h: Host, s: Sad, fs: seq<Frame>, ms: seq<Meta>, env: Env, groups: seq<Group>, stale: seq<bool>,
                   pending: Pending<Frame>)
    returns (r: Pending<Frame>, freed: multiset<nat>, ghost next: seq<nat>)
    requires |fs| == |ms| == |stale| && |pending| == 2
    requires DecapBurst(h, s, fs, ms, env).Sized(|fs|) && DecapBurst(h, s, fs, ms, env).OwnCompletions()
    requires Regrouped(groups, env.completed, env.sound)
    ensures |next| == |fs| && forall i :: 0 <= i < |fs| ==>
              (next[i] == 1 <==>
                && DecapAccepts(h, s, fs[i], ms[i])
                && Sound(DecapBurst(h, s, fs, ms, env), i) && IsTunnel(fs[i].inner))
    ensures ValidEdges(next, 2) && r == Plain(pending, fs, next)
    ensures freed == if env.pool.Some? then multiset(env.pool.value) else multiset{}
  {
    var accept: seq<bool>, restores: seq<bool> := [], [];
    for i := 0 to |fs|
      invariant |accept| == |restores| == i
      invariant forall k :: 0 <= k < i ==> accept[k] == DecapAccepts(h, s, fs[k], ms[k])
      invariant forall k :: 0 <= k < i ==> restores[k] == IsTunnel(fs[k].inner)
    {
      accept := accept + [DecapAccepts(h, s, fs[i], ms[i])];
      restores := restores + [IsTunnel(fs[i].inner)];
    }
    var b := Burst(env.pool, accept, env.frames, restores, env.completed, env.sound);
    assert b == DecapBurst(h, s, fs, ms, env);
    r, freed, next := Node(b, groups, fs, stale, seq(|fs|, _ => 1), 0, pending);
  }

  /** A burst as the encap node sees it: vnis are those of the sending interfaces. */
  ghost function EncapBurst(s: Sad, vnis: seq<uint32>, fs: seq<Frame>, env: Env): (b: Burst)
    requires |vnis| == |fs|
    ensures |b.accept| == |b.restores| == |fs|
  {
    Burst(env.pool, seq(|fs|, i requires 0 <= i < |fs| => BuildKey(vnis[i], fs[i].src, fs[i].dst) in s.index),
        env.frames,
          seq(|fs|, _ => true), env.completed, env.sound)
  }

  /** The encap node on a whole burst, edge 0 being drop: what goes on to its transmit edge is what
      leaves encrypted. */
  method EncapNode(s: Sad, vnis: seq<uint32>, fs: seq<Frame>, env: Env, groups: seq<Group>, stale: seq<bool>,
                   tx: seq<nat>, pending: Pending<Frame>)
    returns (r: Pending<Frame>, freed: multiset<nat>, ghost next: seq<nat>)
    requires |fs| == |vnis| == |stale| == |tx| && ValidEdges(tx, |pending|) && pending != [] && 0 !in tx
    requires EncapBurst(s, vnis, fs, env).Sized(|fs|) && EncapBurst(s, vnis, fs, env).OwnCompletions()
    requires Regrouped(groups, env.completed, env.sound)
    ensures |next| == |fs| && forall i :: 0 <= i < |fs| ==>
              && next[i] in {0, tx[i]}
              && (next[i] == tx[i] <==>
                  Outbound(s, vnis[i], true, false, fs[i].src, fs[i].dst,
                      Sound(EncapBurst(s, vnis, fs, env), i)).Encrypted?)
    ensures ValidEdges(next, |pending|) && r == Plain(pending, fs, next)
    ensures freed == if env.pool.Some? then multiset(env.pool.value) else multiset{}
  {
    var accept: seq<bool> := [];
    for i := 0 to |fs|
      invariant |accept| == i
                && forall k :: 0 <= k < i ==> accept[k] == (BuildKey(vnis[k], fs[k].src, fs[k].dst) in s.index)
    {
      accept := accept + [BuildKey(vnis[i], fs[i].src, fs[i].dst) in s.index];
    }
    var b := Burst(env.pool, accept, env.frames, seq(|fs|, _ => true), env.completed, env.sound);
    assert b == EncapBurst(s, vnis, fs, env);
    r, freed, next := Node(b, groups, fs, stale, tx, 0, pending);
    forall i | 0 <= i < |fs|
      ensures next[i] == tx[i] <==> Outbound(s, vnis[i], true, false, fs[i].src, fs[i].dst, Sound(b, i)).Encrypted?
    {
      assert tx[i] in tx;
    }
  }

  /** The decap node and ipip_decap after it deliver a frame exactly as the single-frame path does,
      with the fate of its own operation. */
  lemma BurstDelivers(h: Host, s: Sad, fs: seq<Frame>, ms: seq<Meta>, env: Env, i: nat, e: Endpoint)
    requires |fs| == |ms| && i < |fs| && Classify(h, fs[i]) == (ms[i], ToIpsecDecap)
    requires DecapBurst(h, s, fs, ms, env).Sized(|fs|)
    ensures var b := DecapBurst(h, s, fs, ms, env);
            b.Passes(i) && IpipDecap(h, fs[i], Resolve(h, fs[i], ms[i]).0.(protoId := fs[i].inner)) == Some(e) <==>
            Inbound(h, s, fs[i], Sound(b, i)) == Some(e)
  {
  }
}
