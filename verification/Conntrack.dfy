/** The flow table: reference-counted flow values reachable under two keys each, a two-buffer
    cache in front, and the NAT ports the values own. */
module Conntrack {
  import opened Words
  import opened FlowKeys
  import opened NatPorts
  import opened NatTables

  datatype NatType = NoNat | VipNat | NetworkLocal | NetworkNeigh | AsTarget | LbLocalNeigh | LbRecirc | LbForward

  /** What only sweeps look at: when the flow was last used and for how long it may idle, the port
      its first packet came from, and where its packets are relayed to, if they are. */
  datatype Info = Info(timestamp: uint64, timeout: nat, port: uint16, underlay: Ipv6)

  /** The fields of a flow value that matter here. flagged: some flow flag is set. */
  datatype FlowVal = FlowVal(
    org: FlowKey, reply: FlowKey, natType: NatType, natVni: uint32, flagged: bool, refs: int, info: Info)
  {
    /** The NAT allocation this value owns, if it owns one that can be named. */
    function Owned(): Option<Alloc> {
      if natType == NetworkLocal then AllocOf(org, reply, natVni) else None
    }
  }

  /** Two key buffers; the one at index mod 2 is written next, prev is the other one if it holds
      the key of the cached value. */
  datatype Cache = Cache(slots: seq<FlowKey>, index: nat, prev: Option<nat>, cached: nat)

  /** Everything the flow table and its clients share. Values have identities that are never
      reused; freed lists those that are gone. */
  datatype Flows = Flows(
    table: map<FlowKey, nat>, vals: map<nat, FlowVal>, nextId: nat, freed: seq<nat>, nats: Tables, cache: Cache)

  // ---------- primitive operations ----------

  function Flushed(c: Cache): Cache { c.(prev := None) }

  /** dp_free_flow */
  function Freed(s: Flows, id: nat): Flows
    requires id in s.vals
  {
    var a := s.vals[id].Owned();
    s.(nats := if a.Some? then Delete(s.nats, a.value.pk, a.value.ok) else s.nats,
       vals := s.vals - {id}, freed := s.freed + [id], cache := Flushed(s.cache))
  }

  /** dp_ref_dec */
  function RefDropped(s: Flows, id: nat): Flows
    requires id in s.vals
  {
    var v := s.vals[id];
    if v.refs == 1 then Freed(s, id) else s.(vals := s.vals[id := v.(refs := v.refs - 1)])
  }

  /** dp_delete_flow: a key that is not there leaves the counter alone. */
  function FlowDeleted(s: Flows, key: FlowKey, id: nat): Flows
    requires id in s.vals
  {
    if key !in s.table then s else
    var d := RefDropped(s.(table := s.table - {key}), id);
    d.(cache := Flushed(d.cache))
  }

  /** dp_cache_flow_val, once the key is in the current buffer. */
  function Cached(c: Cache, id: nat): Cache { c.(prev := Some(c.index % 2), index := c.index + 1, cached := id) }

  /** dp_build_flow_key writes into the current buffer, whatever comes of it. */
  function Written(c: Cache, key: FlowKey): Cache
    requires |c.slots| == 2
  {
    c.(slots := c.slots[c.index % 2 := key])
  }

  /** flow_table_insert_entry */
  function Inserted(s: Flows, key: FlowKey, b: Info): Flows {
    var v := FlowVal(key, Invert(key), NoNat, 0, false, 2, b);
    s.(table := s.table[key := s.nextId][Invert(key) := s.nextId], vals := s.vals[s.nextId := v],
        nextId := s.nextId + 1)
  }

  /** dp_get_flow_val: the value a packet's key leads to, through the cache, the table, or a new
      entry. */
  function Looked(s: Flows, key: FlowKey, b: Info): (Flows, nat)
    requires |s.cache.slots| == 2 && (s.cache.prev.Some? ==> s.cache.prev.value < 2)
  {
    var c := Written(s.cache, key);
    if c.prev.Some? && c.slots[c.prev.value] == key then (s.(cache := c), c.cached)
    else if key in s.table then (s.(cache := Cached(c, s.table[key])), s.table[key])
    else
      var n := Inserted(s, key, b);
      (n.(cache := Cached(c, s.nextId)), s.nextId)
  }

  /** The move of a flow to a new reply key that SNAT and DNAT share: delete, rewrite, add. */
  function Moved(s: Flows, id: nat, reply: FlowKey): Flows
    requires id in s.vals
  {
    var d := FlowDeleted(s, s.vals[id].reply, id);
    d.(table := d.table[reply := id],
       vals := if id in d.vals then d.vals[id := d.vals[id].(reply := reply, refs := d.vals[id].refs + 1)] else d.vals)
  }

  /** dnat_node: the reply will come from the translated destination. */
  function Dnatted(s: Flows, id: nat, dnatIp: uint32): Flows
    requires id in s.vals
  {
    var v := s.vals[id];
    Moved(s.(vals := s.vals[id := v.(flagged := true)]), id, v.reply.(l3Src := V4(dnatIp)))
  }

  /** dp_process_ipv4_snat for an interface that has a VIP and no NAT address. */
  function Vipped(s: Flows, id: nat, vipIp: uint32): Flows
    requires id in s.vals
  {
    var v := s.vals[id];
    Moved(s.(vals := s.vals[id := v.(natType := VipNat, flagged := true)]), id, v.reply.(l3Dst := V4(vipIp)))
  }

  /** What the SNAT node works with: a packet, where it came in, the NAT address and port range of
      its interface, and the hash its port search starts from. */
  datatype Ask = Ask(h: Headers, ing: Ingress, natIp: uint32, min: uint16, max: uint16, hash: uint32) {
    predicate HasIp() { !h.l3.NoIp? }

    /** The keys the allocation is made under; the port is not known yet. */
    function Wanted(): Alloc
      requires HasIp()
    {
      AllocFor(h, ing.Vni(), natIp, 0)
    }

    function Outcome(t: Tables): Outcome
      requires HasIp()
    {
      Allocate(t, Wanted().pk, Wanted().ok, min, max, hash)
    }

    predicate Untranslatable() { h.l3.Ip6? && !Translatable(h) }
  }

  /** dp_process_ipv4_snat and dp_process_ipv6_nat64. inserted says whether the new reply key finds
      room in the table. Both failures after the allocation call for its release, but the first
      with a reply key that still is IPv6, from which no allocation can be named. */
  function Snatted(s: Flows, id: nat, q: Ask, inserted: bool): Flows
    requires id in s.vals && q.HasIp()
  {
    var v := s.vals[id];
    match q.Outcome(s.nats)
    case Done(t, port) =>
      if q.Untranslatable() then Released(s.(nats := t), v) else
      var reply := if q.h.l3.Ip6? then ReplyNat64(v.reply, q.h, q.natIp, port) else ReplyNat4(v.reply, q.natIp, port);
      var m := s.(nats := t, vals := s.vals[id := Marked(v, q.ing.Vni())]);
      if inserted then Moved(m, id, reply) else NotMoved(m, id, reply)
    case _ => s
  }

  /** The new reply key finds no room: the old one is gone, and the port is released. */
  function NotMoved(s: Flows, id: nat, reply: FlowKey): Flows
    requires id in s.vals
  {
    var d := FlowDeleted(s, s.vals[id].reply, id);
    if id !in d.vals then d else
    var x := d.vals[id].(reply := reply);
    Released(d.(vals := d.vals[id := x]), x)
  }

  function Marked(v: FlowVal, vni: uint32): FlowVal { v.(natType := NetworkLocal, natVni := vni, flagged := true) }

  /** dp_remove_network_snat_port, whatever the value's NAT type. */
  function Released(s: Flows, v: FlowVal): Flows {
    var a := AllocOf(v.org, v.reply, v.natVni);
    if a.Some? then s.(nats := Delete(s.nats, a.value.pk, a.value.ok)) else s
  }

  // ---------- what holds in every reachable state ----------

  ghost function KeysOf(table: map<FlowKey, nat>, id: nat): set<FlowKey> { set k | k in table && table[k] == id }

  /** The live NAT allocations are those the live values own. */
  ghost function LedgerOf(vals: map<nat, FlowVal>): Ledger {
    map id | id in vals && vals[id].Owned().Some? :: vals[id].Owned().value
  }

  ghost predicate RefCounted(table: map<FlowKey, nat>, v: FlowVal, id: nat) { v.refs == |KeysOf(table, id)| > 0 }

  /** A value that owns a port can name it, and one that no node has touched owns none and still
      expects the plain reply, which is not its own key. */
  ghost predicate Sane(v: FlowVal) {
    && (v.natType == NetworkLocal ==> v.Owned().Some?)
    && (!v.flagged ==> v.natType != NetworkLocal && v.reply == Invert(v.org) != v.org)
  }

  /** Every key leads to a live value, and a value's counter is the number of its keys. */
  ghost predicate RefsRight(table: map<FlowKey, nat>, vals: map<nat, FlowVal>) {
    && (forall k :: k in table ==> table[k] in vals)
    && (forall id :: id in vals ==> RefCounted(table, vals[id], id))
  }

  ghost predicate AllSane(vals: map<nat, FlowVal>) { forall id :: id in vals ==> Sane(vals[id]) }

  /** Every value ever made is either live or was freed exactly once. */
  ghost predicate FreedOnce(s: Flows) {
    && (forall id :: id in s.vals || id in s.freed <==> 0 <= id < s.nextId)
    && (forall id :: id in s.vals ==> id !in s.freed)
    && (forall i, j :: 0 <= i < j < |s.freed| ==> s.freed[i] != s.freed[j])
  }

  /** A hit returns what the table would. */
  ghost predicate CacheRight(s: Flows) {
    var c := s.cache;
    && |c.slots| == 2
    && (c.prev.Some? ==>
          && c.prev.value == 1 - c.index % 2
          && c.slots[c.prev.value] in s.table && s.table[c.slots[c.prev.value]] == c.cached)
  }

  /** The NAT tables hold exactly the ports the live values own. */
  ghost predicate PortsRight(s: Flows) { Tracks(s.nats, LedgerOf(s.vals)) }

  ghost predicate Inv(s: Flows) {
    RefsRight(s.table, s.vals) && AllSane(s.vals) && FreedOnce(s) && CacheRight(s) && PortsRight(s)
  }

  const NO_KEY: FlowKey := FlowKey(V4(0), 0, 0, V4(0), Undefined, 0, 0)

  /** No flows yet, and whatever NAT tables: empty ones, or those a backup has received. */
  function Standby(t: Tables): Flows { Flows(map[], map[], 0, [], t, Cache([NO_KEY, NO_KEY], 0, None, 0)) }

  lemma StandbyInv()
    ensures Inv(Standby(EMPTY))
  {
    EmptyTracks();
    assert LedgerOf(map[]) == map[];
  }

  // ---------- counting keys ----------

  lemma KeysAfterRemove(table: map<FlowKey, nat>, key: FlowKey, id: nat)
    ensures |KeysOf(table - {key}, id)| == |KeysOf(table, id)| - if key in table && table[key] == id then 1 else 0
  {
    assert KeysOf(table - {key}, id) == KeysOf(table, id) - {key};
    if key in table && table[key] == id {
      assert key in KeysOf(table, id);
    }
  }

  lemma KeysAfterAdd(table: map<FlowKey, nat>, key: FlowKey, owner: nat, id: nat)
    ensures |KeysOf(table[key := owner], id)| == |KeysOf(table - {key}, id)| + if owner == id then 1 else 0
  {
    assert KeysOf(table[key := owner], id) == KeysOf(table - {key}, id) + if owner == id then {key} else {};
  }

  lemma OnlyKey(table: map<FlowKey, nat>, key: FlowKey, other: FlowKey)
    requires key in table && other in table && table[other] == table[key] && |KeysOf(table, table[key])| == 1
    ensures other == key
  {
    assert {key} <= KeysOf(table, table[key]);
    assert |KeysOf(table, table[key]) - {key}| == 0;
    assert other in KeysOf(table, table[key]);
  }

  // ---------- freeing ----------

  lemma LedgerAfterFree(vals: map<nat, FlowVal>, id: nat)
    requires id in vals
    ensures LedgerOf(vals - {id}) == LedgerOf(vals) - {id}
  {
  }

  lemma LedgerAfterRefs(vals: map<nat, FlowVal>, id: nat, v: FlowVal)
    requires id in vals && v.Owned() == vals[id].Owned()
    ensures LedgerOf(vals[id := v]) == LedgerOf(vals)
  {
  }

  /** Freeing a value with no keys left releases its port and leaves the rest alone. */
  lemma FreeKeeps(s: Flows, id: nat)
    requires FreedOnce(s) && PortsRight(s) && id in s.vals
    ensures FreedOnce(Freed(s, id)) && PortsRight(Freed(s, id))
  {
    LedgerAfterFree(s.vals, id);
    if s.vals[id].Owned().Some? {
      ReleaseTracks(s.nats, LedgerOf(s.vals), id);
    } else {
      assert LedgerOf(s.vals) - {id} == LedgerOf(s.vals);
    }
  }

  /** Deleting a key of a value keeps everything; the value goes with its last key. */
  lemma DeleteKeeps(s: Flows, key: FlowKey)
    requires Inv(s) && key in s.table
    ensures Inv(FlowDeleted(s, key, s.table[key]))
  {
    var id := s.table[key];
    var d := FlowDeleted(s, key, id);
    assert RefCounted(s.table, s.vals[id], id);
    forall x | x in s.vals
      ensures |KeysOf(s.table - {key}, x)| == |KeysOf(s.table, x)| - (if x == id then 1 else 0)
              && RefCounted(s.table, s.vals[x], x)
    {
      KeysAfterRemove(s.table, key, x);
    }
    var r := s.(table := s.table - {key});
    if s.vals[id].refs == 1 {
      FreeKeeps(r, id);
      forall k | k in d.table ensures d.table[k] in d.vals {
        if d.table[k] == id { OnlyKey(s.table, key, k); }
      }
    } else {
      LedgerAfterRefs(s.vals, id, d.vals[id]);
    }
  }

  // ---------- new entries ----------

  /** A new entry keeps the counters right exactly if its reply key is fresh: not the key itself,
      and not in the table, where it would be taken away from another value. */
  ghost predicate FreshReply(s: Flows, key: FlowKey) { Invert(key) != key && Invert(key) !in s.table }

  lemma NoKeysYet(s: Flows, id: nat)
    requires RefsRight(s.table, s.vals) && id !in s.vals
    ensures KeysOf(s.table, id) == {}
  {
  }

  lemma InsertRefsIff(s: Flows, key: FlowKey, b: Info)
    requires RefsRight(s.table, s.vals) && FreedOnce(s) && key !in s.table
    ensures var n := Inserted(s, key, b);
            RefsRight(n.table, n.vals) <==> FreshReply(s, key)
  {
    var n, inv, id := Inserted(s, key, b), Invert(key), s.nextId;
    var t1 := s.table[key := id];
    NoKeysYet(s, id);
    forall x
      ensures |KeysOf(n.table, x)| == |KeysOf(s.table, x)| + (if x == id then (if inv == key then 1 else 2) else 0)
                     - (if inv != key && inv in s.table && s.table[inv] == x then 1 else 0) {
      KeysAfterAdd(s.table, key, id, x);
      KeysAfterRemove(s.table, key, x);
      KeysAfterAdd(t1, inv, id, x);
      KeysAfterRemove(t1, inv, x);
    }
    if FreshReply(s, key) {
      forall x | x in n.vals ensures RefCounted(n.table, n.vals[x], x) {
        if x in s.vals { assert RefCounted(s.table, s.vals[x], x); }
      }
    } else if inv == key {
      assert !RefCounted(n.table, n.vals[id], id);
    } else {
      var x := s.table[inv];
      assert RefCounted(s.table, s.vals[x], x);
      assert !RefCounted(n.table, n.vals[x], x);
    }
  }

  lemma InsertRest(s: Flows, key: FlowKey, b: Info)
    requires AllSane(s.vals) && FreedOnce(s) && PortsRight(s) && FreshReply(s, key)
    ensures var n := Inserted(s, key, b);
            AllSane(n.vals) && FreedOnce(n) && PortsRight(n)
  {
    var n := Inserted(s, key, b);
    assert s.nextId !in s.vals;
    assert LedgerOf(n.vals) == LedgerOf(s.vals);
  }

  lemma InsertKeepsIff(s: Flows, key: FlowKey, b: Info)
    requires Inv(s) && key !in s.table
    ensures Inv(Inserted(s, key, b)) <==> FreshReply(s, key)
  {
    InsertRefsIff(s, key, b);
    if FreshReply(s, key) {
      InsertRest(s, key, b);
      assert CacheRight(Inserted(s, key, b));
    }
  }

  ghost predicate Hits(s: Flows, key: FlowKey)
    requires CacheRight(s)
  {
    s.cache.prev.Some? && Written(s.cache, key).slots[s.cache.prev.value] == key
  }

  /** What a hit in the cache promises: the value is the one the table holds for the key, and it
      is live. */
  lemma HitRight(s: Flows, key: FlowKey)
    requires Inv(s) && Hits(s, key)
    ensures key in s.table && s.table[key] == s.cache.cached && s.cache.cached in s.vals && s.cache.cached !in s.freed
  {
  }

  lemma NewCacheRight(s: Flows, key: FlowKey)
    requires |s.cache.slots| == 2 && key in s.table
    ensures CacheRight(s.(cache := Cached(Written(s.cache, key), s.table[key])))
  {
  }

  lemma MissRight(s: Flows, key: FlowKey, b: Info)
    requires Inv(s) && key !in s.table
    ensures var n := Inserted(s, key, b);
            Inv(n.(cache := Cached(Written(s.cache, key), s.nextId))) <==> FreshReply(s, key)
  {
    var n := Inserted(s, key, b);
    InsertRefsIff(s, key, b);
    if FreshReply(s, key) {
      InsertRest(s, key, b);
      assert n.table[key] == s.nextId;
      NewCacheRight(n, key);
      SameButCache(n, n.(cache := Cached(Written(s.cache, key), s.nextId)));
    }
  }

  /** A packet's lookup. On a hit in the cache or the table it returns the very value the table
      holds for the key and changes no flow; otherwise it makes a new one, correctly if the reply
      key is fresh. */
  lemma LookRight(s: Flows, key: FlowKey, b: Info)
    requires Inv(s)
    ensures var (n, id) := Looked(s, key, b);
            && (key in s.table ==> id == s.table[key] && n == s.(cache := n.cache))
            && (key !in s.table ==> id == s.nextId && n == Inserted(s, key, b).(cache := n.cache))
            && (Inv(n) <==> key in s.table || FreshReply(s, key))
  {
    if Hits(s, key) {
      HitRight(s, key);
      ScribbleKeeps(s, key);
    } else if key in s.table {
      NewCacheRight(s, key);
      SameButCache(s, s.(cache := Cached(Written(s.cache, key), s.table[key])));
    } else {
      MissRight(s, key, b);
    }
  }

  lemma SameButCache(s: Flows, n: Flows)
    requires n == s.(cache := n.cache) && FreedOnce(s) && PortsRight(s)
    ensures FreedOnce(n) && PortsRight(n)
  {
  }

  /** A packet no key can be built from may still leave anything in the current buffer. */
  lemma ScribbleKeeps(s: Flows, key: FlowKey)
    requires Inv(s)
    ensures Inv(s.(cache := Written(s.cache, key)))
  {
  }

  // ---------- moving a flow to another reply key ----------

  /** The old reply key, if still there, is the value's own, and the new one is free. */
  ghost predicate MoveSafe(s: Flows, id: nat, reply: FlowKey)
    requires id in s.vals
  {
    var old' := s.vals[id].reply;
    && (old' in s.table ==> s.table[old'] == id)
    && (reply in s.table ==> reply == old')
  }

  ghost function MovedSafely(s: Flows, id: nat, reply: FlowKey): Flows
    requires id in s.vals
  {
    var v := s.vals[id];
    s.(table := (s.table - {v.reply})[reply := id],
       vals := s.vals[id := v.(reply := reply, refs := v.refs + if v.reply in s.table then 0 else 1)],
       cache := if v.reply in s.table then Flushed(s.cache) else s.cache)
  }

  ghost predicate MovedCount(s: Flows, id: nat, reply: FlowKey, x: nat)
    requires id in s.vals
  {
    var old' := s.vals[id].reply;
    |KeysOf((s.table - {old'})[reply := id], x)| ==
      |KeysOf(s.table, x)| + (if x == id then 1 else 0)
      - (if old' in s.table && s.table[old'] == x then 1 else 0)
      - (if reply in s.table && reply != old' && s.table[reply] == x then 1 else 0)
  }

  lemma MovedKeys(s: Flows, id: nat, reply: FlowKey, x: nat)
    requires id in s.vals
    ensures MovedCount(s, id, reply, x)
  {
    var old' := s.vals[id].reply;
    KeysAfterRemove(s.table, old', x);
    KeysAfterAdd(s.table - {old'}, reply, id, x);
    KeysAfterRemove(s.table - {old'}, reply, x);
  }

  lemma AllMovedCounts(s: Flows, id: nat, reply: FlowKey)
    requires RefsRight(s.table, s.vals) && id in s.vals
    ensures forall x :: x in s.vals ==> RefCounted(s.table, s.vals[x], x) && MovedCount(s, id, reply, x)
  {
    forall x | x in s.vals ensures RefCounted(s.table, s.vals[x], x) && MovedCount(s, id, reply, x) {
      MovedKeys(s, id, reply, x);
    }
  }

  lemma SafeMoveRefs(s: Flows, id: nat, reply: FlowKey, k: FlowKey)
    requires RefsRight(s.table, s.vals) && id in s.vals && MoveSafe(s, id, reply)
    requires k in s.table && s.table[k] == id && k != s.vals[id].reply
    ensures Moved(s, id, reply) == MovedSafely(s, id, reply)
    ensures RefsRight(MovedSafely(s, id, reply).table, MovedSafely(s, id, reply).vals)
  {
    var m, v := MovedSafely(s, id, reply), s.vals[id];
    AllMovedCounts(s, id, reply);
    KeysAfterRemove(s.table, v.reply, id);
    assert k in KeysOf(s.table - {v.reply}, id);
    forall x | x in m.vals ensures RefCounted(m.table, m.vals[x], x) {
      assert MovedCount(s, id, reply, x);
    }
  }

  lemma UnsafeMoveRefs(s: Flows, id: nat, reply: FlowKey)
    requires RefsRight(s.table, s.vals) && id in s.vals && !MoveSafe(s, id, reply)
    ensures var m := Moved(s, id, reply); !RefsRight(m.table, m.vals)
  {
    var m, v := Moved(s, id, reply), s.vals[id];
    assert m.table == (s.table - {v.reply})[reply := id];
    AllMovedCounts(s, id, reply);
    var w := if v.reply in s.table && s.table[v.reply] != id then s.table[v.reply] else s.table[reply];
    assert MovedCount(s, id, reply, w);
    if id in m.vals {
      assert w in m.vals && !RefCounted(m.table, m.vals[w], w);
    } else {
      assert reply in m.table && m.table[reply] == id;
    }
  }

  /** Moving a flow of which another key k stays keeps the counters right exactly in the safe
      case. */
  lemma MoveRefsIff(s: Flows, id: nat, reply: FlowKey, k: FlowKey)
    requires RefsRight(s.table, s.vals) && id in s.vals
    requires k in s.table && s.table[k] == id && k != s.vals[id].reply
    ensures var m := Moved(s, id, reply);
            RefsRight(m.table, m.vals) <==> MoveSafe(s, id, reply)
    ensures MoveSafe(s, id, reply) ==> Moved(s, id, reply) == MovedSafely(s, id, reply)
  {
    if MoveSafe(s, id, reply) {
      SafeMoveRefs(s, id, reply, k);
    } else {
      UnsafeMoveRefs(s, id, reply);
    }
  }

  /** The cache and the identities survive a safe move. */
  lemma MoveRest(s: Flows, id: nat, reply: FlowKey)
    requires FreedOnce(s) && CacheRight(s) && id in s.vals && MoveSafe(s, id, reply)
    ensures FreedOnce(MovedSafely(s, id, reply)) && CacheRight(MovedSafely(s, id, reply))
  {
    var m := MovedSafely(s, id, reply);
    assert forall x :: x in m.vals <==> x in s.vals;
  }

  /** An untouched flow whose packet the table has just led to. */
  ghost predicate Untouched(s: Flows, id: nat) {
    && id in s.vals && !s.vals[id].flagged
    && s.vals[id].org in s.table && s.table[s.vals[id].org] == id
  }

  lemma UpdateKeepsRefs(s: Flows, id: nat, v: FlowVal)
    requires RefsRight(s.table, s.vals) && id in s.vals && v.refs == s.vals[id].refs
    ensures RefsRight(s.table, s.vals[id := v])
  {
    var vals := s.vals[id := v];
    forall x | x in vals ensures RefCounted(s.table, vals[x], x) {
      assert RefCounted(s.table, s.vals[x], x);
    }
  }

  /** What SNAT and DNAT have in common: an untouched flow is marked as w and moved. */
  lemma MarkedMove(s: Flows, id: nat, w: FlowVal, nats: Tables, reply: FlowKey)
    requires Inv(s) && Untouched(s, id) && w.refs == s.vals[id].refs && w.reply == s.vals[id].reply
    ensures var d := Moved(s.(nats := nats, vals := s.vals[id := w]), id, reply);
            && (RefsRight(d.table, d.vals) <==> MoveSafe(s, id, reply))
            && (MoveSafe(s, id, reply) ==>
                && FreedOnce(d) && CacheRight(d) && d.nats == nats && d.freed == s.freed && id in d.vals
                && d.table == (s.table - {s.vals[id].reply})[reply := id]
                && d.vals == s.vals[id := w.(reply := reply, refs := d.vals[id].refs)])
  {
    MarkedMoveRefs(s, id, w, nats, reply);
    if MoveSafe(s, id, reply) {
      MarkedSafely(s, id, w, nats, reply);
    }
  }

  lemma MarkedMoveRefs(s: Flows, id: nat, w: FlowVal, nats: Tables, reply: FlowKey)
    requires Inv(s) && Untouched(s, id) && w.refs == s.vals[id].refs && w.reply == s.vals[id].reply
    ensures var m := s.(nats := nats, vals := s.vals[id := w]);
            var d := Moved(m, id, reply);
            && (RefsRight(d.table, d.vals) <==> MoveSafe(s, id, reply))
            && (MoveSafe(s, id, reply) ==> d == MovedSafely(m, id, reply))
  {
    assert Sane(s.vals[id]);
    UpdateKeepsRefs(s, id, w);
    MoveRefsIff(s.(nats := nats, vals := s.vals[id := w]), id, reply, s.vals[id].org);
  }

  lemma MarkedSafely(s: Flows, id: nat, w: FlowVal, nats: Tables, reply: FlowKey)
    requires FreedOnce(s) && CacheRight(s) && id in s.vals && MoveSafe(s, id, reply) && w.reply == s.vals[id].reply
    ensures var d := MovedSafely(s.(nats := nats, vals := s.vals[id := w]), id, reply);
            && FreedOnce(d) && CacheRight(d) && d.nats == nats && d.freed == s.freed && id in d.vals
            && d.table == (s.table - {s.vals[id].reply})[reply := id]
            && d.vals == s.vals[id := w.(reply := reply, refs := d.vals[id].refs)]
  {
    var m := s.(nats := nats, vals := s.vals[id := w]);
    assert m.vals.Keys == s.vals.Keys;
    SameIdentities(s, m);
    MoveRest(m, id, reply);
  }

  lemma SameIdentities(s: Flows, m: Flows)
    requires FreedOnce(s) && m.vals.Keys == s.vals.Keys && m.freed == s.freed && m.nextId == s.nextId
    ensures FreedOnce(m)
  {
    assert forall x :: x in m.vals <==> x in s.vals.Keys;
  }

  lemma UpdateKeepsSane(vals: map<nat, FlowVal>, id: nat, w: FlowVal)
    requires AllSane(vals) && Sane(w)
    ensures AllSane(vals[id := w])
  {
  }

  /** Destination NAT keeps everything exactly when the move of the reply key is safe. */
  lemma DnatKeepsIff(s: Flows, id: nat, dnatIp: uint32)
    requires Inv(s) && Untouched(s, id)
    ensures Inv(Dnatted(s, id, dnatIp)) <==> MoveSafe(s, id, s.vals[id].reply.(l3Src := V4(dnatIp)))
  {
    var v := s.vals[id];
    assert Sane(v);
    var reply, w := v.reply.(l3Src := V4(dnatIp)), v.(flagged := true);
    MarkedMove(s, id, w, s.nats, reply);
    if MoveSafe(s, id, reply) {
      var d := Dnatted(s, id, dnatIp);
      UpdateKeepsSane(s.vals, id, d.vals[id]);
      LedgerAfterRefs(s.vals, id, d.vals[id]);
    }
  }

  lemma VipKeepsIff(s: Flows, id: nat, vipIp: uint32)
    requires Inv(s) && Untouched(s, id)
    ensures Inv(Vipped(s, id, vipIp)) <==> MoveSafe(s, id, s.vals[id].reply.(l3Dst := V4(vipIp)))
  {
    var v := s.vals[id];
    assert Sane(v);
    var reply := v.reply.(l3Dst := V4(vipIp));
    MarkedMove(s, id, v.(natType := VipNat, flagged := true), s.nats, reply);
    if MoveSafe(s, id, reply) {
      var d := Vipped(s, id, vipIp);
      UpdateKeepsSane(s.vals, id, d.vals[id]);
      LedgerAfterRefs(s.vals, id, d.vals[id]);
    }
  }

  // ---------- source NAT ----------

  /** The packet is the flow's first: the flow's original key is built from it. */
  ghost predicate FirstPacket(v: FlowVal, q: Ask, stale: VnfType) {
    Natted(q.h, q.ing) && BuildKey(q.h, q.ing, stale) == Some(v.org)
  }

  /** An untouched flow whose first packet gets a port. */
  ghost predicate Granted(s: Flows, id: nat, q: Ask, stale: VnfType) {
    Inv(s) && Untouched(s, id) && FirstPacket(s.vals[id], q, stale) && q.Outcome(s.nats).Done?
  }

  /** The allocation it gets, and the reply key the flow is to have. */
  ghost function Got(s: Flows, q: Ask): Alloc
    requires q.HasIp() && q.Outcome(s.nats).Done?
  {
    AllocFor(q.h, q.ing.Vni(), q.natIp, q.Outcome(s.nats).natPort)
  }

  ghost function NewReply(s: Flows, id: nat, q: Ask): FlowKey
    requires id in s.vals && q.HasIp() && q.Outcome(s.nats).Done?
  {
    NattedReply(q.h, s.vals[id].org, q.natIp, q.Outcome(s.nats).natPort)
  }

  /** What source NAT needs beyond an allocated port: room in the client's counter, a packet that
      can be translated, room for the reply key, and that key being free. */
  ghost predicate SnatSafe(s: Flows, id: nat, q: Ask, inserted: bool)
    requires id in s.vals && q.HasIp() && q.Outcome(s.nats).Done?
  {
    && !q.Untranslatable()
    && inserted
    && !(q.Wanted().pk in s.nats.portmap && s.nats.portmap[q.Wanted().pk].flowCnt == 0xffff)
    && MoveSafe(s, id, NewReply(s, id, q))
  }

  /** The marked and moved flow owns exactly what was allocated for it. */
  lemma SnatAllocates(s: Flows, id: nat, q: Ask, stale: VnfType)
    requires Granted(s, id, q, stale)
    ensures Got(s, q) == Alloc(q.Wanted().pk, q.Wanted().ok.(natPort := q.Outcome(s.nats).natPort))
    ensures var v, port := s.vals[id], q.Outcome(s.nats).natPort;
            NewReply(s, id, q) == if q.h.l3.Ip6? then ReplyNat64(v.reply, q.h, q.natIp, port)
                else ReplyNat4(v.reply, q.natIp, port)
    ensures Marked(s.vals[id], q.ing.Vni()).(reply := NewReply(s, id, q)).Owned() == Some(Got(s, q))
    ensures s.vals[id].Owned() == None
  {
    assert Sane(s.vals[id]);
    ReleaseFindsAllocation(q.h, q.ing, stale, q.natIp, q.Outcome(s.nats).natPort);
  }

  lemma LedgerAfterSnat(vals: map<nat, FlowVal>, id: nat, w: FlowVal)
    requires id in vals && vals[id].Owned() == None && w.Owned().Some?
    ensures id !in LedgerOf(vals) && LedgerOf(vals[id := w]) == LedgerOf(vals)[id := w.Owned().value]
  {
  }

  /** A packet that cannot be translated: the port stays allocated, and no flow owns it. */
  lemma SnatUntranslated(s: Flows, id: nat, q: Ask, stale: VnfType, inserted: bool)
    requires Granted(s, id, q, stale) && q.Untranslatable()
    ensures var n := Snatted(s, id, q, inserted);
            n == s.(nats := q.Outcome(s.nats).t) && Got(s, q).ok in n.nats.overload && !PortsRight(n)
  {
    assert Sane(s.vals[id]);
    SnatAllocates(s, id, q, stale);
    AllocatedIsNew(s.nats, LedgerOf(s.vals), q.Wanted().pk, q.Wanted().ok, q.min, q.max, q.hash);
  }

  /** Marking an untouched flow as w adds its allocation to the ledger and keeps values sane. */
  lemma SnatLedger(s: Flows, id: nat, w: FlowVal, b: Alloc)
    requires AllSane(s.vals) && id in s.vals && s.vals[id].Owned() == None && w.Owned() == Some(b) && w.flagged
    ensures AllSane(s.vals[id := w]) && id !in LedgerOf(s.vals)
            && LedgerOf(s.vals[id := w]) == LedgerOf(s.vals)[id := b]
  {
    LedgerAfterSnat(s.vals, id, w);
  }

  /** The flow table and the ledger after a safe move. */
  lemma SnatMoved(s: Flows, id: nat, q: Ask, stale: VnfType)
    requires Granted(s, id, q, stale) && !q.Untranslatable()
    ensures var n := Snatted(s, id, q, true);
            && (RefsRight(n.table, n.vals) <==> MoveSafe(s, id, NewReply(s, id, q)))
            && (MoveSafe(s, id, NewReply(s, id, q)) ==> SnatEffect(s, n, id, q))
  {
    SnatAllocates(s, id, q, stale);
    var w, reply, t := Marked(s.vals[id], q.ing.Vni()), NewReply(s, id, q), q.Outcome(s.nats).t;
    var n := Snatted(s, id, q, true);
    assert n == Moved(s.(nats := t, vals := s.vals[id := w]), id, reply);
    MarkedMove(s, id, w, t, reply);
    if MoveSafe(s, id, reply) {
      SnatLedger(s, id, n.vals[id], Got(s, q));
    }
  }

  ghost predicate SnatEffect(s: Flows, n: Flows, id: nat, q: Ask)
    requires id in s.vals && q.HasIp() && q.Outcome(s.nats).Done?
  {
    var reply := NewReply(s, id, q);
    && AllSane(n.vals) && FreedOnce(n) && CacheRight(n) && n.nats == q.Outcome(s.nats).t && n.freed == s.freed
    && id in n.vals && n.table == (s.table - {s.vals[id].reply})[reply := id]
    && n.vals == s.vals[id := Marked(s.vals[id], q.ing.Vni()).(reply := reply, refs := n.vals[id].refs)]
    && LedgerOf(n.vals) == LedgerOf(s.vals)[id := Got(s, q)] && id !in LedgerOf(s.vals)
  }

  lemma SnatMovedIff(s: Flows, id: nat, q: Ask, stale: VnfType)
    requires Granted(s, id, q, stale) && !q.Untranslatable()
    ensures Inv(Snatted(s, id, q, true)) <==> SnatSafe(s, id, q, true)
  {
    SnatMoved(s, id, q, stale);
    if MoveSafe(s, id, NewReply(s, id, q)) {
      SnatAllocates(s, id, q, stale);
      AllocateTracksIff(s.nats, LedgerOf(s.vals), id, q.Wanted().pk, q.Wanted().ok, q.min, q.max, q.hash);
    }
  }

  lemma SnatNotInserted(s: Flows, id: nat, q: Ask, stale: VnfType)
    requires Granted(s, id, q, stale) && !q.Untranslatable()
    ensures !Inv(Snatted(s, id, q, false))
  {
    SnatAllocates(s, id, q, stale);
    NotMovedFails(s, id, Marked(s.vals[id], q.ing.Vni()), NewReply(s, id, q), q.Outcome(s.nats).t, Got(s, q),
                  q.Wanted().ok, q.min, q.max, q.hash);
    assert Sane(s.vals[id]);
  }

  lemma NotMovedFails(s: Flows, id: nat, w: FlowVal, reply: FlowKey, t: Tables, b: Alloc, ok: OverloadKey, min: uint16,
                      max: uint16, hash: uint32)
    requires Inv(s) && Untouched(s, id)
    requires Allocate(s.nats, b.pk, ok, min, max, hash) == Done(t, b.ok.natPort) && b.ok == ok.(natPort := b.ok.natPort)
    requires w.refs == s.vals[id].refs && w.reply == s.vals[id].reply && w.(reply := reply).Owned() == Some(b)
    ensures !Inv(NotMoved(s.(nats := t, vals := s.vals[id := w]), id, reply))
  {
    FailedInsert(s, id, w, reply, t, b, ok, min, max, hash);
    StillOwned(s.(nats := t, vals := s.vals[id := w]), id, reply);
  }

  /** Losing a key changes nothing but the counter. */
  lemma StillOwned(m: Flows, id: nat, reply: FlowKey)
    requires id in m.vals
    ensures var d := FlowDeleted(m, m.vals[id].reply, id);
            id in d.vals ==>
              && d.vals[id].(reply := reply).Owned() == m.vals[id].(reply := reply).Owned()
              && AllocOf(d.vals[id].org, reply, d.vals[id].natVni) == AllocOf(m.vals[id].org, reply, m.vals[id].natVni)
  {
  }

  /** Source NAT with an allocated port keeps everything exactly when the client's flow counter
      has room, the packet can be translated, the new reply key is inserted and that move is
      safe. After either failure the tables disagree with the flows about the port. */
  lemma SnatKeepsIff(s: Flows, id: nat, q: Ask, stale: VnfType, inserted: bool)
    requires Granted(s, id, q, stale)
    ensures Inv(Snatted(s, id, q, inserted)) <==> SnatSafe(s, id, q, inserted)
  {
    if q.Untranslatable() {
      SnatUntranslated(s, id, q, stale, inserted);
    } else if inserted {
      SnatMovedIff(s, id, q, stale);
    } else {
      SnatNotInserted(s, id, q, stale);
    }
  }

  /** A fresh allocation is not in the ledger, so the tables no longer match it. */
  lemma AllocatedIsNew(t: Tables, l: Ledger, pk: PortmapKey, ok: OverloadKey, min: uint16, max: uint16, hash: uint32)
    requires Tracks(t, l) && Allocate(t, pk, ok, min, max, hash).Done?
    ensures var o := Allocate(t, pk, ok, min, max, hash);
            && ok.(natPort := o.natPort) !in t.overload && ok.(natPort := o.natPort) !in Wires(l)
            && !Tracks(o.t, l)
  {
    var o := Allocate(t, pk, ok, min, max, hash);
    assert ok.(natPort := o.natPort) in o.t.overload.Keys;
  }

  /** Releasing the port but keeping the flow's claim to it leaves a claim without an entry. */
  lemma FailedInsert(s: Flows, id: nat, w: FlowVal, reply: FlowKey, t: Tables, b: Alloc, ok: OverloadKey, min: uint16,
                     max: uint16, hash: uint32)
    requires Inv(s) && Untouched(s, id)
    requires Allocate(s.nats, b.pk, ok, min, max, hash) == Done(t, b.ok.natPort) && b.ok == ok.(natPort := b.ok.natPort)
    requires w.refs == s.vals[id].refs && w.reply == s.vals[id].reply && w.(reply := reply).Owned() == Some(b)
    ensures var d := FlowDeleted(s.(nats := t, vals := s.vals[id := w]), w.reply, id);
            if id in d.vals then
              d.nats == t && !PortsRight(d.(vals := d.vals[id := d.vals[id].(reply := reply)],
                  nats := Delete(t, b.pk, b.ok)))
            else !RefsRight(d.table, d.vals)
  {
    var l, org := LedgerOf(s.vals), s.vals[id].org;
    assert Sane(s.vals[id]);
    var d := FlowDeleted(s.(nats := t, vals := s.vals[id := w]), w.reply, id);
    assert org in d.table && d.table[org] == id;
    if id in d.vals {
      AllocatedIsNew(s.nats, l, b.pk, ok, min, max, hash);
      ReleaseUndoesAllocate(s.nats, l, b.pk, ok, min, max, hash);
      var vals' := d.vals[id := d.vals[id].(reply := reply)];
      assert id in LedgerOf(vals') && LedgerOf(vals')[id] == b;
      OwnWire(LedgerOf(vals'), id);
    }
  }

  // ---------- sweeps ----------

  /** The last key takes the value and its port with it, and only the last. */
  lemma LastKeyFrees(s: Flows, key: FlowKey)
    requires Inv(s) && key in s.table
    ensures var id := s.table[key];
            var d := FlowDeleted(s, key, id);
            && (id !in d.vals <==> KeysOf(s.table, id) == {key})
            && d.freed == (if id in d.vals then s.freed else s.freed + [id])
            && d.nats == (if id in d.vals || s.vals[id].Owned().None? then s.nats
                          else Delete(s.nats, s.vals[id].Owned().value.pk, s.vals[id].Owned().value.ok))
  {
    var id := s.table[key];
    assert RefCounted(s.table, s.vals[id], id);
    assert {key} <= KeysOf(s.table, id);
    assert |KeysOf(s.table, id) - {key}| == |KeysOf(s.table, id)| - 1;
  }

  function SweptOne(s: Flows, key: FlowKey): Flows {
    if key in s.table && s.table[key] in s.vals then FlowDeleted(s, key, s.table[key]) else s
  }

  /** A sweep over the table that deletes some of the keys it comes by, in the order it does. */
  function Swept(s: Flows, doomed: seq<FlowKey>): Flows {
    if doomed == [] then s else SweptOne(Swept(s, doomed[..|doomed| - 1]), doomed[|doomed| - 1])
  }

  /** r is s without the doomed keys, and its values differ from those of s in counters only. */
  ghost predicate Thinned(s: Flows, doomed: seq<FlowKey>, r: Flows) {
    && (forall k :: k in r.table <==> k in s.table && k !in doomed)
    && (forall k :: k in r.table ==> r.table[k] == s.table[k])
    && (forall id :: id in r.vals ==> id in s.vals && r.vals[id] == s.vals[id].(refs := r.vals[id].refs))
  }

  lemma OneThinner(s: Flows, key: FlowKey)
    requires RefsRight(s.table, s.vals)
    ensures Thinned(s, [key], SweptOne(s, key))
  {
    if key in s.table {
      var id, n := s.table[key], SweptOne(s, key);
      assert n.table == s.table - {key};
      assert n.vals == if s.vals[id].refs == 1 then s.vals - {id}
          else s.vals[id := s.vals[id].(refs := s.vals[id].refs - 1)];
    }
  }

  lemma ThinnedTwice(s: Flows, init: seq<FlowKey>, m: Flows, last: FlowKey, r: Flows)
    requires Thinned(s, init, m) && Thinned(m, [last], r)
    ensures Thinned(s, init + [last], r)
  {
  }

  lemma OneMoreSwept(s: Flows, init: seq<FlowKey>, m: Flows, last: FlowKey)
    requires Inv(m) && Thinned(s, init, m)
    ensures Inv(SweptOne(m, last)) && Thinned(s, init + [last], SweptOne(m, last))
  {
    OneThinner(m, last);
    ThinnedTwice(s, init, m, last, SweptOne(m, last));
    if last in m.table { DeleteKeeps(m, last); }
  }

  /** Any sweep - aging, or removing the flows of an interface, a NAT or a target - keeps
      everything, removes exactly the keys it means to, and changes nothing but counters in the
      values that stay. */
  lemma {:induction false} SweepRight(s: Flows, doomed: seq<FlowKey>)
    requires Inv(s)
    ensures Inv(Swept(s, doomed)) && Thinned(s, doomed, Swept(s, doomed))
  {
    if doomed != [] {
      var init, last := doomed[..|doomed| - 1], doomed[|doomed| - 1];
      SweepRight(s, init);
      OneMoreSwept(s, init, Swept(s, init), last);
      assert doomed == init + [last];
    }
  }

  /** What the sweeping functions look for: flows that have expired, the NAT or VIP flows of a port,
      keys towards a neighbouring NAT, the flows of an interface, flows relayed to a target. */
  datatype Removal =
    | Aging(now: uint64, hz: nat)
    | NatFlows(port: uint16, natType: NatType)
    | NeighNat(ipv4: uint32, vni: uint32, min: uint16, max: uint16)
    | IfaceFlows(port: uint16, ipv4: uint32, vni: uint32)
    | LbTarget(target: Ipv6)
  {
    predicate Takes(k: FlowKey, v: FlowVal) {
      match this
      case Aging(now, hz) => (now - v.info.timestamp) % TWO64 > hz * v.info.timeout
      case NatFlows(port, natType) => v.info.port == port && v.natType == natType
      case NeighNat(ipv4, vni, min, max) => k.vni == vni && k.l3Dst == V4(ipv4) && min <= k.portDst < max
      case IfaceFlows(port, ipv4, vni) => v.info.port == port || (k.vni == vni && v.org.l3Dst == V4(ipv4))
      case LbTarget(target) => v.info.underlay == target
    }
  }

  /** The doomed keys are those the removal takes. */
  ghost predicate Picks(s: Flows, r: Removal, doomed: seq<FlowKey>)
    requires RefsRight(s.table, s.vals)
  {
    forall k :: k in s.table ==> (k in doomed <==> r.Takes(k, s.vals[s.table[k]]))
  }

  /** What becomes of a value: it stays as long as one of its keys does. */
  ghost predicate Fated(s: Flows, n: Flows, r: Removal, id: nat)
    requires id in s.vals
  {
    && (id in n.vals <==> exists k :: k in KeysOf(s.table, id) && !r.Takes(k, s.vals[id]))
    && (id in n.vals ==> n.vals[id] == s.vals[id].(refs := |KeysOf(n.table, id)|))
  }

  /** n is s without the keys the removal takes and the values that lose all of theirs. */
  ghost predicate RemovedExactly(s: Flows, n: Flows, r: Removal)
    requires RefsRight(s.table, s.vals)
  {
    && n.table == (map k | k in s.table && !r.Takes(k, s.vals[s.table[k]]) :: s.table[k])
    && n.vals.Keys <= s.vals.Keys && forall id :: id in s.vals ==> Fated(s, n, r, id)
  }

  lemma RemovedOne(s: Flows, doomed: seq<FlowKey>, r: Removal, id: nat)
    requires Inv(s) && Picks(s, r, doomed) && id in s.vals
    ensures Fated(s, Swept(s, doomed), r, id)
  {
    var n := Swept(s, doomed);
    SweepRight(s, doomed);
    if id in n.vals {
      assert RefCounted(n.table, n.vals[id], id);
      assert KeysOf(n.table, id) != {};
      var k :| k in KeysOf(n.table, id);
      assert k in KeysOf(s.table, id) && !r.Takes(k, s.vals[id]);
    }
    if k :| k in KeysOf(s.table, id) && !r.Takes(k, s.vals[id]) {
      assert k in n.table && n.table[k] == id;
    }
  }

  lemma RemovedKeys(s: Flows, doomed: seq<FlowKey>, r: Removal, n: Flows)
    requires RefsRight(s.table, s.vals) && Picks(s, r, doomed) && Thinned(s, doomed, n)
    ensures n.table == (map k | k in s.table && !r.Takes(k, s.vals[s.table[k]]) :: s.table[k])
    ensures n.vals.Keys <= s.vals.Keys
  {
  }

  /** Each of the five sweeps removes exactly the keys it looks for, in whatever order it comes by
      them, and with the last key of a flow the flow and its NAT port. */
  lemma RemovalExact(s: Flows, doomed: seq<FlowKey>, r: Removal)
    requires Inv(s) && Picks(s, r, doomed)
    ensures Inv(Swept(s, doomed)) && RemovedExactly(s, Swept(s, doomed), r)
  {
    forall id | id in s.vals ensures Fated(s, Swept(s, doomed), r, id) {
      RemovedOne(s, doomed, r, id);
    }
    SweepRight(s, doomed);
    RemovedKeys(s, doomed, r, Swept(s, doomed));
  }

  /** A removal that looks at the value alone takes flows whole. */
  ghost predicate WholeFlows(s: Flows, r: Removal)
    requires RefsRight(s.table, s.vals)
  {
    forall j, k :: j in s.table && k in s.table && s.table[j] == s.table[k] ==>
      (r.Takes(j, s.vals[s.table[j]]) <==> r.Takes(k, s.vals[s.table[k]]))
  }

  /** A flow is as it was, or gone if the removal takes any of its keys. */
  ghost predicate Whole(s: Flows, n: Flows, r: Removal, id: nat)
    requires id in s.vals
  {
    if exists k :: k in KeysOf(s.table, id) && r.Takes(k, s.vals[id]) then id !in n.vals
    else id in n.vals && n.vals[id] == s.vals[id]
  }

  /** A removal takes whole flows, both keys in one sweep and with them the flow and its port, and
      leaves every other flow exactly as it was, if and only if it does not tell the keys of a flow
      apart. Aging, and removing NAT flows or those of a target, never do. */
  lemma WholeRemovalExact(s: Flows, doomed: seq<FlowKey>, r: Removal)
    requires Inv(s) && Picks(s, r, doomed)
    ensures r.Aging? || r.NatFlows? || r.LbTarget? ==> WholeFlows(s, r)
    ensures WholeFlows(s, r) <==> forall id :: id in s.vals ==> Whole(s, Swept(s, doomed), r, id)
  {
    if WholeFlows(s, r) {
      AllWhole(s, doomed, r);
    }
    if forall id :: id in s.vals ==> Whole(s, Swept(s, doomed), r, id) {
      NoneHalf(s, doomed, r);
    }
  }

  lemma AllWhole(s: Flows, doomed: seq<FlowKey>, r: Removal)
    requires Inv(s) && Picks(s, r, doomed) && WholeFlows(s, r)
    ensures forall id :: id in s.vals ==> Whole(s, Swept(s, doomed), r, id)
  {
    forall id | id in s.vals ensures Whole(s, Swept(s, doomed), r, id) {
      WholeOne(s, doomed, r, id);
    }
  }

  lemma NoneHalf(s: Flows, doomed: seq<FlowKey>, r: Removal)
    requires Inv(s) && Picks(s, r, doomed) && forall id :: id in s.vals ==> Whole(s, Swept(s, doomed), r, id)
    ensures WholeFlows(s, r)
  {
    forall j, k | j in s.table && k in s.table && s.table[j] == s.table[k] && r.Takes(j, s.vals[s.table[j]])
      ensures r.Takes(k, s.vals[s.table[k]])
    {
      NotHalf(s, doomed, r, j, k);
    }
  }

  lemma NotHalf(s: Flows, doomed: seq<FlowKey>, r: Removal, j: FlowKey, k: FlowKey)
    requires Inv(s) && Picks(s, r, doomed) && j in s.table && k in s.table && s.table[j] == s.table[k]
    requires r.Takes(j, s.vals[s.table[j]]) && Whole(s, Swept(s, doomed), r, s.table[j])
    ensures r.Takes(k, s.vals[s.table[k]])
  {
    RemovedOne(s, doomed, r, s.table[j]);
    assert j in KeysOf(s.table, s.table[j]) && k in KeysOf(s.table, s.table[j]);
  }

  lemma WholeOne(s: Flows, doomed: seq<FlowKey>, r: Removal, id: nat)
    requires Inv(s) && Picks(s, r, doomed) && WholeFlows(s, r) && id in s.vals
    ensures Whole(s, Swept(s, doomed), r, id)
  {
    RemovedOne(s, doomed, r, id);
    SweepRight(s, doomed);
    assert RefCounted(s.table, s.vals[id], id);
    assert KeysOf(s.table, id) != {};
    KeepsAll(s, doomed, r, Swept(s, doomed), id);
  }

  lemma KeepsAll(s: Flows, doomed: seq<FlowKey>, r: Removal, n: Flows, id: nat)
    requires RefsRight(s.table, s.vals) && Picks(s, r, doomed) && WholeFlows(s, r) && Thinned(s, doomed, n)
             && id in s.vals
    requires Fated(s, n, r, id) && KeysOf(s.table, id) != {} && s.vals[id].refs == |KeysOf(s.table, id)|
    ensures Whole(s, n, r, id)
  {
    if !exists k :: k in KeysOf(s.table, id) && r.Takes(k, s.vals[id]) {
      var k :| k in KeysOf(s.table, id);
      assert !r.Takes(k, s.vals[id]);
      assert KeysOf(n.table, id) == KeysOf(s.table, id);
    }
  }

  // ---------- runs ----------

  datatype Step =
    | Arrives(key: FlowKey, b: Info)
    | Unreadable(junk: FlowKey)
    | Translates(id: nat, dnatIp: uint32)
    | Presents(id: nat, vipIp: uint32)
    | Hides(id: nat, q: Ask, stale: VnfType, inserted: bool)
    | Retypes(id: nat, natType: NatType, underlay: Ipv6)
    | Flags(id: nat)
    | Touches(id: nat, now: uint64, timeout: nat)
    | Sweeps(doomed: seq<FlowKey>)

  /** When the graph takes a step: the nodes act on the untouched flow of the packet they hold. */
  ghost predicate Enabled(s: Flows, t: Step) {
    match t
    case Translates(id, _) => Untouched(s, id)
    case Presents(id, _) => Untouched(s, id)
    case Hides(id, q, stale, _) => Untouched(s, id) && FirstPacket(s.vals[id], q, stale)
    case Retypes(id, natType, _) => id in s.vals && !s.vals[id].flagged && natType != NetworkLocal
    case Flags(id) => id in s.vals
    case Touches(id, _, _) => id in s.vals
    case _ => true
  }

  function Touched(v: FlowVal, now: uint64, timeout: nat): FlowVal {
    v.(info := v.info.(timestamp := now, timeout := timeout))
  }

  function Relayed(v: FlowVal, natType: NatType, underlay: Ipv6): FlowVal {
    v.(natType := natType, info := v.info.(underlay := underlay))
  }

  ghost function Next(s: Flows, t: Step): Flows
    requires Inv(s) && Enabled(s, t)
  {
    match t
    case Arrives(key, b) => Looked(s, key, b).0
    case Unreadable(junk) => s.(cache := Written(s.cache, junk))
    case Translates(id, dnatIp) => Dnatted(s, id, dnatIp)
    case Presents(id, vipIp) => Vipped(s, id, vipIp)
    case Hides(id, q, _, inserted) => Snatted(s, id, q, inserted)
    case Retypes(id, natType, underlay) => s.(vals := s.vals[id := Relayed(s.vals[id], natType, underlay)])
    case Flags(id) => s.(vals := s.vals[id := s.vals[id].(flagged := true)])
    case Touches(id, now, timeout) => s.(vals := s.vals[id := Touched(s.vals[id], now, timeout)])
    case Sweeps(doomed) => Swept(s, doomed)
  }

  /** What each step needs of its state for nothing to go wrong; all of it can be checked before
      the step is taken, but for the insertion of a key into a table that is full. */
  ghost predicate Benign(s: Flows, t: Step)
    requires Enabled(s, t)
  {
    match t
    case Arrives(key, _) => key in s.table || FreshReply(s, key)
    case Translates(id, dnatIp) => MoveSafe(s, id, s.vals[id].reply.(l3Src := V4(dnatIp)))
    case Presents(id, vipIp) => MoveSafe(s, id, s.vals[id].reply.(l3Dst := V4(vipIp)))
    case Hides(id, q, _, inserted) => q.Outcome(s.nats).Done? ==> SnatSafe(s, id, q, inserted)
    case _ => true
  }

  lemma UpdateKeepsInv(s: Flows, id: nat, w: FlowVal)
    requires Inv(s) && id in s.vals && Sane(w) && w.refs == s.vals[id].refs && w.Owned() == s.vals[id].Owned()
    ensures Inv(s.(vals := s.vals[id := w]))
  {
    UpdateKeepsRefs(s, id, w);
    UpdateKeepsSane(s.vals, id, w);
    LedgerAfterRefs(s.vals, id, w);
    assert s.vals[id := w].Keys == s.vals.Keys;
    SameIdentities(s, s.(vals := s.vals[id := w]));
  }

  /** From a good state, a step leads to a good state exactly if it is benign. */
  lemma StepKeepsIff(s: Flows, t: Step)
    requires Inv(s) && Enabled(s, t)
    ensures Inv(Next(s, t)) <==> Benign(s, t)
  {
    match t {
      case Arrives(key, b) => LookRight(s, key, b);
      case Unreadable(junk) => ScribbleKeeps(s, junk);
      case Translates(id, dnatIp) => DnatKeepsIff(s, id, dnatIp);
      case Presents(id, vipIp) => VipKeepsIff(s, id, vipIp);
      case Hides(id, q, stale, inserted) =>
        if q.Outcome(s.nats).Done? {
          SnatKeepsIff(s, id, q, stale, inserted);
        }
      case Retypes(id, natType, underlay) =>
        assert Sane(s.vals[id]);
        UpdateKeepsInv(s, id, Relayed(s.vals[id], natType, underlay));
      case Flags(id) =>
        assert Sane(s.vals[id]);
        UpdateKeepsInv(s, id, s.vals[id].(flagged := true));
      case Touches(id, now, timeout) =>
        assert Sane(s.vals[id]);
        UpdateKeepsInv(s, id, Touched(s.vals[id], now, timeout));
      case Sweeps(doomed) => SweepRight(s, doomed);
    }
  }

  /** ICMPv6 of type 1, destination unreachable, towards the NAT64 prefix. */
  const UNREACHABLE: Ask :=
    Ask(Headers(Ip6(ZERO_IPV6, Embed(8)), ICMPV6, 0, 0, 1, 0, 100, None), Virtual(7, true, false), 9, 5000, 6000, 0)

  const UNREACHABLE_KEY: FlowKey := FlowKey(V6(Embed(8)), ICMPV6, 100, V6(ZERO_IPV6), Nat, 1, 7)

  lemma UnreachableKey()
    ensures BuildKey(UNREACHABLE.h, UNREACHABLE.ing, Undefined) == Some(UNREACHABLE_KEY)
    ensures Natted(UNREACHABLE.h, UNREACHABLE.ing) && UNREACHABLE.Untranslatable()
    ensures Invert(UNREACHABLE_KEY) != UNREACHABLE_KEY
  {
    EmbedRoundTrip(8, ZERO_IPV6);
    assert Embed(8)[1] == 0x64;
  }

  lemma UnreachableArrives()
    ensures var s := Looked(Standby(EMPTY), UNREACHABLE_KEY, Info(1, 30, 4, ZERO_IPV6)).0;
            Inv(s) && Untouched(s, 0) && s.vals.Keys == {0} && s.vals[0].org == UNREACHABLE_KEY && s.nats == EMPTY
  {
    UnreachableKey();
    StandbyInv();
    LookRight(Standby(EMPTY), UNREACHABLE_KEY, Info(1, 30, 4, ZERO_IPV6));
  }

  /** A step that is not benign, from an empty table: after this packet a port is allocated that no
      flow owns, so nothing will ever release it. */
  lemma UntranslatableLeaks()
    ensures var s, t := Looked(Standby(EMPTY), UNREACHABLE_KEY, Info(1, 30, 4, ZERO_IPV6)).0,
            Hides(0, UNREACHABLE, Undefined, true);
            && Inv(s) && Enabled(s, t) && !Benign(s, t) && !Inv(Next(s, t))
            && Next(s, t).nats.overload != map[] && LedgerOf(Next(s, t).vals) == map[]
  {
    UnreachableKey();
    UnreachableArrives();
    var s, t := Looked(Standby(EMPTY), UNREACHABLE_KEY, Info(1, 30, 4, ZERO_IPV6)).0,
        Hides(0, UNREACHABLE, Undefined, true);
    assert UNREACHABLE.Outcome(s.nats).Done?;
    SnatUntranslated(s, 0, UNREACHABLE, Undefined, true);
    assert Sane(s.vals[0]);
  }

  ghost predicate IsRun(ss: seq<Flows>, ts: seq<Step>) {
    && |ss| == |ts| + 1 && Inv(ss[0])
    && forall k :: 0 <= k < |ts| ==>
        Enabled(ss[k], ts[k]) && Benign(ss[k], ts[k]) && (Inv(ss[k]) ==> ss[k + 1] == Next(ss[k], ts[k]))
  }

  /** In every state of every run of benign steps: counters are key counts, every value ever made
      is live or was freed once, the cache agrees with the table, and the NAT tables hold exactly
      the ports of the live flows. */
  lemma {:induction false} RunKeeps(ss: seq<Flows>, ts: seq<Step>)
    requires IsRun(ss, ts)
    ensures forall k :: 0 <= k < |ss| ==> Inv(ss[k])
  {
    if ts != [] {
      var m := |ts| - 1;
      RunKeeps(ss[..m + 1], ts[..m]);
      assert Inv(ss[..m + 1][m]);
      StepKeepsIff(ss[m], ts[m]);
      forall k | 0 <= k < |ss| ensures Inv(ss[k]) {
        if k <= m { assert Inv(ss[..m + 1][k]); }
      }
    }
  }
}
