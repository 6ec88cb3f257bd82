/** One load balancer: its sorted, zero-padded backend array and the table derived from it. */
module LoadBalancer {
  import opened Words
  import opened PreferenceRow
  import opened MaglevTable

  /** DP_LB_MAX_IPS_PER_VIP */
  const MAX_BACKENDS: nat := 64

  // ---------- the order of addresses ----------

  /** An address read as one big-endian number. */
  ghost function Rank(b: seq<uint8>): nat {
    if b == [] then 0 else Rank(b[..|b| - 1]) * 0x100 + b[|b| - 1]
  }

  lemma {:induction false} RankInjective(a: seq<uint8>, b: seq<uint8>)
    requires |a| == |b| && Rank(a) == Rank(b)
    ensures a == b
  {
    if a != [] {
      RankInjective(a[..|a| - 1], b[..|a| - 1]);
      assert a == a[..|a| - 1] + [a[|a| - 1]] && b == b[..|a| - 1] + [b[|a| - 1]];
    }
  }

  /** The first differing byte decides. */
  lemma {:induction false} FirstDifference(a: seq<uint8>, b: seq<uint8>, i: nat)
    requires |a| == |b| && i < |a| && a[..i] == b[..i] && a[i] < b[i]
    ensures Rank(a) < Rank(b)
  {
    var n := |a| - 1;
    if i == n {
      assert a[..n] == b[..n];
    } else {
      assert a[..n][..i] == a[..i] && b[..n][..i] == b[..i];
      FirstDifference(a[..n], b[..n], i);
    }
  }

  /** dp_is_ipv6_greater */
  method IsGreater(a: Ipv6, b: Ipv6) returns (r: bool)
    ensures r == (Rank(a) > Rank(b))
  {
    for i := 0 to 16
      invariant a[..i] == b[..i]
    {
      if a[i] < b[i] {
        FirstDifference(a, b, i);
        return false;
      }
      if a[i] > b[i] {
        FirstDifference(b, a, i);
        return true;
      }
    }
    assert a == a[..16] && b == b[..16];
    r := false;
  }

  ghost predicate Ascending(ips: seq<Ipv6>) {
    forall i, j :: 0 <= i < j < |ips| ==> Rank(ips[i]) < Rank(ips[j])
  }

  ghost function Elems(ips: seq<Ipv6>): set<Ipv6> { set ip | ip in ips }

  lemma NonEmptyElems(a: seq<Ipv6>)
    ensures a == [] <==> Elems(a) == {}
  {
    if a != [] {
      assert a[0] in Elems(a);
    }
  }

  lemma HeadIsLeast(a: seq<Ipv6>, b: seq<Ipv6>)
    requires Ascending(a) && a != [] && b != [] && Elems(a) == Elems(b)
    ensures Rank(a[0]) <= Rank(b[0])
  {
    assert b[0] in Elems(a);
    var k :| 0 <= k < |a| && a[k] == b[0];
  }

  lemma TailElems(a: seq<Ipv6>)
    requires Ascending(a) && a != []
    ensures Ascending(a[1..]) && Elems(a[1..]) == Elems(a) - {a[0]}
  {
    assert a == [a[0]] + a[1..];
    assert a[0] !in a[1..];
  }

  /** An ascending list is determined by its elements. */
  lemma {:induction false} AscendingIsUnique(a: seq<Ipv6>, b: seq<Ipv6>)
    requires Ascending(a) && Ascending(b) && Elems(a) == Elems(b)
    ensures a == b
  {
    NonEmptyElems(a);
    NonEmptyElems(b);
    if a != [] {
      HeadIsLeast(a, b);
      HeadIsLeast(b, a);
      RankInjective(a[0], b[0]);
      TailElems(a);
      TailElems(b);
      AscendingIsUnique(a[1..], b[1..]);
      assert a == [a[0]] + a[1..] && b == [b[0]] + b[1..];
    }
  }

  // ---------- inserting and removing ----------

  ghost function Inserted(ips: seq<Ipv6>, pos: nat, ip: Ipv6): seq<Ipv6>
    requires pos <= |ips|
  {
    ips[..pos] + [ip] + ips[pos..]
  }

  ghost function Removed(ips: seq<Ipv6>, pos: nat): seq<Ipv6>
    requires pos < |ips|
  {
    ips[..pos] + ips[pos + 1..]
  }

  /** Where an address belongs: after everything not above it, before the first that is. */
  ghost predicate IsInsertPosition(ips: seq<Ipv6>, ip: Ipv6, pos: nat) {
    && pos <= |ips|
    && (forall k :: 0 <= k < pos ==> Rank(ips[k]) <= Rank(ip))
    && (pos < |ips| ==> Rank(ip) < Rank(ips[pos]))
  }

  lemma InsertedElems(ips: seq<Ipv6>, pos: nat, ip: Ipv6)
    requires pos <= |ips|
    ensures Elems(Inserted(ips, pos, ip)) == Elems(ips) + {ip}
  {
    assert ips == ips[..pos] + ips[pos..];
  }

  lemma InsertedKeepsOrder(ips: seq<Ipv6>, pos: nat, ip: Ipv6)
    requires Ascending(ips) && IsInsertPosition(ips, ip, pos) && ip !in ips
    ensures Ascending(Inserted(ips, pos, ip))
    ensures Elems(Inserted(ips, pos, ip)) == Elems(ips) + {ip}
  {
    InsertedElems(ips, pos, ip);
    forall k | 0 <= k < |ips| ensures if k < pos then Rank(ips[k]) < Rank(ip) else Rank(ip) < Rank(ips[k]) {
      if k < pos && Rank(ips[k]) == Rank(ip) { RankInjective(ips[k], ip); }
    }
  }

  lemma RemovedKeepsOrder(ips: seq<Ipv6>, pos: nat)
    requires Ascending(ips) && pos < |ips|
    ensures Ascending(Removed(ips, pos))
    ensures Elems(Removed(ips, pos)) == Elems(ips) - {ips[pos]}
  {
    assert ips == ips[..pos] + [ips[pos]] + ips[pos + 1..];
    assert ips[pos] !in Removed(ips, pos);
  }

  lemma RemovedBackends(ips: seq<Ipv6>, pos: nat)
    requires Ascending(ips) && ZERO_IPV6 !in ips && pos < |ips|
    ensures Ascending(Removed(ips, pos)) && ZERO_IPV6 !in Removed(ips, pos)
    ensures Elems(Removed(ips, pos)) == Elems(ips) - {ips[pos]}
  {
    RemovedKeepsOrder(ips, pos);
    assert forall x :: x in Removed(ips, pos) ==> x in Elems(Removed(ips, pos));
  }

  lemma NotAmong(ips: seq<Ipv6>, ip: Ipv6)
    requires ip !in ips
    ensures ip !in Elems(ips) && Elems(ips) - {ip} == Elems(ips)
  {
  }

  /** The search loops over the raw array that the operations below start with. */
  method InsertPosition(ips: array<Ipv6>, cnt: nat, ip: Ipv6) returns (pos: nat)
    requires cnt <= ips.Length
    ensures IsInsertPosition(ips[..cnt], ip, pos)
  {
    for i := 0 to cnt
      invariant forall k :: 0 <= k < i ==> Rank(ips[k]) <= Rank(ip)
    {
      var greater := IsGreater(ips[i], ip);
      if greater {
        return i;
      }
    }
    pos := cnt;
  }

  method Find(ips: array<Ipv6>, cnt: nat, ip: Ipv6) returns (found: nat)
    requires cnt <= ips.Length
    ensures found <= cnt && ip !in ips[..found] && (found < cnt ==> ips[found] == ip)
  {
    found := 0;
    while found < cnt
      invariant found <= cnt && ip !in ips[..found]
    {
      if ips[found] == ip {
        break;
      }
      found := found + 1;
    }
  }

  /** dp_shift_back_end_ips upwards: entries start..end move one place up. */
  method ShiftUp(ips: array<Ipv6>, start: nat, end: nat)
    requires start <= end < ips.Length
    modifies ips
    ensures forall k :: 0 <= k < ips.Length ==>
              ips[k] == if start < k <= end then old(ips[k - 1]) else old(ips[k])
  {
    var i := end;
    while i > start
      invariant start <= i <= end
      invariant forall k :: 0 <= k < ips.Length ==>
                  ips[k] == if i < k <= end then old(ips[k - 1]) else old(ips[k])
    {
      ips[i] := ips[i - 1];
      i := i - 1;
    }
  }

  /** dp_shift_back_end_ips downwards: entries above start move one place down. */
  method ShiftDown(ips: array<Ipv6>, start: nat, end: nat)
    requires start <= end < ips.Length
    modifies ips
    ensures forall k :: 0 <= k < ips.Length ==>
              ips[k] == if start <= k < end then old(ips[k + 1]) else old(ips[k])
  {
    for i := start to end
      invariant forall k :: 0 <= k < ips.Length ==>
                  ips[k] == if start <= k < i then old(ips[k + 1]) else old(ips[k])
    {
      ips[i] := ips[i + 1];
    }
  }

  lemma IsInserted(was: seq<Ipv6>, ips: seq<Ipv6>, pos: nat, ip: Ipv6)
    requires pos <= |was| && |ips| == |was| + 1 && ips[pos] == ip
    requires forall k :: 0 <= k < pos ==> ips[k] == was[k]
    requires forall k :: pos < k < |ips| ==> ips[k] == was[k - 1]
    ensures ips == Inserted(was, pos, ip)
  {
  }

  /** Make room at pos and put the address there. */
  method InsertAt(ips: array<Ipv6>, cnt: nat, pos: nat, ip: Ipv6)
    requires pos <= cnt < ips.Length
    modifies ips
    ensures ips[..cnt + 1] == Inserted(old(ips[..cnt]), pos, ip)
    ensures forall k :: cnt < k < ips.Length ==> ips[k] == old(ips[k])
  {
    ghost var was := ips[..cnt];
    ShiftUp(ips, pos, cnt);
    ips[pos] := ip;
    IsInserted(was, ips[..cnt + 1], pos, ip);
  }

  /** Close the gap at pos and clear the place this frees. */
  method RemoveAt(ips: array<Ipv6>, cnt: nat, pos: nat)
    requires pos < cnt <= ips.Length
    modifies ips
    ensures ips[..cnt - 1] == Removed(old(ips[..cnt]), pos)
    ensures ips[cnt - 1] == ZERO_IPV6
    ensures forall k :: cnt <= k < ips.Length ==> ips[k] == old(ips[k])
  {
    ShiftDown(ips, pos, cnt - 1);
    ips[cnt - 1] := ZERO_IPV6;
  }

  datatype LbPort = LbPort(port: uint16, protocol: uint8)

  datatype Answer = Ok | AlreadyExists | BackIpAdd | NotFound

  /** A port pair counts when it stands before the first unused entry of the list. */
  ghost predicate Serves(ports: seq<LbPort>, port: uint16, proto: uint8) {
    exists k :: 0 <= k < |ports| && ports[k] == LbPort(port, proto) && forall a :: 0 <= a <= k ==> ports[a].port != 0
  }

  /** Behind the backends there are zeros only. */
  ghost predicate Padded(ips: seq<Ipv6>, cnt: nat) { forall k :: cnt <= k < |ips| ==> ips[k] == ZERO_IPV6 }

  lemma PaddedMore(was: seq<Ipv6>, now: seq<Ipv6>, cnt: nat)
    requires |was| == |now| && cnt < |now| && Padded(was, cnt + 1) && now[cnt] == ZERO_IPV6
    requires forall k :: cnt < k < |now| ==> now[k] == was[k]
    ensures Padded(now, cnt)
  {
  }

  class LbValue {
    const hashes: Hashes
    const ports: seq<LbPort>
    const backEndIps: array<Ipv6>
    const maglevHash: array<int>
    var backEndCnt: nat

    ghost predicate Valid()
      reads this, backEndIps, maglevHash
    {
      && backEndIps.Length == MAX_BACKENDS && maglevHash.Length == SIZE
      && backEndCnt <= MAX_BACKENDS
      && Ascending(Backends())
      && ZERO_IPV6 !in Backends()
      && Padded(backEndIps[..], backEndCnt)
      && (backEndCnt > 0 ==> maglevHash[..] == Built(hashes, Backends()))
    }

    ghost function Backends(): seq<Ipv6>
      reads this, backEndIps
      requires backEndCnt <= backEndIps.Length
    {
      backEndIps[..backEndCnt]
    }

    ghost function Members(): set<Ipv6>
      reads this, backEndIps
      requires backEndCnt <= backEndIps.Length
    {
      Elems(Backends())
    }

    constructor (hashes: Hashes, ports: seq<LbPort>)
      ensures Valid() && Members() == {} && fresh(backEndIps) && fresh(maglevHash)
      ensures this.hashes == hashes && this.ports == ports
    {
      this.hashes := hashes;
      this.ports := ports;
      backEndIps := new Ipv6[MAX_BACKENDS](_ => ZERO_IPV6);
      maglevHash := new int[SIZE];
      backEndCnt := 0;
    }

    method RecomputeTable()
      requires backEndIps.Length == MAX_BACKENDS && maglevHash.Length == SIZE
      requires 0 < backEndCnt <= MAX_BACKENDS
      modifies maglevHash
      ensures maglevHash[..] == Built(hashes, Backends())
    {
      var permutation := Permutation(hashes, backEndIps[..backEndCnt]);
      Populate(maglevHash, permutation, hashes, Backends());
    }

    /** dp_lb_is_back_ip_inserted: it looks at the padding too, so the zero address counts as
        inserted for as long as there is any. */
    method IsBackIpInserted(ip: Ipv6) returns (r: bool)
      requires Valid()
      ensures r == (ip in Members() || (ip == ZERO_IPV6 && backEndCnt < MAX_BACKENDS))
    {
      var found := Find(backEndIps, MAX_BACKENDS, ip);
      r := found < MAX_BACKENDS;
      assert backEndCnt < MAX_BACKENDS && ip == ZERO_IPV6 ==> backEndIps[backEndCnt] == ip;
      assert found < backEndCnt ==> backEndIps[found] == Backends()[found];
    }

    /** The second half of dp_add_maglev_backend: insert, count and recompute. */
    method Grow(pos: nat, ip: Ipv6)
      requires backEndIps.Length == MAX_BACKENDS && maglevHash.Length == SIZE
      requires pos <= backEndCnt < MAX_BACKENDS && Padded(backEndIps[..], backEndCnt)
      modifies this, backEndIps, maglevHash
      ensures backEndCnt == old(backEndCnt) + 1 && Backends() == Inserted(old(Backends()), pos, ip)
      ensures Padded(backEndIps[..], backEndCnt)
      ensures maglevHash[..] == Built(hashes, Backends())
    {
      InsertAt(backEndIps, backEndCnt, pos, ip);
      backEndCnt := backEndCnt + 1;
      RecomputeTable();
    }

    /** The second half of dp_delete_maglev_backend; an emptied load balancer keeps its table. */
    method Shrink(pos: nat)
      requires backEndIps.Length == MAX_BACKENDS && maglevHash.Length == SIZE
      requires pos < backEndCnt <= MAX_BACKENDS && Padded(backEndIps[..], backEndCnt)
      modifies this, backEndIps, maglevHash
      ensures backEndCnt == old(backEndCnt) - 1 && Backends() == Removed(old(Backends()), pos)
      ensures Padded(backEndIps[..], backEndCnt)
      ensures backEndCnt > 0 ==> maglevHash[..] == Built(hashes, Backends())
      ensures backEndCnt == 0 ==> maglevHash[..] == old(maglevHash[..])
    {
      ghost var was := backEndIps[..];
      RemoveAt(backEndIps, backEndCnt, pos);
      backEndCnt := backEndCnt - 1;
      PaddedMore(was, backEndIps[..], backEndCnt);
      if backEndCnt > 0 {
        RecomputeTable();
      }
    }

    /** dp_add_maglev_backend */
    method AddMaglevBackend(ip: Ipv6) returns (ok: bool)
      requires Valid() && ip !in Members() && (backEndCnt < MAX_BACKENDS ==> ip != ZERO_IPV6)
      modifies this, backEndIps, maglevHash
      ensures Valid() && ok == (old(backEndCnt) < MAX_BACKENDS)
      ensures Members() == if ok then old(Members()) + {ip} else old(Members())
      ensures !ok ==> Unchanged()
    {
      if backEndCnt >= MAX_BACKENDS {
        return false;
      }
      var pos := InsertPosition(backEndIps, backEndCnt, ip);
      InsertedKeepsOrder(Backends(), pos, ip);
      Grow(pos, ip);
      assert ZERO_IPV6 !in Members();
      ok := true;
    }

    twostate predicate Unchanged()
      reads this, backEndIps, maglevHash
    {
      && backEndCnt == old(backEndCnt)
      && backEndIps[..] == old(backEndIps[..])
      && maglevHash[..] == old(maglevHash[..])
    }

    /** dp_add_lb_back_ip on a load balancer that was found. */
    method AddBackIp(ip: Ipv6) returns (answer: Answer)
      requires Valid()
      modifies this, backEndIps, maglevHash
      ensures Valid()
      ensures answer == if ip in old(Members()) || (ip == ZERO_IPV6 && old(backEndCnt) < MAX_BACKENDS)
              then AlreadyExists
                        else if old(backEndCnt) == MAX_BACKENDS then BackIpAdd
                        else Ok
      ensures Members() == if answer == Ok then old(Members()) + {ip} else old(Members())
      ensures answer != Ok ==> Unchanged()
    {
      var inserted := IsBackIpInserted(ip);
      if inserted {
        return AlreadyExists;
      }
      var ok := AddMaglevBackend(ip);
      answer := if ok then Ok else BackIpAdd;
    }

    /** dp_delete_maglev_backend, which is all dp_del_lb_back_ip does once it has the entry. */
    method DeleteBackIp(ip: Ipv6) returns (answer: Answer)
      requires Valid()
      modifies this, backEndIps, maglevHash
      ensures Valid()
      ensures answer == if ip in old(Members()) then Ok else NotFound
      ensures Members() == old(Members()) - {ip}
      ensures answer != Ok ==> Unchanged()
    {
      var found := Find(backEndIps, backEndCnt, ip);
      if found >= backEndCnt {
        NotAmong(Backends(), ip);
        return NotFound;
      }
      assert Backends()[found] == ip && ip in Backends();
      DeleteAt(found);
      answer := Ok;
    }

    method DeleteAt(pos: nat)
      requires Valid() && pos < backEndCnt
      modifies this, backEndIps, maglevHash
      ensures Valid() && Members() == old(Members()) - {old(backEndIps[pos])}
    {
      ghost var rest := Removed(Backends(), pos);
      RemovedBackends(Backends(), pos);
      Shrink(pos);
      assert Backends() == rest;
      assert Ascending(Backends()) && ZERO_IPV6 !in Backends();
    }

    /** dp_lb_port_match */
    method PortMatch(port: uint16, proto: uint8) returns (r: bool)
      ensures r == Serves(ports, port, proto)
    {
      var k := 0;
      while k < |ports| && ports[k].port != 0
        invariant k <= |ports|
        invariant forall a :: 0 <= a < k ==> ports[a].port != 0 && ports[a] != LbPort(port, proto)
      {
        if ports[k] == LbPort(port, proto) {
          return true;
        }
        k := k + 1;
      }
      r := false;
    }

    /** dp_lb_get_backend_ip: every flow hash selects a live backend. */
    method GetBackendIp(port: uint16, proto: uint8, flowHash: uint32) returns (r: Option<Ipv6>)
      requires Valid()
      ensures r.Some? <==> Members() != {} && Serves(ports, port, proto)
      ensures r.Some? ==> r.value in Members()
                          && r.value == Backends()[Selected(flowHash)]
    {
      if backEndCnt == 0 {
        return None;
      }
      assert backEndIps[0] == Backends()[0] && Backends()[0] in Members();
      var served := PortMatch(port, proto);
      if !served {
        return None;
      }
      BuiltIsFair(hashes, Backends());
      var pos := maglevHash[flowHash % SIZE];
      assert maglevHash[flowHash % SIZE] == maglevHash[..][flowHash % SIZE];
      r := Some(backEndIps[pos]);
      assert backEndIps[pos] == Backends()[pos];
    }

    ghost function Selected(flowHash: uint32): (i: nat)
      reads this, backEndIps, maglevHash
      requires Valid() && backEndCnt > 0
      ensures i < |Backends()|
    {
      BuiltIsFair(hashes, Backends());
      Built(hashes, Backends())[flowHash % SIZE]
    }
  }

  // ---------- the choice of a backend ----------

  /** The hashes below SIZE with which flows go to backend i. */
  ghost function HashesFor(lb: LbValue, i: nat): set<nat>
    reads lb, lb.backEndIps, lb.maglevHash
    requires lb.Valid() && lb.backEndCnt > 0
  {
    set x: nat | x < SIZE && lb.Selected(x) == i
  }

  lemma SelectedSlot(lb: LbValue, i: nat, x: nat)
    requires lb.Valid() && lb.backEndCnt > 0 && x < SIZE
    ensures lb.Selected(x) == i <==> x in SlotsOf(Built(lb.hashes, lb.Backends()), i)
  {
    hide Built;
  }

  lemma HashesAreSlots(lb: LbValue, i: nat)
    requires lb.Valid() && lb.backEndCnt > 0
    ensures HashesFor(lb, i) == SlotsOf(Built(lb.hashes, lb.Backends()), i)
  {
    hide Built;
    forall x: nat | x < SIZE ensures x in HashesFor(lb, i) <==> x in SlotsOf(Built(lb.hashes, lb.Backends()), i) {
      SelectedSlot(lb, i, x);
    }
  }

  lemma SameChoice(lb: LbValue, flowHash: uint32)
    requires lb.Valid() && lb.backEndCnt > 0
    ensures lb.Selected(flowHash) == lb.Selected(flowHash % SIZE)
  {
    hide Built;
  }

  /** Flows are shared out evenly: of every SIZE consecutive hashes each backend gets as many as any
      other, give or take one, and hashes that far apart get the same backend. */
  lemma FlowsSharedEvenly(lb: LbValue, i: nat, flowHash: uint32)
    requires lb.Valid() && lb.backEndCnt > 0 && i < |lb.Backends()|
    ensures var n := |lb.Backends()|; |HashesFor(lb, i)| == SIZE / n + if i < SIZE % n then 1 else 0
    ensures lb.Selected(flowHash) == lb.Selected(flowHash % SIZE)
  {
    hide Built;
    HashesAreSlots(lb, i);
    BuiltIsFair(lb.hashes, lb.Backends());
    SameChoice(lb, flowHash);
  }

  // ---------- histories ----------

  datatype Change = Add(ip: Ipv6) | Delete(ip: Ipv6)

  /** What one request does to the set of backends. */
  ghost function Changed(s: set<Ipv6>, change: Change): set<Ipv6> {
    match change
    case Add(ip) => if ip == ZERO_IPV6 || |s| == MAX_BACKENDS then s else s + {ip}
    case Delete(ip) => s - {ip}
  }

  /** The set of backends a history of requests leaves, read without any array. */
  ghost function Surviving(history: seq<Change>): (s: set<Ipv6>) {
    if history == [] then {} else Changed(Surviving(history[..|history| - 1]), history[|history| - 1])
  }

  lemma {:induction false} AscendingCardinality(ips: seq<Ipv6>)
    requires Ascending(ips)
    ensures |Elems(ips)| == |ips|
  {
    if ips == [] {
      assert Elems(ips) == {};
    } else {
      TailElems(ips);
      AscendingCardinality(ips[1..]);
      assert ips[0] in Elems(ips);
    }
  }

  method Apply(lb: LbValue, change: Change)
    requires lb.Valid()
    modifies lb, lb.backEndIps, lb.maglevHash
    ensures lb.Valid() && lb.Members() == Changed(old(lb.Members()), change)
  {
    AscendingCardinality(lb.Backends());
    match change {
      case Add(ip) => var _ := lb.AddBackIp(ip);
      case Delete(ip) => var _ := lb.DeleteBackIp(ip);
    }
  }

  /** Any history of requests, run on a new load balancer. */
  method Replay(lb: LbValue, history: seq<Change>)
    requires lb.Valid() && lb.Members() == {}
    modifies lb, lb.backEndIps, lb.maglevHash
    ensures lb.Valid() && lb.Members() == Surviving(history)
  {
    for n := 0 to |history|
      invariant lb.Valid() && lb.Members() == Surviving(history[..n])
    {
      assert history[..n + 1][..n] == history[..n];
      Apply(lb, history[n]);
    }
    assert history[..|history|] == history;
  }

  /** The backend array and, unless it is empty, the whole lookup table depend on the set of
      backends alone, not on the requests that produced it. */
  lemma HistoryIndependent(a: LbValue, b: LbValue)
    requires a.Valid() && b.Valid() && a.hashes == b.hashes && a.Members() == b.Members()
    ensures a.Backends() == b.Backends() && a.backEndIps[..] == b.backEndIps[..]
    ensures a.Members() != {} ==> a.maglevHash[..] == b.maglevHash[..]
  {
    AscendingIsUnique(a.Backends(), b.Backends());
    assert |a.Backends()| == |b.Backends()|;
    assert forall k :: 0 <= k < a.backEndCnt ==>
        a.backEndIps[k] == a.Backends()[k] == b.Backends()[k] == b.backEndIps[k];
    if a.Members() != {} {
      assert a.Backends() != [];
    }
  }
}
