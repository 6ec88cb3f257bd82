/** The two crypto nodes. A burst is submitted as a whole, completes in any order or not at all,
    and every packet is dropped unless its own operation has cleared its flag. */
module IpsecBurst {
  import opened Words
  import opened Dispatch

  /** What a burst meets, packet by packet and operation by operation.
      pool: the operations the bulk allocation yields, or nothing;
      accept: an association was found, and on the way in it is for the endpoint's VNI;
      frames: librte_ipsec could prepare an operation for the packet;
      restores: on the way in, the decrypted packet is a tunnel packet;
      completed: the operations the device gives back, in its order;
      sound: the operations that succeeded and whose packets could be finalised. */
  datatype Burst = Burst(
    pool: Option<seq<nat>>, accept: seq<bool>, frames: seq<bool>, restores: seq<bool>, completed: seq<nat>,
    sound: set<nat>)
  {
    ghost predicate Sized(n: nat) {
      && |accept| == |frames| == |restores| == n
      && (pool.Some? ==> |pool.value| == n && forall i, j :: 0 <= i < j < n ==> pool.value[i] != pool.value[j])
    }

    predicate Submits(i: nat)
      requires i < |accept| == |frames|
    {
      accept[i] && frames[i]
    }

    /** How many of the first i packets have been given an operation. */
    ghost function Rank(i: nat): (r: nat)
      requires i <= |accept| == |frames|
      ensures r <= i
    {
      if i == 0 then 0 else Rank(i - 1) + if Submits(i - 1) then 1 else 0
    }

    ghost function OpOf(i: nat): nat
      requires pool.Some? && i < |accept| == |frames| <= |pool.value|
    {
      pool.value[Rank(i)]
    }

    /** The device returns operations of this burst only, and no more than it was given. */
    ghost predicate OwnCompletions()
      requires |accept| == |frames|
    {
      pool.Some? && |pool.value| == |accept| ==>
        |completed| <= Rank(|accept|) && forall o :: o in completed ==> o in pool.value[..Rank(|accept|)]
    }

    /** A packet goes forward exactly if everything went well for it. */
    ghost predicate Passes(i: nat)
      requires Sized(|accept|) && i < |accept|
    {
      pool.Some? && Submits(i) && OpOf(i) in completed && OpOf(i) in sound && restores[i]
    }
  }

  /** The completed operations of one association; after processing those that are fine come
      first. */
  datatype Group = Group(ops: seq<nat>, ok: nat)

  /** The grouping loses and invents nothing, and processing sorts by outcome. */
  ghost predicate Regrouped(groups: seq<Group>, completed: seq<nat>, sound: set<nat>) {
    && (forall g :: g in groups ==> SplitAtOk(g, completed, sound))
    && (forall o :: o in completed ==> exists g :: g in groups && o in g.ops)
  }

  ghost predicate SplitAtOk(g: Group, completed: seq<nat>, sound: set<nat>) {
    && g.ok <= |g.ops|
    && forall j :: 0 <= j < |g.ops| ==> g.ops[j] in completed && (j < g.ok <==> g.ops[j] in sound)
  }

  ghost function OkOps(groups: seq<Group>): set<nat> {
    if groups == [] then {} else OkOps(groups[..|groups| - 1]) + OkIn(groups[|groups| - 1])
  }

  ghost function OkIn(g: Group): set<nat> { set j | 0 <= j < g.ok && j < |g.ops| :: g.ops[j] }

  lemma OkInStep(ops: seq<nat>, j: nat)
    requires j < |ops|
    ensures OkIn(Group(ops, j + 1)) == OkIn(Group(ops, j)) + {ops[j]}
  {
    assert ops[j] in OkIn(Group(ops, j + 1));
  }

  lemma {:induction false} OkOpsIff(groups: seq<Group>, o: nat)
    ensures o in OkOps(groups) <==> exists g :: g in groups && o in OkIn(g)
  {
    if groups != [] {
      var n := |groups| - 1;
      OkOpsIff(groups[..n], o);
      assert groups == groups[..n] + [groups[n]];
    }
  }

  /** Whatever the grouping, the operations it marks as fine are the completed ones that are. */
  lemma GroupsAgree(groups: seq<Group>, completed: seq<nat>, sound: set<nat>, o: nat)
    requires Regrouped(groups, completed, sound)
    ensures o in OkOps(groups) <==> o in completed && o in sound
  {
    OkOpsIff(groups, o);
    if o in OkOps(groups) {
      var g :| g in groups && o in OkIn(g);
      assert SplitAtOk(g, completed, sound);
    }
    if o in completed && o in sound {
      var g :| g in groups && o in g.ops;
      assert SplitAtOk(g, completed, sound);
      var j :| 0 <= j < |g.ops| && g.ops[j] == o;
      assert o in OkIn(g);
    }
  }

  // ---------- operations and their packets ----------

  lemma {:induction false} RankGrows(b: Burst, i: nat, j: nat)
    requires i < j <= |b.accept| == |b.frames| && b.Submits(i)
    ensures b.Rank(i) < b.Rank(j)
  {
    if j > i + 1 { RankGrows(b, i, j - 1); }
  }

  /** No two packets of a burst share an operation. */
  lemma OpsDiffer(b: Burst, i: nat, j: nat)
    requires b.Sized(|b.accept|) && b.pool.Some? && i < |b.accept| && j < |b.accept| && i != j && b.Submits(i)
             && b.Submits(j)
    ensures b.OpOf(i) != b.OpOf(j)
  {
    if i < j { RankGrows(b, i, j); } else { RankGrows(b, j, i); }
  }

  /** bound says which packet each of the first operations was prepared for. */
  ghost predicate Bound(b: Burst, bound: map<nat, nat>, n: nat)
    requires b.Sized(|b.accept|) && b.pool.Some? && n <= |b.accept|
  {
    && (forall o :: o in bound <==> o in b.pool.value[..b.Rank(n)])
    && (forall o :: o in bound ==> bound[o] < n && b.Submits(bound[o]) && b.OpOf(bound[o]) == o)
  }

  lemma BindOne(b: Burst, bound: map<nat, nat>, n: nat)
    requires b.Sized(|b.accept|) && b.pool.Some? && n < |b.accept| && Bound(b, bound, n)
    ensures Bound(b, if b.Submits(n) then bound[b.OpOf(n) := n] else bound, n + 1)
  {
    var r := b.Rank(n);
    if b.Submits(n) {
      assert b.pool.value[..r + 1] == b.pool.value[..r] + [b.OpOf(n)];
    }
  }

  lemma BoundToOwn(b: Burst, bound: map<nat, nat>, o: nat, i: nat)
    requires b.Sized(|b.accept|) && b.pool.Some? && Bound(b, bound, |b.accept|) && o in bound && i < |b.accept|
    ensures bound[o] == i <==> b.Submits(i) && o == b.OpOf(i)
  {
    if b.Submits(i) && o == b.OpOf(i) && bound[o] != i {
      OpsDiffer(b, i, bound[o]);
    }
  }

  // ---------- the node ----------

  /** The flags say: dropped unless its operation is among those found fine. */
  ghost predicate Flags(b: Burst, failed: seq<bool>, fine: set<nat>)
    requires b.Sized(|b.accept|) && b.pool.Some?
  {
    && |failed| == |b.accept|
    && forall i :: 0 <= i < |failed| ==> (!failed[i] <==> b.Submits(i) && b.OpOf(i) in fine && b.restores[i])
  }

  /** Prepares an operation per acceptable packet; one whose preparation fails leaves its operation
      to the next packet. */
  method Prepare(b: Burst, ops: array<nat>) returns (nbOps: nat, bound: map<nat, nat>)
    requires b.Sized(|b.accept|) && b.pool == Some(ops[..])
    ensures nbOps == b.Rank(|b.accept|) && Bound(b, bound, |b.accept|)
  {
    nbOps, bound := 0, map[];
    for i := 0 to ops.Length
      invariant nbOps == b.Rank(i) && Bound(b, bound, i)
    {
      BindOne(b, bound, i);
      if !b.accept[i] {
        continue;
      }
      if !b.frames[i] {
        continue;
      }
      bound := bound[ops[nbOps] := i];
      nbOps := nbOps + 1;
    }
  }

  method ClearGroup(b: Burst, g: Group, bound: map<nat, nat>, failed: array<bool>, ghost fine: set<nat>)
    requires b.Sized(|b.accept|) && b.pool.Some? && Bound(b, bound, |b.accept|) && g.ok <= |g.ops|
    requires forall j :: 0 <= j < |g.ops| ==> g.ops[j] in bound
    requires Flags(b, failed[..], fine)
    modifies failed
    ensures Flags(b, failed[..], fine + OkIn(g))
  {
    ghost var seen := {};
    var j := 0;
    while j < g.ok
      invariant j <= g.ok && seen == OkIn(Group(g.ops, j)) && Flags(b, failed[..], fine + seen)
    {
      var o := g.ops[j];
      var i := bound[o];
      assert Flags(b, failed[..], fine + seen);
      ghost var was := failed[..];
      if b.restores[i] {
        failed[i] := false;
      }
      ClearedOne(b, bound, was, failed[..], fine + seen, o);
      OkInStep(g.ops, j);
      seen := seen + {o};
      assert fine + seen == fine + (seen - {o}) + {o};
      j := j + 1;
    }
  }

  lemma ClearedOne(b: Burst, bound: map<nat, nat>, was: seq<bool>, now: seq<bool>, fine: set<nat>, o: nat)
    requires b.Sized(|b.accept|) && b.pool.Some? && Bound(b, bound, |b.accept|) && o in bound && Flags(b, was, fine)
    requires now == if b.restores[bound[o]] then was[bound[o] := false] else was
    ensures Flags(b, now, fine + {o})
  {
    forall i | 0 <= i < |now| ensures !now[i] <==> b.Submits(i) && b.OpOf(i) in fine + {o} && b.restores[i] {
      BoundToOwn(b, bound, o, i);
    }
  }

  /** The node's work on the flags. However the operations complete, fail and are grouped, and
      whatever the flags were before, a flag is clear at the end exactly if the packet passes.
      freed counts how often each operation is given back. */
  method Process(b: Burst, groups: seq<Group>, failed: array<bool>) returns (freed: multiset<nat>)
    requires b.Sized(failed.Length) && b.OwnCompletions()
    requires Regrouped(groups, b.completed, b.sound)
    modifies failed
    ensures forall i :: 0 <= i < failed.Length ==> (!failed[i] <==> b.Passes(i))
    ensures freed == if b.pool.Some? then multiset(b.pool.value) else multiset{}
  {
    freed := multiset{};
    for i := 0 to failed.Length
      invariant forall k :: 0 <= k < i ==> failed[k]
    {
      failed[i] := true;
    }
    if b.pool.None? {
      return;
    }
    var ops := new nat[failed.Length](k requires 0 <= k < failed.Length => b.pool.value[k]);
    assert ops[..] == b.pool.value;
    var nbOps, bound := Prepare(b, ops);
    if nbOps > 0 {
      // the device writes what it completes over its own copy
      var done := new nat[nbOps](k requires 0 <= k < nbOps reads ops => ops[k]);
      var _ := ProcessBurst(done, b.completed);
      ClearGroups(b, groups, bound, failed);
    } else {
      NothingSubmitted(b, groups, failed[..]);
    }
    forall i | 0 <= i < failed.Length ensures !failed[i] <==> b.Passes(i) {
      assert Flags(b, failed[..], OkOps(groups));
      assert failed[..][i] == failed[i];
      GroupsAgree(groups, b.completed, b.sound, b.OpOf(i));
    }
    for i := 0 to ops.Length
      invariant freed == multiset(ops[..i])
    {
      assert ops[..i + 1] == ops[..i] + [ops[i]];
      freed := freed + multiset{ops[i]};
    }
    assert ops[..ops.Length] == ops[..];
  }

  /** dp_ipsec_process_burst: what completes is written back in completion order. */
  method ProcessBurst(done: array<nat>, completed: seq<nat>) returns (nbDone: nat)
    requires |completed| <= done.Length
    modifies done
    ensures nbDone == |completed| && done[..nbDone] == completed && done[nbDone..] == old(done[nbDone..])
  {
    nbDone := 0;
    while nbDone < |completed|
      invariant nbDone <= |completed| && done[..nbDone] == completed[..nbDone]
      invariant forall k :: nbDone <= k < done.Length ==> done[k] == old(done[k])
    {
      done[nbDone] := completed[nbDone];
      nbDone := nbDone + 1;
    }
  }

  lemma NothingSubmitted(b: Burst, groups: seq<Group>, failed: seq<bool>)
    requires b.Sized(|failed|) && b.pool.Some? && b.OwnCompletions() && b.Rank(|b.accept|) == 0
    requires Regrouped(groups, b.completed, b.sound) && forall i :: 0 <= i < |failed| ==> failed[i]
    ensures Flags(b, failed, OkOps(groups))
  {
    forall i | 0 <= i < |failed| ensures b.OpOf(i) !in OkOps(groups) {
      GroupsAgree(groups, b.completed, b.sound, b.OpOf(i));
    }
  }

  method ClearGroups(b: Burst, groups: seq<Group>, bound: map<nat, nat>, failed: array<bool>)
    requires b.Sized(failed.Length) && b.pool.Some? && b.OwnCompletions() && Bound(b, bound, |b.accept|)
    requires Regrouped(groups, b.completed, b.sound)
    requires forall i :: 0 <= i < failed.Length ==> failed[i]
    modifies failed
    ensures Flags(b, failed[..], OkOps(groups))
  {
    for k := 0 to |groups|
      invariant Flags(b, failed[..], OkOps(groups[..k]))
    {
      assert SplitAtOk(groups[k], b.completed, b.sound);
      ClearGroup(b, groups[k], bound, failed, OkOps(groups[..k]));
      assert groups[..k + 1][..k] == groups[..k];
    }
    assert groups[..|groups|] == groups;
  }

  /** The whole node: the burst is worked on and each packet goes to drop or forward, in order,
      none twice and none lost. */
  method Node<Pkt(0)>(b: Burst, groups: seq<Group>, objs: seq<Pkt>, stale: seq<bool>, forward: seq<nat>, drop: nat,
                  pending: Pending<Pkt>)
    returns (r: Pending<Pkt>, freed: multiset<nat>, ghost next: seq<nat>)
    requires b.Sized(|objs|) && b.OwnCompletions() && Regrouped(groups, b.completed, b.sound)
    requires |stale| == |forward| == |objs| && ValidEdges(forward, |pending|) && drop < |pending|
    ensures |next| == |objs| && forall i :: 0 <= i < |objs| ==> next[i] == if b.Passes(i) then forward[i] else drop
    ensures ValidEdges(next, |pending|) && r == Plain(pending, objs, next)
    ensures freed == if b.pool.Some? then multiset(b.pool.value) else multiset{}
  {
    var failed := new bool[|objs|](k requires 0 <= k < |objs| => stale[k]);
    freed := Process(b, groups, failed);
    var edges: seq<nat> := [];
    for i := 0 to |objs|
      invariant |edges| == i && forall k :: 0 <= k < i ==> edges[k] == if b.Passes(k) then forward[k] else drop
    {
      edges := edges + [if failed[i] then drop else forward[i]];
    }
    next := edges;
    r := ForEach(pending, objs, edges, -1);
  }
}
