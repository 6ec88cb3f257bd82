/** Handing a burst of packets to the next graph nodes. The fast path guesses one edge and moves
    whole runs of packets; it must deliver exactly what enqueueing one packet at a time does. */
module Dispatch {

  /** The pending streams of a node's successors, by edge. */
  type Pending<Pkt> = seq<seq<Pkt>>

  function Push<Pkt>(s: Pending<Pkt>, e: nat, pkts: seq<Pkt>): (r: Pending<Pkt>)
    requires e < |s|
  {
    s[e := s[e] + pkts]
  }

  ghost predicate ValidEdges(next: seq<nat>, edges: nat) {
    forall k :: 0 <= k < |next| ==> next[k] < edges
  }

  /** Enqueueing one packet at a time. */
  ghost function Plain<Pkt>(s: Pending<Pkt>, objs: seq<Pkt>, next: seq<nat>): (r: Pending<Pkt>)
    requires |objs| == |next| && ValidEdges(next, |s|)
    ensures |r| == |s|
  {
    if objs == [] then s else
    Push(Plain(s, objs[..|objs| - 1], next[..|objs| - 1]), next[|objs| - 1], [objs[|objs| - 1]])
  }

  /** The same, leaving out what goes to one edge ... */
  ghost function Except<Pkt>(s: Pending<Pkt>, objs: seq<Pkt>, next: seq<nat>, spec: nat): (r: Pending<Pkt>)
    requires |objs| == |next| && ValidEdges(next, |s|)
    ensures |r| == |s|
  {
    if objs == [] then s
    else if next[|objs| - 1] == spec then Except(s, objs[..|objs| - 1], next[..|objs| - 1], spec)
    else Push(Except(s, objs[..|objs| - 1], next[..|objs| - 1], spec), next[|objs| - 1], [objs[|objs| - 1]])
  }

  /** ... and what that edge is owed, in arrival order. */
  ghost function Owed<Pkt>(objs: seq<Pkt>, next: seq<nat>, e: nat): seq<Pkt>
    requires |objs| == |next|
  {
    if objs == [] then []
    else if next[|objs| - 1] == e then Owed(objs[..|objs| - 1], next[..|objs| - 1], e) + [objs[|objs| - 1]]
    else Owed(objs[..|objs| - 1], next[..|objs| - 1], e)
  }

  /** Every stream grows by exactly the packets owed to it, in order. */
  lemma {:induction false} PlainDeliversOwed<Pkt>(s: Pending<Pkt>, objs: seq<Pkt>, next: seq<nat>, e: nat)
    requires |objs| == |next| && ValidEdges(next, |s|) && e < |s|
    ensures Plain(s, objs, next)[e] == s[e] + Owed(objs, next, e)
  {
    if objs != [] {
      PlainDeliversOwed(s, objs[..|objs| - 1], next[..|objs| - 1], e);
    }
  }

  /** Delivering the guessed edge's share at the end makes up for leaving it out. */
  lemma {:induction false} Rejoin<Pkt>(s: Pending<Pkt>, objs: seq<Pkt>, next: seq<nat>, spec: nat)
    requires |objs| == |next| && ValidEdges(next, |s|) && spec < |s|
    ensures Push(Except(s, objs, next, spec), spec, Owed(objs, next, spec)) == Plain(s, objs, next)
  {
    if objs == [] {
      assert s[spec] + [] == s[spec];
    } else {
      var init, nx, x, e := objs[..|objs| - 1], next[..|objs| - 1], objs[|objs| - 1], next[|objs| - 1];
      Rejoin(s, init, nx, spec);
      var rest, share := Except(s, init, nx, spec), Owed(init, nx, spec);
      if e == spec {
        assert rest[spec] + (share + [x]) == (rest[spec] + share) + [x];
      } else {
        assert Push(Push(rest, e, [x]), spec, share) == Push(Push(rest, spec, share), e, [x]);
      }
    }
  }

  /** A run of packets that all go to one edge is owed to it as a whole. */
  lemma {:induction false} OwedRun<Pkt>(objs: seq<Pkt>, next: seq<nat>, lo: nat, hi: nat, e: nat)
    requires |objs| == |next| && lo <= hi <= |objs|
    requires forall k :: lo <= k < hi ==> next[k] == e
    ensures Owed(objs[..hi], next[..hi], e) == Owed(objs[..lo], next[..lo], e) + objs[lo..hi]
    decreases hi
  {
    if lo < hi {
      OwedRun(objs, next, lo, hi - 1, e);
      assert objs[..hi][..hi - 1] == objs[..hi - 1] && next[..hi][..hi - 1] == next[..hi - 1];
      assert objs[lo..hi] == objs[lo..hi - 1] + [objs[hi - 1]];
    }
  }

  /** rte_memcpy of n entries. */
  method Copy<Pkt>(to: array<Pkt>, at: nat, from: seq<Pkt>, start: nat, n: nat)
    requires at + n <= to.Length && start + n <= |from|
    modifies to
    ensures to[..at + n] == old(to[..at]) + from[start..start + n]
  {
    for i := 0 to n
      invariant to[..at + i] == old(to[..at]) + from[start..start + i]
    {
      to[at + i] := from[start + i];
    }
  }

  /** The plain loop: rte_node_enqueue_x1 for every packet. */
  method OneByOne<Pkt>(s: Pending<Pkt>, objs: seq<Pkt>, next: seq<nat>) returns (r: Pending<Pkt>)
    requires |objs| == |next| && ValidEdges(next, |s|)
    ensures r == Plain(s, objs, next)
  {
    r := s;
    for i := 0 to |objs|
      invariant r == Plain(s, objs[..i], next[..i])
    {
      assert objs[..i + 1][..i] == objs[..i] && next[..i + 1][..i] == next[..i];
      r := Push(r, next[i], [objs[i]]);
    }
    assert objs[..|objs|] == objs && next[..|objs|] == next;
  }

  /** The loop with a speculated edge. Packets that follow the guess stay where they are and are
      only counted; a miss copies the run counted so far into the reserved stream space. At the
      end the whole stream moves if nothing missed, otherwise the reserved space is put. */
  method Speculative<Pkt(0)>(s: Pending<Pkt>, objs: seq<Pkt>, next: seq<nat>, spec: nat) returns (r: Pending<Pkt>)
    requires |objs| == |next| && ValidEdges(next, |s|) && spec < |s|
    ensures r == Plain(s, objs, next)
  {
    r := s;
    var toNext := new Pkt[|objs|];
    var from, held, lastSpec := 0, 0, 0;
    for i := 0 to |objs|
      invariant from + lastSpec == i && held <= from
      invariant forall k :: from <= k < i ==> next[k] == spec
      invariant toNext[..held] == Owed(objs[..from], next[..from], spec)
      invariant r == Except(s, objs[..i], next[..i], spec)
    {
      assert objs[..i + 1][..i] == objs[..i] && next[..i + 1][..i] == next[..i];
      if next[i] != spec {
        OwedRun(objs, next, from, i, spec);
        Copy(toNext, held, objs, from, lastSpec);
        from, held, lastSpec := from + lastSpec, held + lastSpec, 0;
        r := Push(r, next[i], [objs[from]]);
        from := from + 1;
      } else {
        lastSpec := lastSpec + 1;
      }
    }
    assert objs[..|objs|] == objs && next[..|objs|] == next;
    OwedRun(objs, next, from, |objs|, spec);
    Rejoin(s, objs, next, spec);
    if lastSpec == |objs| {
      assert from == 0 && objs[from..|objs|] == objs;
      assert Owed(objs, next, spec) == objs;
      r := Push(r, spec, objs);
    } else {
      Copy(toNext, held, objs, from, lastSpec);
      held := held + lastSpec;
      assert toNext[..held] == Owed(objs, next, spec);
      r := Push(r, spec, toNext[..held]);
    }
  }

  /** dp_foreach_graph_packet: whichever path runs, the streams end up the same. */
  method ForEach<Pkt(0)>(s: Pending<Pkt>, objs: seq<Pkt>, next: seq<nat>, speculated: int) returns (r: Pending<Pkt>)
    requires |objs| == |next| && ValidEdges(next, |s|) && speculated < |s|
    ensures r == Plain(s, objs, next)
  {
    if speculated >= 0 {
      r := Speculative(s, objs, next, speculated);
    } else {
      r := OneByOne(s, objs, next);
    }
  }
}
