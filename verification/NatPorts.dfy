/** The search for a NAT port that is still unused towards one destination. */
module NatPorts {
  import opened Words
  import opened FlowKeys
  import opened Remainders

  /** The width of a port range, in 16-bit arithmetic. */
  function Width(min: uint16, max: uint16): uint16 { Wrap16(max - min) }

  /** The ports from min up to but excluding max. */
  predicate InPorts(port: uint16, min: uint16, max: uint16) { Wrap16(port - min) < Width(min, max) }

  lemma InPortsIsInterval(port: uint16, min: uint16, max: uint16)
    ensures min <= max ==> (InPorts(port, min, max) <==> min <= port < max)
  {
  }

  /** A port and its distance from min determine each other. */
  lemma DistanceRoundTrip(min: uint16, off: uint16, port: uint16)
    ensures Wrap16(Wrap16(min + off) - min) == off
    ensures Wrap16(min + Wrap16(port - min)) == port
  {
  }

  /** How far into a range of r ports the p-th probe lands; the sum is a 32-bit one. */
  function Probe(hash: uint32, r: nat, p: nat): nat
    requires r > 0
  {
    Wrap32(hash + p) % r
  }

  function ProbedPort(hash: uint32, min: uint16, r: uint16, p: nat): (port: uint16)
    requires r > 0
    ensures Wrap16(port - min) == Probe(hash, r, p) < r
  {
    var off := Probe(hash, r, p);
    DistanceRoundTrip(min, off, 0);
    Wrap16(min + off)
  }

  /** When r probes reach all r ports: the sum stays within 32 bits, or its wrap-around happens
      to respect the range. */
  predicate Complete(hash: uint32, r: nat) {
    r > 0 ==> hash + r <= TWO32 || TWO32 % r == 0
  }

  ghost predicate Reaches(hash: uint32, r: nat, off: nat)
    requires r > 0
  {
    exists p: nat :: p < r && Probe(hash, r, p) == off
  }

  /** Dropping a multiple of the modulus does not change a remainder. */
  lemma DropMultiple(x: int, c: int, r: nat)
    requires r > 0 && c % r == 0
    ensures (x - c) % r == x % r
  {
    assert c == (c / r) * r;
    assert x - c == (x / r - c / r) * r + x % r;
    RemainderUnique(x - c, r, x / r - c / r, x % r);
  }

  /** How far beyond x the next number with remainder off is. */
  lemma DistanceTo(x: nat, r: nat, off: nat) returns (p: nat)
    requires off < r
    ensures p < r && (x + p) % r == off
  {
    var h := x % r;
    p := if off >= h then off - h else off - h + r;
    var q := if off >= h then x / r else x / r + 1;
    assert x + p == q * r + off;
    RemainderUnique(x + p, r, q, off);
  }

  lemma CompleteReaches(hash: uint32, r: nat, off: nat)
    requires off < r < TWO32 && Complete(hash, r)
    ensures Reaches(hash, r, off)
  {
    var p := DistanceTo(hash, r, off);
    if hash + p >= TWO32 {
      DropMultiple(hash + p, TWO32, r);
      WrapOnce(hash + p);
    }
    assert Probe(hash, r, p) == off;
  }

  /** An offset no probe reaches, once the sum wraps inside the range. */
  function Missed(hash: uint32, r: nat): int
    requires r > 0
  {
    var w, rest := TWO32 - hash, TWO32 % r;
    if rest >= w then r - 1 else r + rest - w - 1
  }

  lemma ProbeBeforeWrap(hash: uint32, r: nat, p: nat)
    requires 0 < r < TWO32 && p < r && hash + p < TWO32 < hash + r
    ensures var t, rest := TWO32 - hash - p, TWO32 % r;
            Probe(hash, r, p) == if t <= rest then rest - t else rest - t + r
  {
    var t, q, rest := TWO32 - hash - p, TWO32 / r, TWO32 % r;
    assert TWO32 == q * r + rest;
    if t <= rest {
      RemainderUnique(hash + p, r, q, rest - t);
    } else {
      assert hash + p == (q - 1) * r + (rest - t + r);
      RemainderUnique(hash + p, r, q - 1, rest - t + r);
    }
  }

  lemma ProbeAfterWrap(hash: uint32, r: nat, p: nat)
    requires 0 < r < TWO32 && p < r && TWO32 <= hash + p
    ensures Probe(hash, r, p) == hash + p - TWO32
  {
    WrapOnce(hash + p);
    RemainderUnique(hash + p - TWO32, r, 0, hash + p - TWO32);
  }

  lemma WrapOnce(x: int)
    requires TWO32 <= x < 2 * TWO32
    ensures Wrap32(x) == x - TWO32
  {
  }

  lemma MissedIsMissed(hash: uint32, r: nat, p: nat)
    requires 0 < r < TWO32 && p < r && !Complete(hash, r)
    ensures 0 <= Missed(hash, r) < r && Probe(hash, r, p) != Missed(hash, r)
  {
    var rest := TWO32 % r;
    assert 0 < rest < r;
    if hash + p < TWO32 {
      ProbeBeforeWrap(hash, r, p);
    } else {
      ProbeAfterWrap(hash, r, p);
    }
  }

  /** The search reaches every port of the range exactly in the cases named by Complete. */
  lemma SearchCoversIff(hash: uint32, r: nat)
    requires 0 < r < TWO32
    ensures Complete(hash, r) <==> forall off: nat :: off < r ==> Reaches(hash, r, off)
  {
    if Complete(hash, r) {
      forall off: nat | off < r ensures Reaches(hash, r, off) {
        CompleteReaches(hash, r, off);
      }
    } else {
      forall p: nat | p < r ensures 0 <= Missed(hash, r) < r && Probe(hash, r, p) != Missed(hash, r) {
        MissedIsMissed(hash, r, p);
      }
      MissedIsMissed(hash, r, 0);
      assert !Reaches(hash, r, Missed(hash, r));
    }
  }

  /** A complete search visits no port twice. */
  lemma NoPortTwice(hash: uint32, r: nat, p: nat, q: nat)
    requires 0 < r < TWO32 && p < q < r && Complete(hash, r)
    ensures Probe(hash, r, p) != Probe(hash, r, q)
  {
    ProbeMod(hash, r, p);
    ProbeMod(hash, r, q);
    NearbyRemaindersDiffer(hash + p, hash + q, r);
  }

  lemma NearbyRemaindersDiffer(x: int, y: int, r: nat)
    requires 0 < r && x < y < x + r
    ensures x % r != y % r
  {
    var a, b := x / r, y / r;
    assert x == a * r + x % r && y == b * r + y % r;
    ProductAtLeast(b, a + 1, r);
    ProductAtLeast(a, b, r);
  }

  lemma ProbeMod(hash: uint32, r: nat, p: nat)
    requires 0 < r < TWO32 && p < r && Complete(hash, r)
    ensures Probe(hash, r, p) == (hash + p) % r
  {
    if hash + p >= TWO32 {
      DropMultiple(hash + p, TWO32, r);
      WrapOnce(hash + p);
    }
  }

  /** dp_find_new_port over the set of wire keys in use. */
  function FindPort(used: set<OverloadKey>, ok: OverloadKey, min: uint16, max: uint16, hash: uint32,
                    p: nat): (r: Option<uint16>)
    requires p <= Width(min, max)
    ensures r.Some? ==> InPorts(r.value, min, max) && ok.(natPort := r.value) !in used
    decreases Width(min, max) - p
  {
    var width := Width(min, max);
    if p == width then None
    else if ok.(natPort := ProbedPort(hash, min, width, p)) !in used then Some(ProbedPort(hash, min, width, p))
    else FindPort(used, ok, min, max, hash, p + 1)
  }

  lemma {:induction false} FailedProbes(used: set<OverloadKey>, ok: OverloadKey, min: uint16, max: uint16, hash: uint32,
                                        p: nat, q: nat)
    requires p <= q < Width(min, max) && FindPort(used, ok, min, max, hash, p) == None
    ensures ok.(natPort := ProbedPort(hash, min, Width(min, max), q)) in used
    decreases Width(min, max) - p
  {
    if p < q {
      FailedProbes(used, ok, min, max, hash, p + 1, q);
    }
  }

  /** The search takes the first port of the probe sequence that is free for the destination. */
  lemma {:induction false} FoundFirst(used: set<OverloadKey>, ok: OverloadKey, min: uint16, max: uint16, hash: uint32,
                                      from: nat, p: nat)
    requires from <= p < Width(min, max) && ok.(natPort := ProbedPort(hash, min, Width(min, max), p)) !in used
    requires forall q: nat :: from <= q < p ==> ok.(natPort := ProbedPort(hash, min, Width(min, max), q)) in used
    ensures FindPort(used, ok, min, max, hash, from) == Some(ProbedPort(hash, min, Width(min, max), p))
    decreases p - from
  {
    if from < p {
      FoundFirst(used, ok, min, max, hash, from + 1, p);
    }
  }

  ghost predicate AllProbesTaken(used: set<OverloadKey>, ok: OverloadKey, min: uint16, max: uint16, hash: uint32) {
    forall p: nat :: p < Width(min, max) ==> ok.(natPort := ProbedPort(hash, min, Width(min, max), p)) in used
  }

  lemma {:induction false} TakenProbesFail(used: set<OverloadKey>, ok: OverloadKey, min: uint16, max: uint16,
                                           hash: uint32, p: nat)
    requires p <= Width(min, max) && AllProbesTaken(used, ok, min, max, hash)
    ensures FindPort(used, ok, min, max, hash, p) == None
    decreases Width(min, max) - p
  {
    if p < Width(min, max) {
      TakenProbesFail(used, ok, min, max, hash, p + 1);
    }
  }

  /** Any search fails exactly if every port it probes is taken for the destination. */
  lemma FailsIff(used: set<OverloadKey>, ok: OverloadKey, min: uint16, max: uint16, hash: uint32)
    ensures FindPort(used, ok, min, max, hash, 0) == None <==> AllProbesTaken(used, ok, min, max, hash)
  {
    if AllProbesTaken(used, ok, min, max, hash) {
      TakenProbesFail(used, ok, min, max, hash, 0);
    }
    if FindPort(used, ok, min, max, hash, 0) == None {
      forall q: nat | q < Width(min, max)
        ensures ok.(natPort := ProbedPort(hash, min, Width(min, max), q)) in used
      {
        FailedProbes(used, ok, min, max, hash, 0, q);
      }
    }
  }

  /** A complete search fails only when every port of the range is taken for the destination. */
  lemma SearchFailsIff(used: set<OverloadKey>, ok: OverloadKey, min: uint16, max: uint16, hash: uint32)
    requires Complete(hash, Width(min, max))
    ensures FindPort(used, ok, min, max, hash, 0) == None <==>
              forall port: uint16 :: InPorts(port, min, max) ==> ok.(natPort := port) in used
  {
    var width := Width(min, max);
    if FindPort(used, ok, min, max, hash, 0) == None {
      forall port: uint16 | InPorts(port, min, max) ensures ok.(natPort := port) in used {
        var off := Wrap16(port - min);
        CompleteReaches(hash, width, off);
        var q: nat :| q < width && Probe(hash, width, q) == off;
        FailedProbes(used, ok, min, max, hash, 0, q);
        DistanceRoundTrip(min, off, port);
      }
    }
  }

  lemma {:induction false} MissedEverywhere(used: set<OverloadKey>, ok: OverloadKey, min: uint16, max: uint16,
                                            hash: uint32, p: nat)
    requires p <= Width(min, max) && !Complete(hash, Width(min, max))
    requires forall port: uint16 :: InPorts(port, min, max) && Wrap16(port - min) != Missed(hash, Width(min, max)) ==>
               ok.(natPort := port) in used
    ensures FindPort(used, ok, min, max, hash, p) == None
    decreases Width(min, max) - p
  {
    if p < Width(min, max) {
      MissedIsMissed(hash, Width(min, max), p);
      MissedEverywhere(used, ok, min, max, hash, p + 1);
    }
  }

  /** The wire keys of all ports of the range but one. */
  ghost function AllBut(ok: OverloadKey, min: uint16, max: uint16, free: uint16): set<OverloadKey> {
    set port: int | 0 <= port < TWO16 && InPorts(port, min, max) && port != free :: ok.(natPort := port)
  }

  /** The port an incomplete search never looks at. */
  ghost function Overlooked(min: uint16, max: uint16, hash: uint32): uint16
    requires !Complete(hash, Width(min, max))
  {
    MissedIsMissed(hash, Width(min, max), 0);
    Wrap16(min + Missed(hash, Width(min, max)))
  }

  /** An incomplete search fails although a port of the range is free: with all others taken, it
      never looks at the one that is not. */
  lemma IncompleteSearchFails(ok: OverloadKey, min: uint16, max: uint16, hash: uint32)
    requires !Complete(hash, Width(min, max))
    ensures var free := Overlooked(min, max, hash);
            && InPorts(free, min, max) && ok.(natPort := free) !in AllBut(ok, min, max, free)
            && FindPort(AllBut(ok, min, max, free), ok, min, max, hash, 0) == None
  {
    var free, off := Overlooked(min, max, hash), Missed(hash, Width(min, max));
    MissedIsMissed(hash, Width(min, max), 0);
    DistanceRoundTrip(min, off, 0);
    forall port: uint16 | InPorts(port, min, max) && Wrap16(port - min) != off
      ensures ok.(natPort := port) in AllBut(ok, min, max, free)
    {
      DistanceRoundTrip(min, off, port);
    }
    MissedEverywhere(AllBut(ok, min, max, free), ok, min, max, hash, 0);
  }

  /** So a failure means that no port is left, whatever is in use, exactly for complete searches. */
  lemma FailureMeansFullIff(ok: OverloadKey, min: uint16, max: uint16, hash: uint32)
    ensures Complete(hash, Width(min, max)) <==>
              forall used :: FindPort(used, ok, min, max, hash, 0) == None ==>
                forall port: uint16 :: InPorts(port, min, max) ==> ok.(natPort := port) in used
  {
    if Complete(hash, Width(min, max)) {
      forall used | FindPort(used, ok, min, max, hash, 0) == None
        ensures forall port: uint16 :: InPorts(port, min, max) ==> ok.(natPort := port) in used
      {
        SearchFailsIff(used, ok, min, max, hash);
      }
    } else {
      IncompleteSearchFails(ok, min, max, hash);
    }
  }

  /** Such a search: a range of three ports and the largest hash. */
  lemma LargestHashIncomplete()
    ensures !Complete(0xffff_ffff, Width(5000, 5003))
  {
  }

  /** The probing loop itself. */
  method FindNewPort(used: set<OverloadKey>, ok: OverloadKey, min: uint16, max: uint16, hash: uint32)
      returns (r: Option<uint16>)
    ensures r == FindPort(used, ok, min, max, hash, 0)
  {
    var width := Width(min, max);
    for p := 0 to width
      invariant FindPort(used, ok, min, max, hash, 0) == FindPort(used, ok, min, max, hash, p)
    {
      var port := ProbedPort(hash, min, width, p);
      if ok.(natPort := port) !in used {
        return Some(port);
      }
    }
    r := None;
  }
}
