/** The lookup table of one load balancer: built in place by the Maglev algorithm, and equal to
    the plain reading of it, where the backends take turns claiming their best free slot. */
module MaglevTable {
  import opened Words
  import opened PreferenceRow
  import opened Remainders

  /** DP_MAGLEV_POS_FREE */
  const FREE: int := -1

  /** The two address hashes, arbitrary 32-bit functions here. */
  datatype Hashes = Hashes(murmur: Ipv6 -> uint32, djb: Ipv6 -> uint32) {
    function RowOf(ip: Ipv6): seq<nat> {
      Row(murmur(ip) % SIZE, djb(ip) % (SIZE - 1) + 1)
    }

    function RowsOf(ips: seq<Ipv6>): seq<seq<nat>> {
      seq(|ips|, i requires 0 <= i < |ips| => RowOf(ips[i]))
    }

    lemma RowsAreOnto(ips: seq<Ipv6>)
      requires ips != []
      ensures AllInRange(RowsOf(ips)) && AllOnto(RowsOf(ips))
    {
      forall i | 0 <= i < |ips| ensures InRange(RowsOf(ips)[i]) && Onto(RowsOf(ips)[i]) {
        RowIsPermutation(murmur(ips[i]) % SIZE, djb(ips[i]) % (SIZE - 1) + 1);
      }
    }
  }

  ghost predicate AllInRange(rows: seq<seq<nat>>) {
    rows != [] && forall i :: 0 <= i < |rows| ==> InRange(rows[i])
  }

  ghost predicate AllOnto(rows: seq<seq<nat>>) {
    forall i :: 0 <= i < |rows| ==> Onto(rows[i])
  }

  ghost predicate IsTable(table: seq<int>) { |table| == SIZE }

  /** How far down its list, from entry j on, a backend has to go for a free slot. */
  ghost function FirstFree(row: seq<nat>, table: seq<int>, j: nat): (k: nat)
    requires InRange(row) && IsTable(table) && j <= SIZE
    ensures j <= k <= SIZE
    ensures k < SIZE ==> table[row[k]] == FREE
    ensures forall m :: j <= m < k ==> table[row[m]] != FREE
    decreases SIZE - j
  {
    if j == SIZE || table[row[j]] == FREE then j else FirstFree(row, table, j + 1)
  }

  /** The reference reading: the backends take turns, and the one whose turn it is claims its most
      preferred free slot. It is turn k of SIZE, and backend i's. */
  ghost function TakeTurns(rows: seq<seq<nat>>, table: seq<int>, k: nat, i: nat): (filled: seq<int>)
    requires AllInRange(rows) && IsTable(table) && k <= SIZE && i < |rows|
    ensures IsTable(filled)
    decreases SIZE - k
  {
    if k == SIZE then table else
    var best := FirstFree(rows[i], table, 0);
    if best == SIZE then table else
    TakeTurns(rows, table[rows[i][best] := i], k + 1, After(i, |rows|))
  }

  /** Whose turn it is after i's. */
  function After(i: nat, n: nat): nat { if i + 1 == n then 0 else i + 1 }

  ghost function Empty(): (table: seq<int>)
    ensures IsTable(table) && forall p :: 0 <= p < SIZE ==> table[p] == FREE
  {
    seq(SIZE, _ => FREE)
  }

  ghost function Built(h: Hashes, ips: seq<Ipv6>): (table: seq<int>)
    requires ips != []
    ensures IsTable(table)
  {
    h.RowsAreOnto(ips);
    TakeTurns(h.RowsOf(ips), Empty(), 0, 0)
  }

  // ---------- what is claimed so far ----------

  ghost function Claimed(table: seq<int>): (c: set<nat>)
    requires IsTable(table)
    ensures forall p: nat :: p in c <==> p < SIZE && table[p] != FREE
  {
    set p: nat | p < SIZE && table[p] != FREE
  }

  ghost function SlotsOf(table: seq<int>, i: nat): (c: set<nat>)
    requires IsTable(table)
    ensures forall p: nat :: p in c <==> p < SIZE && table[p] == i
  {
    set p: nat | p < SIZE && table[p] == i
  }

  lemma ClaimCounts(table: seq<int>, p: nat, i: nat, other: nat)
    requires IsTable(table) && p < SIZE && table[p] == FREE
    ensures |Claimed(table[p := i])| == |Claimed(table)| + 1
    ensures |SlotsOf(table[p := i], other)| == |SlotsOf(table, other)| + if i == other then 1 else 0
  {
    assert Claimed(table[p := i]) == Claimed(table) + {p};
    SlotCounts(table, p, i, other);
  }

  lemma SlotCounts(table: seq<int>, p: nat, i: nat, other: nat)
    requires IsTable(table) && p < |table| && table[p] == FREE
    ensures |SlotsOf(table[p := i], other)| == |SlotsOf(table, other)| + if i == other then 1 else 0
  {
    if i == other {
      assert SlotsOf(table[p := i], other) == SlotsOf(table, other) + {p};
    } else {
      assert SlotsOf(table[p := i], other) == SlotsOf(table, other);
    }
  }

  /** While a slot is free, every backend still has one on its list. */
  lemma FreePreference(row: seq<nat>, table: seq<int>) returns (m: nat)
    requires InRange(row) && Onto(row) && IsTable(table) && |Claimed(table)| < SIZE
    ensures m < SIZE && table[row[m]] == FREE
  {
    assert exists p: nat :: p < SIZE && table[p] == FREE by {
      if forall p: nat :: p < SIZE ==> table[p] != FREE {
        assert Claimed(table) == Range(|table|);
      }
    }
    var p: nat :| p < SIZE && table[p] == FREE;
    assert p in row;
    m :| 0 <= m < SIZE && row[m] == p;
  }

  lemma FirstFreeIs(row: seq<nat>, table: seq<int>, j: nat)
    requires InRange(row) && IsTable(table) && j < SIZE
    requires table[row[j]] == FREE
    requires forall m :: 0 <= m < j ==> table[row[m]] != FREE
    ensures FirstFree(row, table, 0) == j
  {
  }

  // ---------- fairness ----------

  /** After k turns of n backends, backend i has had this many. */
  function TurnsHad(n: nat, k: nat, i: nat): nat
    requires n > 0
  {
    k / n + if i < k % n then 1 else 0
  }

  lemma NextTurn(n: nat, k: nat, i: nat)
    requires n > 0 && i < n
    ensures TurnsHad(n, k + 1, i) == TurnsHad(n, k, i) + if i == k % n then 1 else 0
    ensures (k + 1) % n == After(k % n, n)
  {
    var q, r := k / n, k % n;
    if r + 1 < n {
      RemainderUnique(k + 1, n, q, r + 1);
    } else {
      RemainderUnique(k + 1, n, q + 1, 0);
    }
  }

  ghost predicate Fair(rows: seq<seq<nat>>, table: seq<int>, k: nat)
    requires rows != [] && IsTable(table)
  {
    && |Claimed(table)| == k
    && (forall p :: 0 <= p < SIZE ==> FREE <= table[p] < |rows|)
    && (forall i: nat :: i < |rows| ==> |SlotsOf(table, i)| == TurnsHad(|rows|, k, i))
  }

  lemma TurnKeepsFair(rows: seq<seq<nat>>, table: seq<int>, k: nat, p: nat)
    requires rows != [] && IsTable(table) && Fair(rows, table, k)
    requires p < SIZE && table[p] == FREE
    ensures Fair(rows, table[p := k % |rows|], k + 1)
  {
    var next := table[p := k % |rows|];
    ClaimCounts(table, p, k % |rows|, 0);
    forall i: nat | i < |rows| ensures |SlotsOf(next, i)| == TurnsHad(|rows|, k + 1, i) {
      ClaimCounts(table, p, k % |rows|, i);
      NextTurn(|rows|, k, i);
    }
  }

  lemma {:induction false} TurnsAreFair(rows: seq<seq<nat>>, table: seq<int>, k: nat, i: nat)
    requires AllInRange(rows) && AllOnto(rows) && IsTable(table) && k <= SIZE && i == k % |rows| && Fair(rows, table, k)
    ensures Fair(rows, TakeTurns(rows, table, k, i), SIZE)
    decreases SIZE - k
  {
    if k < SIZE {
      var m := FreePreference(rows[i], table);
      var best := FirstFree(rows[i], table, 0);
      TurnKeepsFair(rows, table, k, rows[i][best]);
      NextTurn(|rows|, k, i);
      TurnsAreFair(rows, table[rows[i][best] := i], k + 1, After(i, |rows|));
    }
  }

  lemma EmptyIsFair(rows: seq<seq<nat>>)
    requires rows != []
    ensures Fair(rows, Empty(), 0)
  {
    assert Claimed(Empty()) == {};
    forall i: nat | i < |rows| ensures |SlotsOf(Empty(), i)| == TurnsHad(|rows|, 0, i) {
      assert SlotsOf(Empty(), i) == {};
    }
  }

  /** Every slot names a backend, and no two shares differ by more than one slot: the first
      503 mod n backends hold one slot more than the others. */
  lemma BuiltIsFair(h: Hashes, ips: seq<Ipv6>)
    requires ips != []
    ensures forall p :: 0 <= p < SIZE ==> 0 <= Built(h, ips)[p] < |ips|
    ensures forall i: nat :: i < |ips| ==>
              |SlotsOf(Built(h, ips), i)| == SIZE / |ips| + if i < SIZE % |ips| then 1 else 0
  {
    h.RowsAreOnto(ips);
    var rows := h.RowsOf(ips);
    EmptyIsFair(rows);
    TurnsAreFair(rows, Empty(), 0, 0);
    var table := Built(h, ips);
    SubsetOfSameSize(Claimed(table), Range(|table|));
    forall p: nat | p < SIZE ensures 0 <= table[p] < |ips| {
      assert p in Claimed(table);
    }
  }

  // ---------- what the hashes decide ----------

  /** A claimed slot is never given away. */
  lemma {:induction false} ClaimsLast(rows: seq<seq<nat>>, table: seq<int>, k: nat, i: nat, p: nat)
    requires AllInRange(rows) && IsTable(table) && k <= SIZE && i < |rows| && p < SIZE && table[p] != FREE
    ensures TakeTurns(rows, table, k, i)[p] == table[p]
    decreases SIZE - k
  {
    if k < SIZE {
      var best := FirstFree(rows[i], table, 0);
      if best < SIZE {
        ClaimsLast(rows, table[rows[i][best] := i], k + 1, After(i, |rows|), p);
      }
    }
  }

  /** The first two turns. */
  lemma FirstTurns(rows: seq<seq<nat>>, table: seq<int>, k: nat)
    requires AllInRange(rows) && IsTable(table) && |rows| >= 2 && k + 2 <= SIZE
    requires table == Empty() && rows[1][0] != rows[1][1]
    ensures var filled := TakeTurns(rows, table, k, 0);
            && filled[rows[0][0]] == 0
            && filled[if rows[1][0] != rows[0][0] then rows[1][0] else rows[1][1]] == 1
  {
    var one := table[rows[0][0] := 0];
    assert FirstFree(rows[0], table, 0) == 0;
    assert TakeTurns(rows, table, k, 0) == TakeTurns(rows, one, k + 1, 1);
    var q := if rows[1][0] != rows[0][0] then rows[1][0] else rows[1][1];
    SecondTurn(rows, one, k + 1, q);
    ClaimsLast(rows, one, k + 1, 1, rows[0][0]);
  }

  lemma SecondTurn(rows: seq<seq<nat>>, one: seq<int>, k: nat, q: nat)
    requires AllInRange(rows) && IsTable(one) && |rows| >= 2 && k < SIZE && rows[1][0] != rows[1][1]
    requires forall p :: 0 <= p < SIZE ==> (one[p] != FREE <==> p == rows[0][0])
    requires q == if rows[1][0] != rows[0][0] then rows[1][0] else rows[1][1]
    ensures TakeTurns(rows, one, k, 1)[q] == 1
  {
    FirstFreeIs(rows[1], one, if rows[1][0] != rows[0][0] then 0 else 1);
    assert TakeTurns(rows, one, k, 1) == TakeTurns(rows, one[q := 1], k + 1, After(1, |rows|));
    ClaimsLast(rows, one[q := 1], k + 1, After(1, |rows|), q);
  }

  lemma FirstTwo(offset: nat, skip: nat)
    requires offset < SIZE && 0 < skip < SIZE
    ensures Row(offset, skip)[0] == offset && Row(offset, skip)[1] == (offset + skip) % SIZE != offset
  {
    RowIsPermutation(offset, skip);
  }

  /** The first backend holds the slot its murmur hash names. The second holds that of its own
      murmur hash, or if it is the same the one its other hash leads to from there. */
  lemma FirstChoices(h: Hashes, ips: seq<Ipv6>)
    requires |ips| >= 2
    ensures var p, q := h.murmur(ips[0]) % 503, h.murmur(ips[1]) % 503;
            && Built(h, ips)[p] == 0
            && Built(h, ips)[if q != p then q else (q + h.djb(ips[1]) % 502 + 1) % 503] == 1
  {
    hide Built;
    FirstTwo(h.murmur(ips[0]) % SIZE, h.djb(ips[0]) % (SIZE - 1) + 1);
    FirstTwo(h.murmur(ips[1]) % SIZE, h.djb(ips[1]) % (SIZE - 1) + 1);
    BuiltTurns(h, ips);
  }

  lemma BuiltTurns(h: Hashes, ips: seq<Ipv6>)
    requires |ips| >= 2 && h.RowOf(ips[1])[0] != h.RowOf(ips[1])[1]
    ensures InRange(h.RowOf(ips[0])) && InRange(h.RowOf(ips[1]))
    ensures var a, b := h.RowOf(ips[0]), h.RowOf(ips[1]);
            Built(h, ips)[a[0]] == 0 && Built(h, ips)[if b[0] != a[0] then b[0] else b[1]] == 1
  {
    hide TakeTurns;
    h.RowsAreOnto(ips);
    FirstTurns(h.RowsOf(ips), Empty(), 0);
  }

  // ---------- the in-place build ----------

  ghost predicate RowHeld(permutation: seq<int>, base: nat, row: seq<nat>) {
    base + |row| <= |permutation| && forall j :: 0 <= j < |row| ==> permutation[base + j] == row[j]
  }

  /** The flat permutation array the build reads, row after row. */
  ghost predicate Holds(permutation: array<int>, rows: seq<seq<nat>>)
    reads permutation
  {
    && permutation.Length == |rows| * SIZE
    && forall i :: 0 <= i < |rows| ==> RowHeld(permutation[..], i * SIZE, rows[i])
  }

  /** One row, from the given place on. */
  method FillRow(permutation: array<int>, base: nat, offset: nat, skip: nat)
    requires base + SIZE <= permutation.Length && offset < SIZE && 0 < skip < SIZE
    modifies permutation
    ensures RowHeld(permutation[..], base, Row(offset, skip))
    ensures forall k :: 0 <= k < permutation.Length && !(base <= k < base + SIZE) ==>
            permutation[k] == old(permutation[k])
  {
    for j := 0 to SIZE
      invariant forall b :: 0 <= b < j ==> permutation[base + b] == Row(offset, skip)[b]
      invariant forall k :: 0 <= k < permutation.Length && !(base <= k < base + j) ==>
                permutation[k] == old(permutation[k])
    {
      permutation[base + j] := Preferred(offset, skip, j);
    }
  }

  lemma RowKept(p: seq<int>, q: seq<int>, a: nat, i: nat, row: seq<nat>)
    requires RowHeld(p, a * SIZE, row) && |row| == SIZE && a < i && |q| == |p|
    requires forall k :: 0 <= k < |p| && !(i * SIZE <= k < i * SIZE + SIZE) ==> q[k] == p[k]
    ensures RowHeld(q, a * SIZE, row)
  {
    assert a * SIZE + SIZE <= i * SIZE;
  }

  method Permutation(h: Hashes, ips: seq<Ipv6>) returns (permutation: array<int>)
    ensures fresh(permutation)
    ensures Holds(permutation, h.RowsOf(ips))
  {
    permutation := new int[|ips| * SIZE];
    ghost var rows := h.RowsOf(ips);
    for i := 0 to |ips|
      invariant forall a :: 0 <= a < i ==> RowHeld(permutation[..], a * SIZE, rows[a])
    {
      ghost var was := permutation[..];
      FillRow(permutation, i * SIZE, h.murmur(ips[i]) % SIZE, h.djb(ips[i]) % (SIZE - 1) + 1);
      forall a | 0 <= a < i ensures RowHeld(permutation[..], a * SIZE, rows[a]) {
        RowKept(was, permutation[..], a, i, rows[a]);
      }
    }
  }

  /** Everything a backend has passed over is taken. */
  ghost predicate RowPassed(row: seq<nat>, table: seq<int>, upTo: int)
    requires InRange(row) && IsTable(table)
  {
    0 <= upTo <= SIZE && forall j :: 0 <= j < upTo ==> table[row[j]] != FREE
  }

  ghost predicate PassedAreTaken(rows: seq<seq<nat>>, table: seq<int>, next: seq<int>)
    requires AllInRange(rows) && IsTable(table)
  {
    |next| == |rows| && forall i :: 0 <= i < |rows| ==> RowPassed(rows[i], table, next[i])
  }

  lemma PassingKeeps(rows: seq<seq<nat>>, table: seq<int>, next: seq<int>, i: nat)
    requires AllInRange(rows) && IsTable(table) && PassedAreTaken(rows, table, next)
    requires i < |rows| && next[i] < SIZE
    ensures var j, next' := next[i], next[i := next[i] + 1];
            if table[rows[i][j]] == FREE then PassedAreTaken(rows, table[rows[i][j] := i], next')
            else PassedAreTaken(rows, table, next')
  {
  }

  /** One backend's turn: from where it stopped last time, go down its list to a free slot,
      of which there still is one, at entry m. */
  method ClaimNext(maglevHash: array<int>, permutation: array<int>, next: array<int>, i: nat,
                   ghost rows: seq<seq<nat>>, ghost m: nat)
    requires maglevHash != permutation && maglevHash != next && next != permutation
    requires AllInRange(rows) && Holds(permutation, rows) && i < |rows|
    requires maglevHash.Length == SIZE && next.Length == |rows|
    requires PassedAreTaken(rows, maglevHash[..], next[..])
    requires m < SIZE && maglevHash[rows[i][m]] == FREE
    modifies maglevHash, next
    ensures var table, best := old(maglevHash[..]), FirstFree(rows[i], old(maglevHash[..]), 0);
            best < SIZE && maglevHash[..] == table[rows[i][best] := i]
    ensures PassedAreTaken(rows, maglevHash[..], next[..])
  {
    ghost var table := maglevHash[..];
    var j := next[i];
    while j < SIZE
      invariant next[i] == j <= m
      invariant maglevHash[..] == table
      invariant PassedAreTaken(rows, table, next[..])
    {
      ghost var before := next[..];
      PassingKeeps(rows, table, before, i);
      assert RowHeld(permutation[..], i * SIZE, rows[i]);
      var pos := permutation[i * SIZE + j];
      assert pos == rows[i][j];
      next[i] := next[i] + 1;
      assert next[..] == before[i := j + 1];
      if maglevHash[pos] == FREE {
        FirstFreeIs(rows[i], table, j);
        maglevHash[pos] := i;
        assert maglevHash[..] == table[rows[i][j] := i];
        return;
      }
      j := j + 1;
    }
  }

  /** Going on from here, with i's turn, the reference definition ends with the goal. */
  ghost predicate LeadsTo(rows: seq<seq<nat>>, table: seq<int>, k: nat, i: nat, goal: seq<int>) {
    AllInRange(rows) && IsTable(table) && k <= SIZE && i < |rows| && TakeTurns(rows, table, k, i) == goal
  }

  /** What one claim does to the reference reading and to the count. */
  lemma TurnTaken(rows: seq<seq<nat>>, table: seq<int>, k: nat, i: nat, table': seq<int>, goal: seq<int>)
    requires k < SIZE && LeadsTo(rows, table, k, i, goal) && |Claimed(table)| == k
             && FirstFree(rows[i], table, 0) < SIZE
    requires table' == table[rows[i][FirstFree(rows[i], table, 0)] := i]
    ensures |Claimed(table')| == k + 1 && LeadsTo(rows, table', k + 1, After(i, |rows|), goal)
    ensures k + 1 == SIZE ==> table' == goal
  {
    ClaimCounts(table, rows[i][FirstFree(rows[i], table, 0)], i, i);
  }

  /** The state of the build after k turns, with i's turn next. */
  ghost predicate OnTheWay(rows: seq<seq<nat>>, table: seq<int>, next: seq<int>, k: nat, i: nat, goal: seq<int>) {
    LeadsTo(rows, table, k, i, goal) && |Claimed(table)| == k && PassedAreTaken(rows, table, next)
  }

  /** One turn of the round: backend i claims its slot. */
  method TakeTurn(maglevHash: array<int>, permutation: array<int>, next: array<int>, i: nat,
                  ghost rows: seq<seq<nat>>, ghost k: nat, ghost goal: seq<int>)
    requires maglevHash != permutation && maglevHash != next && next != permutation
    requires AllInRange(rows) && AllOnto(rows) && Holds(permutation, rows) && i < |rows|
    requires maglevHash.Length == SIZE && next.Length == |rows|
    requires k < SIZE && OnTheWay(rows, maglevHash[..], next[..], k, i, goal)
    modifies maglevHash, next
    ensures if k + 1 == SIZE then maglevHash[..] == goal
            else OnTheWay(rows, maglevHash[..], next[..], k + 1, After(i, |rows|), goal)
  {
    ghost var m := FreePreference(rows[i], maglevHash[..]);
    ghost var table := maglevHash[..];
    ClaimNext(maglevHash, permutation, next, i, rows, m);
    TurnTaken(rows, table, k, i, maglevHash[..], goal);
  }

  /** One round: each backend claims a slot, until none is left. */
  method PopulateIteration(maglevHash: array<int>, permutation: array<int>, next: array<int>, num: nat,
                           ghost rows: seq<seq<nat>>, ghost goal: seq<int>)
      returns (more: bool, num': nat)
    requires maglevHash != permutation && maglevHash != next && next != permutation
    requires AllInRange(rows) && AllOnto(rows) && Holds(permutation, rows)
    requires maglevHash.Length == SIZE && next.Length == |rows|
    requires num < SIZE && OnTheWay(rows, maglevHash[..], next[..], num, 0, goal)
    modifies maglevHash, next
    ensures num < num' <= SIZE && more == (num' < SIZE)
    ensures if more then OnTheWay(rows, maglevHash[..], next[..], num', 0, goal) else maglevHash[..] == goal
  {
    hide OnTheWay;
    num' := num;
    ghost var turn := 0;
    for i := 0 to next.Length
      invariant num' == num + i < SIZE && turn == (if i == |rows| then 0 else i)
      invariant OnTheWay(rows, maglevHash[..], next[..], num', turn, goal)
    {
      TakeTurn(maglevHash, permutation, next, i, rows, num', goal);
      num' := num' + 1;
      turn := After(i, |rows|);
      if num' == SIZE {
        return false, num';
      }
    }
    more := true;
  }

  /** The whole build. The first loop ends because every round claims a slot for each backend;
      the fallback fill that follows it never finds anything to fill. */
  method Populate(maglevHash: array<int>, permutation: array<int>, ghost h: Hashes, ghost ips: seq<Ipv6>)
    requires maglevHash != permutation
    requires ips != [] && Holds(permutation, h.RowsOf(ips)) && maglevHash.Length == SIZE
    modifies maglevHash
    ensures maglevHash[..] == Built(h, ips)
  {
    ghost var rows := h.RowsOf(ips);
    h.RowsAreOnto(ips);
    var n := permutation.Length / SIZE;
    RemainderUnique(permutation.Length, SIZE, |rows|, 0);
    var next := new int[n](_ => 0);
    var num := 0;
    for i := 0 to SIZE
      invariant forall p :: 0 <= p < i ==> maglevHash[p] == FREE
      invariant forall a :: 0 <= a < n ==> next[a] == 0
      invariant Holds(permutation, rows)
    {
      maglevHash[i] := FREE;
    }
    assert maglevHash[..] == Empty();
    EmptyIsFair(rows);
    var more := true;
    while more
      invariant Holds(permutation, rows)
      invariant num <= SIZE && more == (num < SIZE)
      invariant if more then OnTheWay(rows, maglevHash[..], next[..], num, 0, Built(h, ips))
                else maglevHash[..] == Built(h, ips)
      decreases SIZE - num
    {
      more, num := PopulateIteration(maglevHash, permutation, next, num, rows, Built(h, ips));
    }
    BuiltIsFair(h, ips);
    assert forall p :: 0 <= p < SIZE ==> maglevHash[p] == Built(h, ips)[p] != FREE;
    FillRest(maglevHash, n);
  }

  /** The fallback for slots the build left free. */
  method FillRest(maglevHash: array<int>, n: nat)
    requires n > 0 && maglevHash.Length == SIZE
    modifies maglevHash
    ensures forall p :: 0 <= p < SIZE ==>
              maglevHash[p] == if old(maglevHash[p]) == FREE then p % n else old(maglevHash[p])
  {
    for i := 0 to SIZE
      invariant forall p :: 0 <= p < SIZE ==>
                  maglevHash[p] == if p < i && old(maglevHash[p]) == FREE then p % n else old(maglevHash[p])
    {
      if maglevHash[i] == FREE {
        maglevHash[i] := i % n;
      }
    }
  }
}
