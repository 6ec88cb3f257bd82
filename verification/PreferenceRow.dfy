/** The arithmetic behind one backend's preference list: stepping through a prime number of
    slots by any non-zero stride visits every slot exactly once. */
module PreferenceRow {
  import opened Words
  import opened Remainders

  /** DP_LB_MAGLEV_LOOKUP_SIZE */
  const SIZE: nat := 503

  /** The j-th slot a backend prefers, computed in 32-bit unsigned arithmetic. */
  function Preferred(offset: nat, skip: nat, j: nat): (slot: nat)
    ensures slot < SIZE
  {
    Wrap32(offset + Wrap32(j * skip)) % SIZE
  }

  function Row(offset: nat, skip: nat): (row: seq<nat>)
    ensures |row| == SIZE
    ensures forall j :: 0 <= j < SIZE ==> row[j] == Preferred(offset, skip, j)
  {
    seq(SIZE, j requires 0 <= j => Preferred(offset, skip, j))
  }

  ghost predicate InRange(row: seq<nat>) {
    |row| == SIZE && forall j :: 0 <= j < SIZE ==> row[j] < SIZE
  }

  ghost predicate Distinct(row: seq<nat>) {
    forall i, j :: 0 <= i < j < |row| ==> row[i] != row[j]
  }

  ghost predicate Onto(row: seq<nat>) {
    forall slot: nat :: slot < SIZE ==> slot in row
  }

  ghost predicate IsPermutation(row: seq<nat>) {
    InRange(row) && Distinct(row) && Onto(row)
  }

  lemma SmallDivisors(d: nat)
    requires 2 <= d <= 22
    ensures SIZE % d != 0
  {
  }

  /** 503 is prime: a divisor above 22 would leave a cofactor below it. */
  lemma SizeIsPrime(d: nat)
    requires 2 <= d < SIZE
    ensures SIZE % d != 0
  {
    if d <= 22 {
      SmallDivisors(d);
    } else if SIZE % d == 0 {
      var q := SIZE / d;
      SmallCofactor(d, q, SIZE);
      MultipleModIsZero(d, q);
      SmallDivisors(q);
    }
  }

  lemma SmallCofactor(d: nat, q: nat, n: nat)
    requires 22 < d < n <= SIZE && d * q == n
    ensures 2 <= q <= 22
  {
    ProductAtLeast(q, 23, d);
  }

  /** Euclid's lemma for the prime 503, in the form the row needs: no shorter walk comes back
      to its start. The proof descends to a divisor of 503. */
  lemma {:induction false} NoEarlyReturn(d: nat, s: nat)
    requires 0 < d < SIZE && 0 < s < SIZE
    ensures (d * s) % SIZE != 0
    decreases d
  {
    if d == 1 {
      assert d * s == s;
    } else {
      var q, r := SIZE / d, SIZE % d;
      if (d * s) % SIZE == 0 {
        var c := (d * s) / SIZE;
        assert r * s == (s - q * c) * SIZE by {
          assert SIZE * s == (q * d + r) * s == q * (d * s) + r * s;
          assert q * (c * SIZE) == (q * c) * SIZE;
        }
        MultipleModIsZero(s - q * c, SIZE);
      }
      SizeIsPrime(d);
      NoEarlyReturn(r, s);
    }
  }

  lemma Fits(offset: nat, product: int)
    requires offset < SIZE && 0 <= product <= 502 * 502
    ensures Wrap32(offset + Wrap32(product)) == offset + product
  {
  }

  lemma NoOverflow(offset: nat, skip: nat, j: nat)
    requires offset < SIZE && 0 < skip < SIZE && j < SIZE
    ensures Preferred(offset, skip, j) == (offset + j * skip) % SIZE
  {
    ProductAtLeast(j, 0, skip);
    ProductAtLeast(502, j, skip);
    Fits(offset, j * skip);
  }

  lemma RowInjective(offset: nat, skip: nat, i: nat, j: nat)
    requires offset < SIZE && 0 < skip < SIZE && i < j < SIZE
    ensures Preferred(offset, skip, i) != Preferred(offset, skip, j)
  {
    NoOverflow(offset, skip, i);
    NoOverflow(offset, skip, j);
    var x, y := offset + i * skip, offset + j * skip;
    assert y - x == (j - i) * skip;
    if x % SIZE == y % SIZE {
      assert y - x == (y / SIZE - x / SIZE) * SIZE;
      MultipleModIsZero(y / SIZE - x / SIZE, SIZE);
    }
    NoEarlyReturn(j - i, skip);
  }

  ghost function Range(n: nat): (r: set<nat>)
    ensures forall x: nat :: x in r <==> x < n
    ensures |r| == n
  {
    if n == 0 then {} else Range(n - 1) + {n - 1}
  }

  ghost function Elements(s: seq<nat>): set<nat> { set x | x in s }

  /** Distinct values fill a set as large as the sequence. */
  lemma {:induction false} DistinctFills(s: seq<nat>)
    requires Distinct(s)
    ensures |Elements(s)| == |s|
  {
    if s == [] {
      assert Elements(s) == {};
    } else {
      var init, last := s[..|s| - 1], s[|s| - 1];
      DistinctFills(init);
      assert s == init + [last] && last !in init;
      assert Elements(s) == Elements(init) + {last};
    }
  }

  lemma SubsetOfSameSize<T>(a: set<T>, b: set<T>)
    requires a <= b && |a| == |b|
    ensures a == b
  {
    assert |b - a| == |b| - |a|;
  }

  lemma FillsRange(row: seq<nat>, n: nat)
    requires |row| == n && Distinct(row) && forall j :: 0 <= j < n ==> row[j] < n
    ensures Elements(row) == Range(n)
  {
    DistinctFills(row);
    assert Elements(row) <= Range(n);
    SubsetOfSameSize(Elements(row), Range(n));
  }

  lemma DistinctIsOnto(row: seq<nat>)
    requires InRange(row) && Distinct(row)
    ensures Onto(row)
  {
    FillsRange(row, |row|);
    forall slot: nat | slot < |row| ensures slot in row {
      assert slot in Elements(row);
    }
  }

  /** Every preference list is a permutation of the 503 slots. */
  lemma RowIsPermutation(offset: nat, skip: nat)
    requires offset < SIZE && 0 < skip < SIZE
    ensures IsPermutation(Row(offset, skip))
  {
    var row := Row(offset, skip);
    forall i, j | 0 <= i < j < SIZE ensures row[i] != row[j] {
      RowInjective(offset, skip, i, j);
    }
    DistinctIsOnto(row);
  }
}
