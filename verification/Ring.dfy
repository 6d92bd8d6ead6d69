/**
 Cyclic arithmetic over the buckets of a hash table, and displacement profiles.

 A profile gives, for every bucket of a ring, how far its entry sits from the
 bucket it hashes to. Buckets whose entry has no final place (free buckets, and
 buckets waiting to be rehashed) count as -1. Robin Hood hashing is then one
 inequality: walking forward, a displacement grows by at most one.
 */
module Ring {

  function Next(n: nat, i: nat): (r: nat)
    requires i < n
    ensures r < n
  {
    if i + 1 == n then 0 else i + 1
  }

  function Prev(n: nat, i: nat): (r: nat)
    requires i < n
    ensures r < n && Next(n, r) == i
  {
    if i == 0 then n - 1 else i - 1
  }

  /** next_idx and prev_idx compute with the remainder. */
  lemma StepsAreModular(n: nat, i: nat)
    requires i < n
    ensures Next(n, i) == (i + 1) % n && Prev(n, i) == (n + i - 1) % n
  {
    Wraps(n, i);
    if i > 0 {
      Wraps(n, i - 1);
    } else {
      Wraps(n, n - 1);
    }
  }

  lemma Wraps(n: nat, r: nat)
    requires r < n
    ensures r % n == r && (n + r) % n == r && n % n == 0
  {
  }

  /** The bucket reached from bucket `from` after `k` forward steps. */
  function Ahead(n: nat, from: nat, k: nat): (r: nat)
    requires from < n && k <= n
    ensures r < n
  {
    if from + k < n then from + k else from + k - n
  }

  /** The number of forward steps from bucket `from` to bucket `idx`. */
  function Distance(n: nat, idx: nat, from: nat): (r: nat)
    requires idx < n && from < n
    ensures r < n && Ahead(n, from, r) == idx
  {
    if idx >= from then idx - from else n + idx - from
  }

  ghost predicate IsRing(d: seq<int>) {
    forall i {:trigger Next(|d|, i)} :: 0 <= i < |d| ==> d[Next(|d|, i)] <= d[i] + 1
  }

  /** Everything between the start of a run and a displaced entry is displaced at least proportionally. */
  lemma {:induction false} RunDown(d: seq<int>, from: nat, k: nat, j: nat)
    requires IsRing(d) && from < |d| && j <= k < |d|
    requires d[Ahead(|d|, from, k)] >= k
    ensures d[Ahead(|d|, from, j)] >= j
    decreases k - j
  {
    if j < k {
      assert Next(|d|, Ahead(|d|, from, k - 1)) == Ahead(|d|, from, k);
      RunDown(d, from, k - 1, j);
    }
  }

  /** A ring with an unsettled bucket leaves room: no displacement reaches the last possible value. */
  lemma HeadRoom(d: seq<int>, i: nat, f: nat)
    requires IsRing(d) && i < |d| && f < |d|
    requires d[f] == -1
    ensures d[i] + 1 < |d|
  {
    if d[i] + 1 >= |d| {
      var k := Distance(|d|, f, Next(|d|, i));
      RunDown(d, Next(|d|, i), |d| - 1, k);
    }
  }

  /** Overwriting bucket `idx` by a larger displacement that its predecessor still supports keeps the ring. */
  lemma PlaceKeepsRing(d: seq<int>, idx: nat, distance: nat)
    requires IsRing(d) && idx < |d|
    requires d[idx] < distance <= d[Prev(|d|, idx)] + 1
    requires |d| == 1 ==> distance == 0
    ensures IsRing(d[idx := distance])
  {
    var e := d[idx := distance];
    forall i {:trigger Next(|d|, i)} | 0 <= i < |d| ensures e[Next(|d|, i)] <= e[i] + 1 {
      assert d[Next(|d|, i)] <= d[i] + 1;
    }
  }

  /**
   A ring with a hole at `hole`. The hole stands for an entry of displacement `c`
   that has just been taken out: its successor may still exceed it by one.
   */
  ghost predicate IsHoledRing(d: seq<int>, hole: nat, c: nat) {
    && hole < |d|
    && d[hole] == -1
    && (|d| > 1 ==> c <= d[Prev(|d|, hole)] + 1 && d[Next(|d|, hole)] <= c + 1)
    && forall i {:trigger Next(|d|, i)} :: 0 <= i < |d| && i != hole ==> d[Next(|d|, i)] <= d[i] + 1
  }

  lemma OpenHole(d: seq<int>, idx: nat)
    requires IsRing(d) && idx < |d| && d[idx] >= 0
    ensures IsHoledRing(d[idx := -1], idx, d[idx])
  {
    var e := d[idx := -1];
    assert Next(|d|, Prev(|d|, idx)) == idx;
    forall i {:trigger Next(|d|, i)} | 0 <= i < |d| && i != idx ensures e[Next(|d|, i)] <= e[i] + 1 {
      assert d[Next(|d|, i)] <= d[i] + 1;
    }
    if |d| > 1 {
      assert d[Next(|d|, idx)] <= d[idx] + 1;
    }
  }

  /** Shifting the entry after the hole one bucket back moves the hole one bucket on. */
  lemma ShiftHole(d: seq<int>, hole: nat, c: nat)
    requires |d| > 1 && IsHoledRing(d, hole, c)
    requires d[Next(|d|, hole)] >= 1
    ensures var left := Next(|d|, hole);
            && IsHoledRing(d[hole := d[left] - 1][left := -1], left, d[left])
            && d[left] - 1 <= c
  {
    var left := Next(|d|, hole);
    var e := d[hole := d[left] - 1][left := -1];
    forall i {:trigger Next(|d|, i)} | 0 <= i < |d| && i != left ensures e[Next(|d|, i)] <= e[i] + 1 {
      if i != hole {
        assert d[Next(|d|, i)] <= d[i] + 1;
        assert Next(|d|, i) == hole ==> i == Prev(|d|, hole);
      }
    }
    assert Prev(|d|, left) == hole;
    assert d[Next(|d|, left)] <= d[left] + 1;
  }

  /** The hole may be left open once its successor is free or in its own bucket. */
  lemma CloseHole(d: seq<int>, hole: nat, c: nat)
    requires IsHoledRing(d, hole, c)
    requires d[Next(|d|, hole)] <= 0
    ensures IsRing(d)
  {
    forall i {:trigger Next(|d|, i)} | 0 <= i < |d| ensures d[Next(|d|, i)] <= d[i] + 1 {
    }
  }
}
