/**
 Frequency maps from n-gram to count, as `std::map<std::string, uint64_t>`
 with `operator[]` reading a missing key as 0, and the sums the conservation
 theorems are stated with.
 */
module Counts {

  type Freq = map<string, nat>

  /** `m[k]` as `std::map::operator[]` reads it: 0 for a key not present. */
  function Count(m: Freq, k: string): nat {
    if k in m then m[k] else 0
  }

  /** `m[k]++`. */
  function Inc(m: Freq, k: string): (r: Freq)
    ensures r.Keys == m.Keys + {k}
    ensures Count(r, k) == Count(m, k) + 1
    ensures forall j :: j != k ==> Count(r, j) == Count(m, j)
  {
    m[k := Count(m, k) + 1]
  }

  /** One increment per element of `ks`, in order: keys are only ever added, and only those of `ks`. */
  function Bump(m: Freq, ks: seq<string>): (r: Freq)
    ensures m.Keys <= r.Keys
    ensures forall k :: k in r ==> k in m || k in ks
    decreases |ks|
  {
    if ks == [] then m else Inc(Bump(m, ks[..|ks| - 1]), ks[|ks| - 1])
  }

  /** The number of times `k` occurs in `ks`. */
  function Occ(ks: seq<string>, k: string): nat
    decreases |ks|
  {
    if ks == [] then 0 else Occ(ks[..|ks| - 1], k) + (if ks[|ks| - 1] == k then 1 else 0)
  }

  /** Every key that is present has a positive count: the maps the counter builds never hold a 0. */
  predicate Positive(m: Freq) {
    forall k :: k in m ==> m[k] > 0
  }

  /** The sum of all counts of a map. */
  ghost function Total(m: Freq): nat
    decreases |m|
  {
    if m == map[] then 0
    else
      var k :| k in m;
      m[k] + Total(m - {k})
  }

  /** Total may take out any key first, not only the one it happens to choose. */
  lemma {:induction false} TotalRemove(m: Freq, k: string)
    requires k in m
    ensures Total(m) == m[k] + Total(m - {k})
    decreases |m|
  {
    var j :| j in m && Total(m) == m[j] + Total(m - {j});
    if j != k {
      TotalRemove(m - {j}, k);
      TotalRemove(m - {k}, j);
      assert m - {j} - {k} == m - {k} - {j};
    }
  }

  /** Adding `c` to one key adds `c` to the total. */
  lemma TotalAdd(m: Freq, k: string, c: nat)
    ensures Total(m[k := Count(m, k) + c]) == Total(m) + c
  {
    var r := m[k := Count(m, k) + c];
    TotalRemove(r, k);
    if k in m {
      TotalRemove(m, k);
      assert r - {k} == m - {k};
    } else {
      assert r - {k} == m;
    }
  }

  /** Bumping adds exactly the occurrences of each key and leaves every other key alone. */
  lemma {:induction false} CountBump(m: Freq, ks: seq<string>, k: string)
    ensures Count(Bump(m, ks), k) == Count(m, k) + Occ(ks, k)
    ensures k in Bump(m, ks) <==> k in m || Occ(ks, k) > 0
    decreases |ks|
  {
    if ks != [] {
      CountBump(m, ks[..|ks| - 1], k);
    }
  }

  /** Bumping keeps a map positive. */
  lemma {:induction false} BumpPositive(m: Freq, ks: seq<string>)
    requires Positive(m)
    ensures Positive(Bump(m, ks))
    decreases |ks|
  {
    if ks != [] {
      BumpPositive(m, ks[..|ks| - 1]);
    }
  }

  /** Bumping adds one to the total per element. */
  lemma {:induction false} TotalBump(m: Freq, ks: seq<string>)
    ensures Total(Bump(m, ks)) == Total(m) + |ks|
    decreases |ks|
  {
    if ks != [] {
      var prefix := Bump(m, ks[..|ks| - 1]);
      var k := ks[|ks| - 1];
      TotalBump(m, ks[..|ks| - 1]);
      TotalAdd(prefix, k, 1);
      assert Bump(m, ks) == prefix[k := Count(prefix, k) + 1];
    }
  }

  /** Bumping by a concatenation is bumping by each part in turn. */
  lemma {:induction false} BumpAppend(m: Freq, a: seq<string>, b: seq<string>)
    ensures Bump(m, a + b) == Bump(Bump(m, a), b)
    decreases |b|
  {
    if b == [] {
      assert a + b == a;
    } else {
      assert (a + b)[..|a + b| - 1] == a + b[..|b| - 1];
      BumpAppend(m, a, b[..|b| - 1]);
    }
  }

  lemma {:induction false} OccAppend(a: seq<string>, b: seq<string>, k: string)
    ensures Occ(a + b, k) == Occ(a, k) + Occ(b, k)
    decreases |b|
  {
    if b == [] {
      assert a + b == a;
    } else {
      assert (a + b)[..|a + b| - 1] == a + b[..|b| - 1];
      OccAppend(a, b[..|b| - 1], k);
    }
  }

  /** A key occurs at least once exactly when it is an element. */
  lemma {:induction false} OccPositive(ks: seq<string>, k: string)
    ensures Occ(ks, k) > 0 <==> k in ks
    decreases |ks|
  {
    if ks != [] {
      var init := ks[..|ks| - 1];
      OccPositive(init, k);
      assert ks == init + [ks[|ks| - 1]];
      assert k in ks <==> k in init || k == ks[|ks| - 1];
    }
  }

  /** Two positive maps that agree on every count are the same map. */
  lemma PositiveExtensional(a: Freq, b: Freq)
    requires Positive(a) && Positive(b)
    requires forall k :: Count(a, k) == Count(b, k)
    ensures a == b
  {
    assert forall k :: k in a <==> Count(a, k) > 0;
    assert forall k :: k in b <==> Count(b, k) > 0;
    assert a.Keys == b.Keys;
  }

  // ---------------------------------------------------------------------
  // Sums over the maps of all workers.
  // ---------------------------------------------------------------------

  /** The count of `k` summed over a sequence of maps. */
  function SumCount(ms: seq<Freq>, k: string): nat
    decreases |ms|
  {
    if ms == [] then 0 else SumCount(ms[..|ms| - 1], k) + Count(ms[|ms| - 1], k)
  }

  /** The totals of a sequence of maps, summed. */
  ghost function SumTotals(ms: seq<Freq>): nat
    decreases |ms|
  {
    if ms == [] then 0 else SumTotals(ms[..|ms| - 1]) + Total(ms[|ms| - 1])
  }

  /** Replacing one map changes the sum of counts by the difference. */
  lemma {:induction false} SumCountUpdate(ms: seq<Freq>, w: nat, m: Freq, k: string)
    requires w < |ms|
    ensures SumCount(ms[w := m], k) == SumCount(ms, k) - Count(ms[w], k) + Count(m, k)
    decreases |ms|
  {
    var last := |ms| - 1;
    if w < last {
      assert ms[w := m][..last] == ms[..last][w := m];
      SumCountUpdate(ms[..last], w, m, k);
    } else {
      assert ms[w := m][..last] == ms[..last];
    }
  }

  /** Replacing one map changes the sum of totals by the difference. */
  lemma {:induction false} SumTotalsUpdate(ms: seq<Freq>, w: nat, m: Freq)
    requires w < |ms|
    ensures SumTotals(ms[w := m]) == SumTotals(ms) - Total(ms[w]) + Total(m)
    decreases |ms|
  {
    var last := |ms| - 1;
    if w < last {
      assert ms[w := m][..last] == ms[..last][w := m];
      SumTotalsUpdate(ms[..last], w, m);
    } else {
      assert ms[w := m][..last] == ms[..last];
    }
  }

  /** Empty maps sum to nothing. */
  lemma {:induction false} SumOfEmpty(ms: seq<Freq>, k: string)
    requires forall i :: 0 <= i < |ms| ==> ms[i] == map[]
    ensures SumCount(ms, k) == 0 && SumTotals(ms) == 0
    decreases |ms|
  {
    if ms != [] {
      SumOfEmpty(ms[..|ms| - 1], k);
    }
  }
}
