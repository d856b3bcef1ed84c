/**
 The shuffle: each worker cuts its local map into one bucket per worker by
 the owner of each n-gram, and each worker sums the buckets addressed to it.
 `owner` stands for `std::hash<std::string>`, whose values the model does
 not fix.
 */
module Shuffle {
  import opened Counts

  /** One `(ngram, count)` entry of a bucket. */
  type Pair = (string, nat)

  /** A bucket: the vector of pairs one sender delivers to one receiver. */
  type Pairs = seq<Pair>

  predicate DistinctKeys(ps: Pairs) {
    forall i, j :: 0 <= i < j < |ps| ==> ps[i].0 != ps[j].0
  }

  /** The pairs read back as a map. */
  function PairsToMap(ps: Pairs): (m: Freq)
    ensures m.Keys == set i | 0 <= i < |ps| :: ps[i].0
    decreases |ps|
  {
    if ps == [] then map[]
    else
      var p := ps[|ps| - 1];
      PairsToMap(ps[..|ps| - 1])[p.0 := p.1]
  }

  /** The worker an n-gram is shuffled to. */
  function Destination(k: string, numThreads: nat, owner: string -> nat): (d: nat)
    requires numThreads > 0
    ensures d < numThreads
  {
    owner(k) % numThreads
  }

  /**
   The entries of `m` owned by worker `i`: a sub-map of `m`, with every
   count as in `m`, and empty for an index no worker has.
   */
  function Bucket(m: Freq, numThreads: nat, owner: string -> nat, i: nat): (b: Freq)
    requires numThreads > 0
    ensures b.Keys <= m.Keys
    ensures forall k :: k in b ==> b[k] == m[k] && Destination(k, numThreads, owner) == i
    ensures i >= numThreads ==> b == map[]
  {
    map k | k in m && Destination(k, numThreads, owner) == i :: m[k]
  }

  /** Each key of a map lands in exactly one bucket, whose index is below the number of workers. */
  lemma BucketsPartition(m: Freq, numThreads: nat, owner: string -> nat, k: string, i: nat)
    requires numThreads > 0 && k in m
    ensures Destination(k, numThreads, owner) < numThreads
    ensures k in Bucket(m, numThreads, owner, i) <==> i == Destination(k, numThreads, owner)
    ensures k in Bucket(m, numThreads, owner, i) ==> Bucket(m, numThreads, owner, i)[k] == m[k]
  {
  }

  /** With a single worker, its one bucket is the whole map. */
  lemma SingleBucket(m: Freq, owner: string -> nat)
    ensures Bucket(m, 1, owner, 0) == m
  {
  }

  /**
   Cut a worker's local map into one bucket per worker: each pair of
   `local` is pushed onto the bucket of its destination. The buckets hold
   exactly the pairs of `local`, none twice.
   */
  method Partition(local: Freq, numThreads: nat, owner: string -> nat) returns (assignment: seq<Pairs>)
    requires numThreads > 0
    ensures |assignment| == numThreads
    ensures forall i :: 0 <= i < numThreads ==>
      DistinctKeys(assignment[i]) && PairsToMap(assignment[i]) == Bucket(local, numThreads, owner, i)
  {
    assignment := seq(numThreads, _ => []);
    var rest := local.Keys;
    assert forall i :: 0 <= i < numThreads ==> Bucket(local - rest, numThreads, owner, i) == map[];
    while rest != {}
      invariant |assignment| == numThreads
      invariant rest <= local.Keys
      invariant forall i :: 0 <= i < numThreads ==>
        DistinctKeys(assignment[i]) && PairsToMap(assignment[i]) == Bucket(local - rest, numThreads, owner, i)
      decreases rest
    {
      var k :| k in rest;
      var b := owner(k) % numThreads;
      ghost var done := local - rest;
      assert local - (rest - {k}) == done[k := local[k]];
      BucketInsert(done, numThreads, owner, k, local[k]);
      PushPair(assignment[b], k, local[k]);
      assignment := assignment[b := assignment[b] + [(k, local[k])]];
      rest := rest - {k};
    }
    assert local - rest == local;
  }

  /** Adding a new key to a map adds it to its own bucket and to no other. */
  lemma BucketInsert(m: Freq, numThreads: nat, owner: string -> nat, k: string, c: nat)
    requires numThreads > 0 && k !in m
    ensures forall i ::
      Bucket(m[k := c], numThreads, owner, i) ==
        if i == Destination(k, numThreads, owner) then Bucket(m, numThreads, owner, i)[k := c] else Bucket(m, numThreads, owner, i)
  {
  }

  /** Pushing a pair with a new key keeps the keys distinct and adds that entry to the map. */
  lemma PushPair(ps: Pairs, k: string, c: nat)
    requires DistinctKeys(ps) && k !in PairsToMap(ps)
    ensures DistinctKeys(ps + [(k, c)]) && PairsToMap(ps + [(k, c)]) == PairsToMap(ps)[k := c]
  {
    var ps' := ps + [(k, c)];
    assert ps'[..|ps|] == ps;
    forall i, j | 0 <= i < j < |ps'| ensures ps'[i].0 != ps'[j].0 {
      assert ps'[i] == ps[i];
      if j < |ps| {
        assert ps'[j] == ps[j];
      } else {
        assert ps[i].0 in PairsToMap(ps);
      }
    }
  }

  // ---------------------------------------------------------------------
  // Merging the buckets a worker receives.
  // ---------------------------------------------------------------------

  /** `reduced_freq[ngram] += cnt`: the pair's key gains its count, every other count stays. */
  function Add(m: Freq, p: Pair): (r: Freq)
    ensures r.Keys == m.Keys + {p.0}
    ensures Count(r, p.0) == Count(m, p.0) + p.1
    ensures forall k :: k != p.0 ==> Count(r, k) == Count(m, k)
  {
    m[p.0 := Count(m, p.0) + p.1]
  }

  /** Every pair of one bucket added in turn. */
  function AddPairs(m: Freq, ps: Pairs): Freq
    decreases |ps|
  {
    if ps == [] then m else Add(AddPairs(m, ps[..|ps| - 1]), ps[|ps| - 1])
  }

  /** The buckets from every sender, merged into an empty map in sender order. */
  function MergeAll(updates: seq<Pairs>): Freq
    decreases |updates|
  {
    if updates == [] then map[] else AddPairs(MergeAll(updates[..|updates| - 1]), updates[|updates| - 1])
  }

  /** The receiving loops: for each sender, add each of its pairs into `reduced`. */
  method Merge(updates: seq<Pairs>) returns (reduced: Freq)
    ensures reduced == MergeAll(updates)
  {
    reduced := map[];
    var t := 0;
    while t < |updates|
      invariant 0 <= t <= |updates|
      invariant reduced == MergeAll(updates[..t])
    {
      var bucket := updates[t];
      var j := 0;
      while j < |bucket|
        invariant 0 <= j <= |bucket|
        invariant reduced == AddPairs(MergeAll(updates[..t]), bucket[..j])
      {
        assert bucket[..j + 1][..j] == bucket[..j];
        reduced := Add(reduced, bucket[j]);
        j := j + 1;
      }
      assert updates[..t + 1][..t] == updates[..t];
      assert bucket[..j] == bucket;
      t := t + 1;
    }
    assert updates[..t] == updates;
  }

  /** The counts pairs carry for one key. */
  function PairsCount(ps: Pairs, k: string): nat
    decreases |ps|
  {
    if ps == [] then 0
    else PairsCount(ps[..|ps| - 1], k) + (if ps[|ps| - 1].0 == k then ps[|ps| - 1].1 else 0)
  }

  /** The counts all senders' pairs carry for one key. */
  function PairsCountAll(updates: seq<Pairs>, k: string): nat
    decreases |updates|
  {
    if updates == [] then 0 else PairsCountAll(updates[..|updates| - 1], k) + PairsCount(updates[|updates| - 1], k)
  }

  predicate PositivePairs(ps: Pairs) {
    forall i :: 0 <= i < |ps| ==> ps[i].1 > 0
  }

  /** Adding pairs sums, per key, the counts they carry (never overwrites). */
  lemma {:induction false} CountAddPairs(m: Freq, ps: Pairs, k: string)
    ensures Count(AddPairs(m, ps), k) == Count(m, k) + PairsCount(ps, k)
    decreases |ps|
  {
    if ps != [] {
      CountAddPairs(m, ps[..|ps| - 1], k);
    }
  }

  lemma {:induction false} AddPairsPositive(m: Freq, ps: Pairs)
    requires Positive(m) && PositivePairs(ps)
    ensures Positive(AddPairs(m, ps))
    decreases |ps|
  {
    if ps != [] {
      AddPairsPositive(m, ps[..|ps| - 1]);
    }
  }

  /** The merged count of a key is the sum of what every sender sent for it. */
  lemma {:induction false} CountMergeAll(updates: seq<Pairs>, k: string)
    ensures Count(MergeAll(updates), k) == PairsCountAll(updates, k)
    decreases |updates|
  {
    if updates != [] {
      var init := updates[..|updates| - 1];
      CountMergeAll(init, k);
      CountAddPairs(MergeAll(init), updates[|updates| - 1], k);
    }
  }

  lemma {:induction false} MergeAllPositive(updates: seq<Pairs>)
    requires forall s :: 0 <= s < |updates| ==> PositivePairs(updates[s])
    ensures Positive(MergeAll(updates))
    decreases |updates|
  {
    if updates != [] {
      var init := updates[..|updates| - 1];
      MergeAllPositive(init);
      AddPairsPositive(MergeAll(init), updates[|updates| - 1]);
    }
  }

  /** Without repeated keys, the count pairs carry for a key is what their map holds for it. */
  lemma {:induction false} DistinctPairsCount(ps: Pairs, k: string)
    requires DistinctKeys(ps)
    ensures PairsCount(ps, k) == Count(PairsToMap(ps), k)
    decreases |ps|
  {
    if ps != [] {
      var init := ps[..|ps| - 1];
      DistinctPairsCount(init, k);
      if ps[|ps| - 1].0 == k {
        assert k !in PairsToMap(init);
      }
    }
  }

  /** Without repeated keys, every pair is read back from the map. */
  lemma DistinctPairsAt(ps: Pairs, i: nat)
    requires DistinctKeys(ps) && i < |ps|
    ensures ps[i].0 in PairsToMap(ps) && PairsToMap(ps)[ps[i].0] == ps[i].1
  {
    PairsCountAt(ps, i);
    DistinctPairsCount(ps, ps[i].0);
    assert ps[i].0 in PairsToMap(ps);
  }

  /** Without repeated keys, the key of a pair carries exactly that pair's count. */
  lemma PairsCountAt(ps: Pairs, i: nat)
    requires DistinctKeys(ps) && i < |ps|
    ensures PairsCount(ps, ps[i].0) == ps[i].1
  {
    var k := ps[i].0;
    var before, after := ps[..i], ps[i + 1..];
    assert ps == before + [ps[i]] + after;
    assert forall j :: 0 <= j < |before| ==> before[j].0 != k by {
      forall j | 0 <= j < |before| ensures before[j].0 != k {
        assert before[j] == ps[j];
      }
    }
    assert forall j :: 0 <= j < |after| ==> after[j].0 != k by {
      forall j | 0 <= j < |after| ensures after[j].0 != k {
        assert after[j] == ps[i + 1 + j];
      }
    }
    PairsCountAbsent(before, k);
    PairsCountAbsent(after, k);
    PairsCountSplit(before, ps[i], after, k);
  }

  lemma {:induction false} PairsCountSplit(a: Pairs, p: Pair, b: Pairs, k: string)
    ensures PairsCount(a + [p] + b, k) == PairsCount(a, k) + (if p.0 == k then p.1 else 0) + PairsCount(b, k)
    decreases |b|
  {
    if b == [] {
      assert (a + [p] + b)[..|a|] == a;
    } else {
      var s := a + [p] + b;
      assert s[..|s| - 1] == a + [p] + b[..|b| - 1];
      PairsCountSplit(a, p, b[..|b| - 1], k);
    }
  }

  lemma {:induction false} PairsCountAbsent(ps: Pairs, k: string)
    requires forall i :: 0 <= i < |ps| ==> ps[i].0 != k
    ensures PairsCount(ps, k) == 0
    decreases |ps|
  {
    if ps != [] {
      PairsCountAbsent(ps[..|ps| - 1], k);
    }
  }

  // ---------------------------------------------------------------------
  // What the shuffle computes, and what it conserves.
  // ---------------------------------------------------------------------

  /** The local maps of all workers summed key by key: the counts of the whole corpus. */
  function Combined(locals: seq<Freq>): (m: Freq)
    decreases |locals|
  {
    if locals == [] then map[]
    else
      AddMaps(Combined(locals[..|locals| - 1]), locals[|locals| - 1])
  }

  lemma {:induction false} CountCombined(locals: seq<Freq>, k: string)
    ensures Count(Combined(locals), k) == SumCount(locals, k)
    decreases |locals|
  {
    if locals != [] {
      CountCombined(locals[..|locals| - 1], k);
    }
  }

  lemma {:induction false} CombinedPositive(locals: seq<Freq>)
    requires forall s :: 0 <= s < |locals| ==> Positive(locals[s])
    ensures Positive(Combined(locals))
    decreases |locals|
  {
    if locals != [] {
      CombinedPositive(locals[..|locals| - 1]);
    }
  }

  /** Two maps summed key by key. */
  function AddMaps(a: Freq, b: Freq): Freq {
    map k | k in a.Keys + b.Keys :: Count(a, k) + Count(b, k)
  }

  lemma CountAddMaps(a: Freq, b: Freq, k: string)
    ensures Count(AddMaps(a, b), k) == Count(a, k) + Count(b, k)
  {
  }

  lemma AddMapsEmpty(a: Freq)
    ensures AddMaps(a, map[]) == a
  {
    assert AddMaps(a, map[]).Keys == a.Keys;
  }

  /** Adding one more key of `b` adds its count at that key. */
  lemma AddMapsRemove(a: Freq, b: Freq, k: string)
    requires k in b
    ensures AddMaps(a, b) == AddMaps(a, b - {k})[k := Count(AddMaps(a, b - {k}), k) + b[k]]
  {
    var s := AddMaps(a, b - {k});
    var r := s[k := Count(s, k) + b[k]];
    assert AddMaps(a, b).Keys == r.Keys;
    forall j | j in r ensures AddMaps(a, b)[j] == r[j] {
      CountAddMaps(a, b - {k}, j);
    }
  }

  lemma TotalAddMapsStep(a: Freq, b: Freq, k: string)
    requires k in b
    ensures Total(AddMaps(a, b)) == Total(AddMaps(a, b - {k})) + b[k]
  {
    AddMapsRemove(a, b, k);
    TotalOfUpdate(AddMaps(a, b), AddMaps(a, b - {k}), k, b[k]);
  }

  lemma TotalOfUpdate(r: Freq, s: Freq, k: string, c: nat)
    requires r == s[k := Count(s, k) + c]
    ensures Total(r) == Total(s) + c
  {
    TotalAdd(s, k, c);
  }

  /** Summing two maps key by key adds their totals. */
  lemma {:induction false} TotalSum(a: Freq, b: Freq)
    ensures Total(AddMaps(a, b)) == Total(a) + Total(b)
    decreases |b|
  {
    if b == map[] {
      AddMapsEmpty(a);
    } else {
      var k :| k in b;
      TotalSum(a, b - {k});
      TotalAddMapsStep(a, b, k);
      TotalRemove(b, k);
    }
  }

  /** The combined map holds, in total, everything the workers counted. */
  lemma {:induction false} TotalCombined(locals: seq<Freq>)
    ensures Total(Combined(locals)) == SumTotals(locals)
    decreases |locals|
  {
    if locals != [] {
      TotalCombined(locals[..|locals| - 1]);
      TotalSum(Combined(locals[..|locals| - 1]), locals[|locals| - 1]);
    }
  }

  /** A single worker's combined map is its own map. */
  lemma CombinedSingle(m: Freq)
    ensures Combined([m]) == m
  {
    assert [m][..0] == [];
  }

  /**
   Routing and summation together: if every sender `s` delivered to
   receiver `t` exactly its bucket `t`, the receiver's merged map is bucket
   `t` of the combined counts. So an n-gram is present only at its owner,
   with the sum of its counts over all workers.
   */
  lemma {:induction false} MergeColumn(updates: seq<Pairs>, locals: seq<Freq>, numThreads: nat, owner: string -> nat, t: nat)
    requires numThreads > 0 && |updates| == |locals|
    requires forall s :: 0 <= s < |locals| ==> Positive(locals[s])
    requires forall s :: 0 <= s < |updates| ==>
      DistinctKeys(updates[s]) && PairsToMap(updates[s]) == Bucket(locals[s], numThreads, owner, t)
    ensures MergeAll(updates) == Bucket(Combined(locals), numThreads, owner, t)
  {
    forall s | 0 <= s < |updates| ensures PositivePairs(updates[s]) {
      forall i | 0 <= i < |updates[s]| ensures updates[s][i].1 > 0 {
        DistinctPairsAt(updates[s], i);
      }
    }
    MergeAllPositive(updates);
    CombinedPositive(locals);
    forall k ensures Count(MergeAll(updates), k) == Count(Bucket(Combined(locals), numThreads, owner, t), k) {
      CountMergeAll(updates, k);
      ColumnCount(updates, locals, numThreads, owner, t, k);
      CountCombined(locals, k);
    }
    PositiveExtensional(MergeAll(updates), Bucket(Combined(locals), numThreads, owner, t));
  }

  lemma {:induction false} ColumnCount(updates: seq<Pairs>, locals: seq<Freq>, numThreads: nat, owner: string -> nat, t: nat, k: string)
    requires numThreads > 0 && |updates| == |locals|
    requires forall s :: 0 <= s < |updates| ==>
      DistinctKeys(updates[s]) && PairsToMap(updates[s]) == Bucket(locals[s], numThreads, owner, t)
    ensures PairsCountAll(updates, k) == if Destination(k, numThreads, owner) == t then SumCount(locals, k) else 0
    decreases |updates|
  {
    if updates != [] {
      var last := |updates| - 1;
      ColumnCount(updates[..last], locals[..last], numThreads, owner, t, k);
      DistinctPairsCount(updates[last], k);
    }
  }

  /** The sum of the totals of buckets `0 .. upto` of a map. */
  ghost function BucketTotals(m: Freq, numThreads: nat, owner: string -> nat, upto: nat): nat
    requires numThreads > 0
  {
    if upto == 0 then 0 else BucketTotals(m, numThreads, owner, upto - 1) + Total(Bucket(m, numThreads, owner, upto - 1))
  }

  lemma {:induction false} BucketTotalsEmpty(numThreads: nat, owner: string -> nat, upto: nat)
    requires numThreads > 0
    ensures BucketTotals(map[], numThreads, owner, upto) == 0
  {
    if upto > 0 {
      BucketTotalsEmpty(numThreads, owner, upto - 1);
      assert Bucket(map[], numThreads, owner, upto - 1) == map[];
    }
  }

  lemma {:induction false} BucketTotalsRemove(m: Freq, k: string, numThreads: nat, owner: string -> nat, upto: nat)
    requires numThreads > 0 && k in m
    ensures BucketTotals(m, numThreads, owner, upto)
      == BucketTotals(m - {k}, numThreads, owner, upto) + (if Destination(k, numThreads, owner) < upto then m[k] else 0)
  {
    if upto > 0 {
      var t := upto - 1;
      BucketTotalsRemove(m, k, numThreads, owner, t);
      BucketRemove(m, k, numThreads, owner, t);
      if Destination(k, numThreads, owner) == t {
        TotalRemove(Bucket(m, numThreads, owner, t), k);
      }
    }
  }

  /** Removing a key from a map removes it from its own bucket and leaves the others. */
  lemma BucketRemove(m: Freq, k: string, numThreads: nat, owner: string -> nat, t: nat)
    requires numThreads > 0 && k in m
    ensures Bucket(m - {k}, numThreads, owner, t)
      == if Destination(k, numThreads, owner) == t then Bucket(m, numThreads, owner, t) - {k}
        else Bucket(m, numThreads, owner, t)
  {
  }

  /** Cutting a map into buckets conserves its total. */
  lemma {:induction false} BucketsConserve(m: Freq, numThreads: nat, owner: string -> nat)
    requires numThreads > 0
    ensures BucketTotals(m, numThreads, owner, numThreads) == Total(m)
    decreases |m|
  {
    if m == map[] {
      BucketTotalsEmpty(numThreads, owner, numThreads);
    } else {
      var k :| k in m;
      BucketsConserve(m - {k}, numThreads, owner);
      BucketTotalsRemove(m, k, numThreads, owner, numThreads);
      TotalRemove(m, k);
    }
  }

  /** Receivers that each hold their own bucket of `m` hold, together, the total of `m`. */
  lemma {:induction false} MergedTotals(merged: seq<Freq>, m: Freq, numThreads: nat, owner: string -> nat)
    requires numThreads > 0 && |merged| <= numThreads
    requires forall t :: 0 <= t < |merged| ==> merged[t] == Bucket(m, numThreads, owner, t)
    ensures SumTotals(merged) == BucketTotals(m, numThreads, owner, |merged|)
    decreases |merged|
  {
    if merged != [] {
      MergedTotals(merged[..|merged| - 1], m, numThreads, owner);
    }
  }
}
