/**
 The whole computation of the counter over a corpus of files: every worker
 claims files and counts their n-grams into a map of its own, cuts that map
 into one bucket per worker, hands bucket `t` to worker `t`, sums the
 buckets it receives, and selects its five most frequent n-grams.
 */
module NgramCounter {
  import opened Counts
  import opened Tokenizer
  import opened Shuffle
  import opened TopFive

  // ---------------------------------------------------------------------
  // What the computation is specified by.
  // ---------------------------------------------------------------------

  /** The n-grams of every file of the corpus, file after file. */
  function CorpusNgrams(files: seq<string>, n: nat): seq<string>
    decreases |files|
  {
    if files == [] then [] else CorpusNgrams(files[..|files| - 1], n) + FileNgrams(files[|files| - 1], n)
  }

  /** The counts of a sequence of n-grams, counted into an empty map. */
  function Tally(ks: seq<string>): Freq {
    Bump(map[], ks)
  }

  /**
   The n-grams of the files claimed by worker `w`, in claiming order;
   `claims[i]` is the worker that claimed file `i`.
   */
  function WorkerNgrams(files: seq<string>, claims: seq<nat>, w: nat, n: nat): seq<string>
    requires |claims| == |files|
    decreases |files|
  {
    if files == [] then []
    else
      var last := |files| - 1;
      WorkerNgrams(files[..last], claims[..last], w, n) + (if claims[last] == w then FileNgrams(files[last], n) else [])
  }

  /** The local map of every worker once all files are claimed. */
  function WorkerLocals(files: seq<string>, claims: seq<nat>, numThreads: nat, n: nat): seq<Freq>
    requires |claims| == |files|
  {
    seq(numThreads, w requires 0 <= w < numThreads => Tally(WorkerNgrams(files, claims, w, n)))
  }

  /** What each worker holds after the reduction: its own bucket of the corpus counts. */
  function Expected(files: seq<string>, numThreads: nat, n: nat, owner: string -> nat): seq<Freq> {
    seq(numThreads, t requires 0 <= t < numThreads => Bucket(Tally(CorpusNgrams(files, n)), numThreads, owner, t))
  }

  /** Every claim names one of the workers. */
  predicate ValidClaims(claims: seq<nat>, numThreads: nat) {
    forall i :: 0 <= i < |claims| ==> claims[i] < numThreads
  }

  /** An empty map counts nothing; a tally counts each n-gram by its occurrences, and nothing else. */
  lemma TallyCounts(ks: seq<string>, k: string)
    ensures Count(Tally(ks), k) == Occ(ks, k)
    ensures k in Tally(ks) <==> k in ks
    ensures Positive(Tally(ks))
    ensures Total(Tally(ks)) == |ks|
  {
    CountBump(map[], ks, k);
    OccPositive(ks, k);
    BumpPositive(map[], ks);
    TotalBump(map[], ks);
    assert Total(map[]) == 0;
  }

  // ---------------------------------------------------------------------
  // Properties of the specification.
  // ---------------------------------------------------------------------

  /** Claiming one more file adds its n-grams to the claiming worker's map and to no other. */
  lemma WorkerLocalsSnoc(files: seq<string>, claims: seq<nat>, numThreads: nat, n: nat, f: string, w: nat)
    requires |claims| == |files| && w < numThreads
    ensures var before := WorkerLocals(files, claims, numThreads, n);
      WorkerLocals(files + [f], claims + [w], numThreads, n) == before[w := Bump(before[w], FileNgrams(f, n))]
  {
    var before := WorkerLocals(files, claims, numThreads, n);
    var after := WorkerLocals(files + [f], claims + [w], numThreads, n);
    assert (files + [f])[..|files|] == files && (claims + [w])[..|claims|] == claims;
    forall v | 0 <= v < numThreads ensures after[v] == before[w := Bump(before[w], FileNgrams(f, n))][v] {
      var ks := WorkerNgrams(files, claims, v, n);
      assert WorkerNgrams(files + [f], claims + [w], v, n) == ks + (if v == w then FileNgrams(f, n) else []);
      if v == w {
        BumpAppend(map[], ks, FileNgrams(f, n));
      } else {
        assert ks + [] == ks;
      }
    }
  }

  /**
   However the files are claimed, the workers' local maps together count
   every n-gram of the corpus exactly once: per key and in total.
   */
  lemma {:induction false} WorkersCoverCorpus(files: seq<string>, claims: seq<nat>, numThreads: nat, n: nat, k: string)
    requires |claims| == |files| && ValidClaims(claims, numThreads)
    ensures SumCount(WorkerLocals(files, claims, numThreads, n), k) == Occ(CorpusNgrams(files, n), k)
    ensures SumTotals(WorkerLocals(files, claims, numThreads, n)) == |CorpusNgrams(files, n)|
    decreases |files|
  {
    var locals := WorkerLocals(files, claims, numThreads, n);
    if files == [] {
      SumOfEmpty(locals, k);
    } else {
      var last := |files| - 1;
      var init, initClaims, f, w := files[..last], claims[..last], files[last], claims[last];
      assert files == init + [f] && claims == initClaims + [w];
      WorkersCoverCorpus(init, initClaims, numThreads, n, k);
      var before := WorkerLocals(init, initClaims, numThreads, n);
      WorkerLocalsSnoc(init, initClaims, numThreads, n, f, w);
      assert locals == before[w := Bump(before[w], FileNgrams(f, n))];
      SumCountUpdate(before, w, Bump(before[w], FileNgrams(f, n)), k);
      SumTotalsUpdate(before, w, Bump(before[w], FileNgrams(f, n)));
      CountBump(before[w], FileNgrams(f, n), k);
      TotalBump(before[w], FileNgrams(f, n));
      OccAppend(CorpusNgrams(init, n), FileNgrams(f, n), k);
    }
  }

  /** With a single worker that claims every file, its local map is the tally of the corpus. */
  lemma {:induction false} SingleWorker(files: seq<string>, claims: seq<nat>, n: nat)
    requires |claims| == |files| && ValidClaims(claims, 1)
    ensures WorkerNgrams(files, claims, 0, n) == CorpusNgrams(files, n)
    ensures WorkerLocals(files, claims, 1, n) == [Tally(CorpusNgrams(files, n))]
    decreases |files|
  {
    if files != [] {
      var last := |files| - 1;
      assert ValidClaims(claims[..last], 1);
      SingleWorker(files[..last], claims[..last], n);
    }
  }

  /**
   Each n-gram of the corpus ends up at exactly one worker, the one its
   hash routes it to, with its number of occurrences in the whole corpus;
   no worker holds anything else.
   */
  lemma ExpectedOwnership(files: seq<string>, numThreads: nat, n: nat, owner: string -> nat, k: string, t: nat)
    requires t < numThreads
    ensures |Expected(files, numThreads, n, owner)| == numThreads
    ensures k in Expected(files, numThreads, n, owner)[t] <==>
      k in CorpusNgrams(files, n) && Destination(k, numThreads, owner) == t
    ensures k in Expected(files, numThreads, n, owner)[t] ==>
      Expected(files, numThreads, n, owner)[t][k] == Occ(CorpusNgrams(files, n), k)
  {
    var corpus := CorpusNgrams(files, n);
    TallyCounts(corpus, k);
    if k in Tally(corpus) {
      BucketsPartition(Tally(corpus), numThreads, owner, k, t);
    }
  }

  /** The reduced maps together hold one count per n-gram occurrence of the corpus. */
  lemma ExpectedConservation(files: seq<string>, numThreads: nat, n: nat, owner: string -> nat)
    requires numThreads > 0
    ensures SumTotals(Expected(files, numThreads, n, owner)) == |CorpusNgrams(files, n)|
  {
    var corpus := CorpusNgrams(files, n);
    MergedTotals(Expected(files, numThreads, n, owner), Tally(corpus), numThreads, owner);
    BucketsConserve(Tally(corpus), numThreads, owner);
    TotalBump(map[], corpus);
    assert Total(map[]) == 0;
  }

  /** With one worker the reduction changes nothing: the reduced map is the local map. */
  lemma ExpectedSingle(files: seq<string>, claims: seq<nat>, n: nat, owner: string -> nat)
    requires |claims| == |files| && ValidClaims(claims, 1)
    ensures Expected(files, 1, n, owner) == WorkerLocals(files, claims, 1, n)
  {
    SingleWorker(files, claims, n);
    SingleBucket(Tally(CorpusNgrams(files, n)), owner);
  }

  /** Every n-gram of the corpus comes from one of its files. */
  lemma {:induction false} CorpusOrigin(files: seq<string>, n: nat, k: string)
    requires k in CorpusNgrams(files, n)
    ensures exists f :: 0 <= f < |files| && k in FileNgrams(files[f], n)
    decreases |files|
  {
    var last := |files| - 1;
    if k in CorpusNgrams(files[..last], n) {
      CorpusOrigin(files[..last], n, k);
      var f :| 0 <= f < last && k in FileNgrams(files[..last][f], n);
      assert files[f] == files[..last][f];
    } else {
      assert k in FileNgrams(files[last], n);
    }
  }

  /** Every key any worker reports is `n` words of `[a-z]+` joined by single spaces. */
  lemma ExpectedShape(files: seq<string>, numThreads: nat, n: nat, owner: string -> nat, k: string, t: nat)
    requires t < numThreads && k in Expected(files, numThreads, n, owner)[t]
    ensures IsNgram(k, n)
  {
    ExpectedOwnership(files, numThreads, n, owner, k, t);
    CorpusOrigin(files, n, k);
    var f :| 0 <= f < |files| && k in FileNgrams(files[f], n);
    FileNgramShape(files[f], n, k);
  }

  // ---------------------------------------------------------------------
  // The three phases of every worker, run one after the other.
  // ---------------------------------------------------------------------

  /**
   The sweep: the next unclaimed file index is handed out to whichever
   worker asks first, and that worker counts the file into its local map.
   */
  method CountFiles(files: seq<string>, numThreads: nat, ngram: nat) returns (locals: seq<Freq>, claims: seq<nat>)
    requires numThreads > 0
    ensures |claims| == |files| && ValidClaims(claims, numThreads)
    ensures locals == WorkerLocals(files, claims, numThreads, ngram)
  {
    locals := seq(numThreads, _ => map[]);
    claims := [];
    var i := 0;
    assert locals == WorkerLocals(files[..0], claims, numThreads, ngram);
    while i < |files|
      invariant 0 <= i <= |files| && |claims| == i && ValidClaims(claims, numThreads)
      invariant locals == WorkerLocals(files[..i], claims, numThreads, ngram)
    {
      var w :| 0 <= w < numThreads;
      var local := ProcessFile(files[i], ngram, locals[w]);
      ClaimStep(files, claims, numThreads, ngram, locals, w, local);
      locals := locals[w := local];
      claims := claims + [w];
      i := i + 1;
    }
    assert files[..i] == files;
  }

  /** Worker `w` counting the next file into its map is what claiming that file specifies. */
  lemma ClaimStep(files: seq<string>, claims: seq<nat>, numThreads: nat, ngram: nat, locals: seq<Freq>, w: nat, local: Freq)
    requires |claims| < |files| && w < numThreads
    requires locals == WorkerLocals(files[..|claims|], claims, numThreads, ngram)
    requires local == Bump(locals[w], FileNgrams(files[|claims|], ngram))
    ensures locals[w := local] == WorkerLocals(files[..|claims| + 1], claims + [w], numThreads, ngram)
  {
    var i := |claims|;
    WorkerLocalsSnoc(files[..i], claims, numThreads, ngram, files[i], w);
    assert files[..i + 1] == files[..i] + [files[i]];
  }

  /** Sender `s` delivered to receiver `t` exactly bucket `t` of its local map. */
  ghost predicate Delivered(ps: Pairs, local: Freq, numThreads: nat, owner: string -> nat, t: nat)
    requires numThreads > 0
  {
    DistinctKeys(ps) && PairsToMap(ps) == Bucket(local, numThreads, owner, t)
  }

  /**
   Every worker partitions its local map and sets promise `(i, s)` of the
   matrix, for receiver `i` and sender `s`, to its bucket `i`.
   */
  method ShuffleLocals(locals: seq<Freq>, numThreads: nat, owner: string -> nat) returns (matrix: array2<Pairs>)
    requires numThreads > 0 && |locals| == numThreads
    ensures fresh(matrix) && matrix.Length0 == numThreads && matrix.Length1 == numThreads
    ensures forall t, s :: 0 <= t < numThreads && 0 <= s < numThreads ==>
      Delivered(matrix[t, s], locals[s], numThreads, owner, t)
  {
    matrix := new Pairs[numThreads, numThreads]((i, j) => []);
    var s := 0;
    while s < numThreads
      invariant 0 <= s <= numThreads
      invariant forall t, s' :: 0 <= t < numThreads && 0 <= s' < s ==>
        Delivered(matrix[t, s'], locals[s'], numThreads, owner, t)
    {
      var assignment := Partition(locals[s], numThreads, owner);
      var i := 0;
      while i < numThreads
        invariant 0 <= i <= numThreads
        invariant forall t, s' :: 0 <= t < numThreads && 0 <= s' < s ==>
          Delivered(matrix[t, s'], locals[s'], numThreads, owner, t)
        invariant forall t :: 0 <= t < i ==> Delivered(matrix[t, s], locals[s], numThreads, owner, t)
      {
        matrix[i, s] := assignment[i];
        i := i + 1;
      }
      s := s + 1;
    }
  }

  /**
   Every worker `t` takes the buckets addressed to it from each sender in
   turn, sums them into its reduced map and selects its top five.
   */
  method ReduceAll(matrix: array2<Pairs>, locals: seq<Freq>, numThreads: nat, owner: string -> nat)
    returns (merged: seq<Freq>, tops: seq<seq<Slot>>)
    requires numThreads > 0 && |locals| == numThreads
    requires matrix.Length0 == numThreads && matrix.Length1 == numThreads
    requires forall s :: 0 <= s < numThreads ==> Positive(locals[s])
    requires forall t, s :: 0 <= t < numThreads && 0 <= s < numThreads ==>
      Delivered(matrix[t, s], locals[s], numThreads, owner, t)
    ensures |merged| == numThreads && |tops| == numThreads
    ensures forall t :: 0 <= t < numThreads ==>
      merged[t] == Bucket(Combined(locals), numThreads, owner, t) && IsTopFive(merged[t], tops[t])
  {
    merged, tops := [], [];
    var t := 0;
    while t < numThreads
      invariant 0 <= t <= numThreads && |merged| == t && |tops| == t
      invariant forall r :: 0 <= r < t ==>
        merged[r] == Bucket(Combined(locals), numThreads, owner, r) && IsTopFive(merged[r], tops[r])
    {
      var updates := seq(numThreads, s requires 0 <= s < numThreads reads matrix => matrix[t, s]);
      var reduced := Merge(updates);
      MergeColumn(updates, locals, numThreads, owner, t);
      var top := TopFive.TopFive(reduced);
      merged, tops := merged + [reduced], tops + [top];
      t := t + 1;
    }
  }

  /**
   The counter's `compute`: with no worker nothing is claimed, counted or
   reported. Otherwise every file is claimed by some worker, each worker's
   local map counts the n-grams of the files it claimed, and worker `t`
   ends with bucket `t` of the corpus counts, whatever the claiming order,
   and with the top five of that bucket.
   */
  method Compute(files: seq<string>, numThreads: nat, ngram: nat, owner: string -> nat)
    returns (claims: seq<nat>, locals: seq<Freq>, merged: seq<Freq>, tops: seq<seq<Slot>>)
    ensures |locals| == numThreads && |merged| == numThreads && |tops| == numThreads
    ensures numThreads == 0 ==> claims == []
    ensures numThreads > 0 ==>
      |claims| == |files| && ValidClaims(claims, numThreads) && locals == WorkerLocals(files, claims, numThreads, ngram)
    ensures merged == Expected(files, numThreads, ngram, owner)
    ensures forall t :: 0 <= t < numThreads ==> IsTopFive(merged[t], tops[t])
  {
    if numThreads == 0 {
      return [], [], [], [];
    }
    locals, claims := CountFiles(files, numThreads, ngram);
    var corpus := CorpusNgrams(files, ngram);
    forall s | 0 <= s < numThreads ensures Positive(locals[s]) {
      BumpPositive(map[], WorkerNgrams(files, claims, s, ngram));
    }
    CombinedIsTally(files, claims, numThreads, ngram);
    var matrix := ShuffleLocals(locals, numThreads, owner);
    merged, tops := ReduceAll(matrix, locals, numThreads, owner);
  }

  /** Summing the workers' local maps key by key gives the tally of the corpus. */
  lemma CombinedIsTally(files: seq<string>, claims: seq<nat>, numThreads: nat, n: nat)
    requires |claims| == |files| && ValidClaims(claims, numThreads)
    ensures Combined(WorkerLocals(files, claims, numThreads, n)) == Tally(CorpusNgrams(files, n))
  {
    var locals := WorkerLocals(files, claims, numThreads, n);
    var corpus := CorpusNgrams(files, n);
    forall s | 0 <= s < |locals| ensures Positive(locals[s]) {
      BumpPositive(map[], WorkerNgrams(files, claims, s, n));
    }
    CombinedPositive(locals);
    BumpPositive(map[], corpus);
    forall k ensures Count(Combined(locals), k) == Count(Tally(corpus), k) {
      CountCombined(locals, k);
      WorkersCoverCorpus(files, claims, numThreads, n, k);
      TallyCounts(corpus, k);
    }
    PositiveExtensional(Combined(locals), Tally(corpus));
  }
}
