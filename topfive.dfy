/**
 The per-worker report: the five entries of the merged map with the largest
 counts, in non-increasing count order, in a five-slot vector whose unused
 slots keep the default pair `("", 0)` and are printed as `...`.
 */
module TopFive {
  import opened Counts

  /** One slot of the result vector. */
  type Slot = (string, nat)

  const SLOTS: nat := 5

  /** A default-constructed `std::pair<std::string, uint64_t>`. */
  const EMPTY: Slot := ("", 0)

  /** `std::vector<...> top_five(5)`: five default pairs. */
  const INITIAL: seq<Slot> := [EMPTY, EMPTY, EMPTY, EMPTY, EMPTY]

  function Min(a: nat, b: nat): nat {
    if a <= b then a else b
  }

  /** The n-grams held in the first `n` slots. */
  ghost function Selected(top: seq<Slot>, n: nat): set<string>
    requires n <= |top|
  {
    set i | 0 <= i < n :: top[i].0
  }

  predicate SortedDescending(top: seq<Slot>, n: nat)
    requires n <= |top|
  {
    forall i, j :: 0 <= i < j < n ==> top[i].1 >= top[j].1
  }

  /**
   What `partial_sort_copy` with the "greater count" comparison leaves in
   a five-slot vector: the first `min(5, |m|)` slots hold distinct entries of
   `m` in non-increasing count order, no entry left out has a larger count
   than the last one selected, and the other slots are untouched defaults.
   Which of several equal-count entries is chosen, and their order, is not
   fixed. Consequently the first slot holds a largest count of `m`, and no
   entry left out has a larger count than any selected one.
   */
  ghost predicate IsTopFive(m: Freq, top: seq<Slot>)
    ensures IsTopFive(m, top) && |top| == SLOTS && |m| > 0 ==> forall k :: k in m ==> m[k] <= top[0].1
    ensures IsTopFive(m, top) && |top| == SLOTS ==>
      forall k, i :: (0 <= i < Min(SLOTS, |m|) && k in m && m[k] > top[i].1
        ==> k in Selected(top, Min(SLOTS, |m|)))
  {
    && |top| == SLOTS
    && var n := Min(SLOTS, |m|);
    && (forall i :: 0 <= i < n ==> top[i].0 in m && m[top[i].0] == top[i].1)
    && (forall i, j :: 0 <= i < j < n ==> top[i].0 != top[j].0)
    && SortedDescending(top, n)
    && (forall k :: k in m && k !in Selected(top, n) ==> 0 < n && m[k] <= top[n - 1].1)
    && (forall i :: n <= i < SLOTS ==> top[i] == EMPTY)
  }

  /** The first `filled` slots hold distinct entries of `m`, all among `done`. */
  ghost predicate Chosen(m: Freq, done: set<string>, top: seq<Slot>, filled: nat)
    requires filled <= |top|
  {
    && (forall i :: 0 <= i < filled ==> top[i].0 in done && top[i].0 in m && m[top[i].0] == top[i].1)
    && (forall i, j :: 0 <= i < j < filled ==> top[i].0 != top[j].0)
  }

  /** Every entry of `done` left out is no larger than the last slot, and is left out only once all five are filled. */
  ghost predicate Dominated(m: Freq, done: set<string>, top: seq<Slot>, filled: nat)
    requires filled <= |top| == SLOTS
  {
    forall k :: k in done && k in m && k !in Selected(top, filled) ==> filled == SLOTS && m[k] <= top[SLOTS - 1].1
  }

  /** The slots from `filled` on keep their default value. */
  ghost predicate Defaults(top: seq<Slot>, filled: nat) {
    forall i :: filled <= i < |top| ==> top[i] == EMPTY
  }

  /** The state of the selection after the entries of `done` have been seen. */
  ghost predicate Progress(m: Freq, done: set<string>, top: seq<Slot>, filled: nat) {
    && |top| == SLOTS
    && filled == Min(SLOTS, |done|)
    && Chosen(m, done, top, filled)
    && SortedDescending(top, filled)
    && Dominated(m, done, top, filled)
    && Defaults(top, filled)
  }

  /**
   Select the five largest entries: every entry is offered in turn; while
   fewer than five are held it is inserted, afterwards it replaces the
   smallest one held when its count is larger.
   */
  method TopFive(reduced: Freq) returns (top: seq<Slot>)
    ensures IsTopFive(reduced, top)
  {
    top := INITIAL;
    var filled := 0;
    var rest := reduced.Keys;
    ghost var done: set<string> := {};
    ProgressStart(reduced);
    while rest != {}
      invariant rest <= reduced.Keys && done == reduced.Keys - rest
      invariant Progress(reduced, done, top, filled)
      decreases rest
    {
      var k :| k in rest;
      top, filled := Offer(reduced, done, top, filled, k);
      rest := rest - {k};
      done := done + {k};
    }
    ProgressDone(reduced, top, filled);
  }

  /**
   Offer one more entry: while fewer than five are held it is inserted in
   order; afterwards it replaces the last one when its count is strictly
   larger, and is passed over otherwise.
   */
  method Offer(m: Freq, ghost done: set<string>, top: seq<Slot>, filled: nat, k: string)
    returns (top': seq<Slot>, filled': nat)
    requires Progress(m, done, top, filled) && k in m && k !in done
    ensures Progress(m, done + {k}, top', filled')
  {
    var c := m[k];
    if filled < SLOTS {
      var pos;
      top', pos := InsertSorted(top, filled, (k, c));
      ProgressAppend(m, done, top, filled, top', pos, k);
      filled' := filled + 1;
    } else if c > top[SLOTS - 1].1 {
      var pos;
      top', pos := InsertSorted(top, SLOTS - 1, (k, c));
      ProgressReplace(m, done, top, top', pos, k);
      filled' := filled;
    } else {
      ProgressSkip(m, done, top, k);
      top', filled' := top, filled;
    }
  }

  /** Before any entry is offered, all five slots hold the default pair. */
  lemma ProgressStart(m: Freq)
    ensures Progress(m, {}, INITIAL, 0)
  {
  }

  /** Once every entry has been offered, the selection is the top five. */
  lemma ProgressDone(m: Freq, top: seq<Slot>, filled: nat)
    requires Progress(m, m.Keys, top, filled)
    ensures IsTopFive(m, top)
  {
    assert |m.Keys| == |m|;
  }

  /** `top'` is `top` with `e` inserted at `pos` into the first `len` slots, slot `len` overwritten. */
  ghost predicate Inserted(top: seq<Slot>, top': seq<Slot>, len: nat, pos: nat, e: Slot) {
    && len < |top| == |top'| && pos <= len
    && (forall i :: 0 <= i < pos ==> top'[i] == top[i])
    && top'[pos] == e
    && (forall i :: pos < i <= len ==> top'[i] == top[i - 1])
    && (forall i :: len < i < |top| ==> top'[i] == top[i])
  }

  /**
   Insert `e` into the sorted prefix `top[..len]`, shifting the smaller
   entries up by one; slot `len` is overwritten. `pos` is where `e` lands.
   */
  method InsertSorted(top: seq<Slot>, len: nat, e: Slot) returns (top': seq<Slot>, pos: nat)
    requires len < |top| && SortedDescending(top, len)
    ensures Inserted(top, top', len, pos, e)
    ensures SortedDescending(top', len + 1)
  {
    top' := top;
    var j := len;
    while j > 0 && top'[j - 1].1 < e.1
      invariant 0 <= j <= len && |top'| == |top|
      invariant forall i :: 0 <= i < j ==> top'[i] == top[i]
      invariant forall i :: j < i <= len ==> top'[i] == top[i - 1]
      invariant forall i :: len < i < |top| ==> top'[i] == top[i]
      invariant forall i :: j <= i < len ==> top[i].1 < e.1
    {
      top' := top'[j := top'[j - 1]];
      j := j - 1;
    }
    top' := top'[j := e];
    pos := j;
  }

  lemma SelectedAfterInsert(top: seq<Slot>, top': seq<Slot>, len: nat, pos: nat, e: Slot)
    requires Inserted(top, top', len, pos, e)
    ensures Selected(top', len + 1) == Selected(top, len) + {e.0}
  {
    forall x | x in Selected(top, len) ensures x in Selected(top', len + 1) {
      var i :| 0 <= i < len && top[i].0 == x;
      if i < pos {
        assert top'[i].0 == x;
      } else {
        assert top'[i + 1] == top[i];
      }
    }
    forall x | x in Selected(top', len + 1) ensures x in Selected(top, len) + {e.0} {
      var i :| 0 <= i < len + 1 && top'[i].0 == x;
      if i < pos {
        assert top[i].0 == x;
      } else if pos < i {
        assert top[i - 1].0 == x;
      }
    }
    assert top'[pos].0 == e.0;
  }

  /**
   Inserting a fresh entry of `m` into a prefix of distinct entries of `m`
   seen so far gives a prefix one longer of distinct entries seen so far.
   */
  lemma InsertFresh(m: Freq, done: set<string>, top: seq<Slot>, top': seq<Slot>, len: nat, pos: nat, k: string)
    requires k in m && k !in done
    requires Inserted(top, top', len, pos, (k, m[k]))
    requires Chosen(m, done, top, len)
    ensures Chosen(m, done + {k}, top', len + 1)
    ensures Selected(top', len + 1) == Selected(top, len) + {k}
  {
    SelectedAfterInsert(top, top', len, pos, (k, m[k]));
    forall i | 0 <= i < len + 1
      ensures top'[i].0 in done + {k} && top'[i].0 in m && m[top'[i].0] == top'[i].1
    {
      if i < pos {
        assert top'[i] == top[i];
      } else if pos < i {
        assert top'[i] == top[i - 1];
      }
    }
    forall i, j | 0 <= i < j < len + 1 ensures top'[i].0 != top'[j].0 {
      if i == pos {
        assert top'[j] == top[j - 1];
      } else if j == pos {
        assert top'[i] == top[i];
      } else {
        var i0 := if i < pos then i else i - 1;
        var j0 := if j < pos then j else j - 1;
        assert top'[i] == top[i0] && top'[j] == top[j0] && i0 < j0;
      }
    }
  }

  /** While fewer than five are held, a new entry is simply added. */
  lemma ProgressAppend(m: Freq, done: set<string>, top: seq<Slot>, filled: nat, top': seq<Slot>, pos: nat, k: string)
    requires Progress(m, done, top, filled) && k in m && k !in done && filled < SLOTS
    requires Inserted(top, top', filled, pos, (k, m[k])) && SortedDescending(top', filled + 1)
    ensures Progress(m, done + {k}, top', filled + 1)
  {
    InsertFresh(m, done, top, top', filled, pos, k);
    assert filled == |done| && |done + {k}| == |done| + 1;
    assert filled + 1 == Min(SLOTS, |done + {k}|);
    forall x | x in done + {k} && x in m ensures x in Selected(top', filled + 1) {
      if x != k {
        assert x in Selected(top, filled);
      }
    }
    assert forall i :: filled + 1 <= i < SLOTS ==> top'[i] == top[i] == EMPTY;
  }

  /** Once five are held, a larger entry pushes out the smallest one. */
  lemma ProgressReplace(m: Freq, done: set<string>, top: seq<Slot>, top': seq<Slot>, pos: nat, k: string)
    requires Progress(m, done, top, SLOTS) && k in m && k !in done && m[k] > top[SLOTS - 1].1
    requires Inserted(top, top', SLOTS - 1, pos, (k, m[k])) && SortedDescending(top', SLOTS)
    ensures Progress(m, done + {k}, top', SLOTS)
  {
    InsertFresh(m, done, top, top', SLOTS - 1, pos, k);
    assert Selected(top, SLOTS) == Selected(top, SLOTS - 1) + {top[SLOTS - 1].0};
    assert top'[SLOTS - 1].1 >= top[SLOTS - 1].1 by {
      if pos < SLOTS - 1 {
        assert top'[SLOTS - 1] == top[SLOTS - 2];
      }
    }
    assert |done + {k}| == |done| + 1;
  }

  /** Once five are held, an entry no larger than the smallest held is passed over. */
  lemma ProgressSkip(m: Freq, done: set<string>, top: seq<Slot>, k: string)
    requires Progress(m, done, top, SLOTS) && k in m && k !in done && m[k] <= top[SLOTS - 1].1
    ensures Progress(m, done + {k}, top, SLOTS)
  {
    assert |done + {k}| == |done| + 1;
  }

  // ---------------------------------------------------------------------
  // The printed report.
  // ---------------------------------------------------------------------

  /** One printed line of a worker's block. */
  datatype Line = Ellipsis | Shown(ngram: string, count: nat)

  /** A slot with count 0 prints as `...`, any other as `ngram: count`. */
  function ReportLine(s: Slot): (l: Line)
    ensures l == Ellipsis <==> s.1 == 0
    ensures l.Shown? ==> l.ngram == s.0 && l.count == s.1
  {
    if s.1 == 0 then Ellipsis else Shown(s.0, s.1)
  }

  /** One line per slot: `...` exactly for the slots with count 0, the slot itself for every other. */
  function Report(top: seq<Slot>): (r: seq<Line>)
    ensures |r| == |top|
    ensures forall i :: 0 <= i < |top| ==> (r[i] == Ellipsis <==> top[i].1 == 0)
    ensures forall i :: 0 <= i < |top| ==> r[i].Shown? ==> r[i] == Shown(top[i].0, top[i].1)
  {
    seq(|top|, i requires 0 <= i < |top| => ReportLine(top[i]))
  }

  /**
   Since the counter never stores a zero count, exactly the slots beyond
   the number of distinct n-grams print as `...`; the others print the
   selected entries.
   */
  lemma ReportPlaceholders(m: Freq, top: seq<Slot>, i: nat)
    requires Positive(m) && IsTopFive(m, top) && i < SLOTS
    ensures |Report(top)| == SLOTS
    ensures Report(top)[i] == Ellipsis <==> i >= Min(SLOTS, |m|)
    ensures i < Min(SLOTS, |m|) ==> Report(top)[i] == Shown(top[i].0, m[top[i].0])
  {
  }
}
