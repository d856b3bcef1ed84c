/**
 The per-file counting step: normalise the contents, cut them into clauses
 at `'|'`, cut each clause into words, and count every window of `ngram`
 consecutive words of a clause, joined by single spaces.
 */
module Tokenizer {
  import opened Text
  import opened Counts

  /**
   The n-grams of one clause, left to right: the window starting at each
   word, kept only when `n` words remain. With `n == 0` no window is ever
   complete, because the counter starts every window with one word.
   */
  function Windows(ws: seq<string>, n: nat): (r: seq<string>)
    ensures |r| <= |ws|
    ensures r != [] <==> 1 <= n <= |ws|
    decreases |ws|
  {
    if n == 0 || |ws| < n then [] else [JoinWith(ws[..n], ' ')] + Windows(ws[1..], n)
  }

  /** A clause of `w` words yields `w - n + 1` windows, and none when it has fewer than `n` words. */
  lemma {:induction false} WindowsLength(ws: seq<string>, n: nat)
    ensures |Windows(ws, n)| == if n == 0 || |ws| < n then 0 else |ws| - n + 1
    decreases |ws|
  {
    if n != 0 && |ws| >= n {
      WindowsLength(ws[1..], n);
    }
  }

  /** The `i`-th window is words `i .. i + n` of the clause, so its words are consecutive in it. */
  lemma {:induction false} WindowAt(ws: seq<string>, n: nat, i: nat)
    requires i < |Windows(ws, n)|
    ensures n >= 1 && i + n <= |ws|
    ensures Windows(ws, n)[i] == JoinWith(ws[i..i + n], ' ')
    decreases |ws|
  {
    if i > 0 {
      WindowAt(ws[1..], n, i - 1);
      assert ws[1..][i - 1..i - 1 + n] == ws[i..i + n];
    }
  }

  /** The shape of a key: `n` words of `[a-z]+` separated by single spaces. */
  predicate IsNgram(k: string, n: nat) {
    var parts := Split(k, ' ');
    |parts| == n && forall i :: 0 <= i < |parts| ==> IsWord(parts[i])
  }

  /** Every window of a clause's words has the n-gram shape, and tokenizes back to its own words. */
  lemma WindowIsNgram(ws: seq<string>, n: nat, i: nat)
    requires forall j :: 0 <= j < |ws| ==> IsWord(ws[j])
    requires i < |Windows(ws, n)|
    ensures IsNgram(Windows(ws, n)[i], n)
    ensures i + n <= |ws| && Words(Windows(ws, n)[i]) == ws[i..i + n]
  {
    WindowAt(ws, n, i);
    var window := ws[i..i + n];
    assert forall j :: 0 <= j < |window| ==> IsWord(window[j]) && ' ' !in window[j] by {
      forall j | 0 <= j < |window| ensures IsWord(window[j]) && ' ' !in window[j] {
        assert window[j] == ws[i + j];
      }
    }
    SplitJoin(window, ' ');
    WordsOfJoin(window);
  }

  /** The n-grams of a file's clauses, in order; empty clauses are skipped. */
  function ClauseNgrams(clauses: seq<string>, n: nat): seq<string>
    decreases |clauses|
  {
    if clauses == [] then []
    else
      var last := clauses[|clauses| - 1];
      ClauseNgrams(clauses[..|clauses| - 1], n) + (if last != [] then Windows(Words(last), n) else [])
  }

  /** The clauses of a file: the pieces of its normalised text between separators. */
  function Clauses(contents: string): seq<string> {
    Split(NormalizeText(contents), SEPARATOR)
  }

  /** Every n-gram a file's contents yield, in the order the counter visits them. */
  function FileNgrams(contents: string, n: nat): seq<string> {
    ClauseNgrams(Clauses(contents), n)
  }

  /**
   Every n-gram of a clause sequence comes from a single non-empty clause
   free of `'|'`, as one of that clause's windows.
   */
  lemma {:induction false} ClauseNgramsOrigin(clauses: seq<string>, n: nat, k: string)
    requires k in ClauseNgrams(clauses, n)
    ensures exists c :: 0 <= c < |clauses| && clauses[c] != [] && k in Windows(Words(clauses[c]), n)
    decreases |clauses|
  {
    var init := clauses[..|clauses| - 1];
    var last := clauses[|clauses| - 1];
    if k in ClauseNgrams(init, n) {
      ClauseNgramsOrigin(init, n, k);
      var c :| 0 <= c < |init| && init[c] != [] && k in Windows(Words(init[c]), n);
      assert clauses[c] == init[c];
    } else {
      assert last != [] && k in Windows(Words(last), n);
    }
  }

  /**
   The shape of every key the counter adds: exactly `n` words of `[a-z]+`
   joined by single spaces, all consecutive words of one clause, and that
   clause contains no `'|'`.
   */
  lemma FileNgramShape(contents: string, n: nat, k: string)
    requires k in FileNgrams(contents, n)
    ensures IsNgram(k, n)
    ensures exists c :: (0 <= c < |Clauses(contents)|
      && Clauses(contents)[c] != [] && SEPARATOR !in Clauses(contents)[c]
      && k in Windows(Words(Clauses(contents)[c]), n))
  {
    ClauseNgramsOrigin(Clauses(contents), n, k);
    var c :| 0 <= c < |Clauses(contents)| && Clauses(contents)[c] != []
      && k in Windows(Words(Clauses(contents)[c]), n);
    var ws := Words(Clauses(contents)[c]);
    var i :| 0 <= i < |Windows(ws, n)| && Windows(ws, n)[i] == k;
    WindowIsNgram(ws, n, i);
  }

  // ---------------------------------------------------------------------
  // The counting loops.
  // ---------------------------------------------------------------------

  /** `std::transform` of an array onto itself. */
  method Transform(a: array<char>, f: char -> char)
    modifies a
    ensures forall i :: 0 <= i < a.Length ==> a[i] == f(old(a[i]))
  {
    var i := 0;
    while i < a.Length
      invariant 0 <= i <= a.Length
      invariant forall j :: 0 <= j < i ==> a[j] == f(old(a[j]))
      invariant forall j :: i <= j < a.Length ==> a[j] == old(a[j])
    {
      a[i] := f(a[i]);
      i := i + 1;
    }
  }

  /**
   The loops over one clause's words: from each word, grow a window one
   word at a time until it holds `ngram` words or the clause ends, and
   count it when it is complete.
   */
  method CountClause(words: seq<string>, ngram: nat, freq: Freq) returns (freq': Freq)
    ensures freq' == Bump(freq, Windows(words, ngram))
  {
    ghost var windows := Windows(words, ngram);
    WindowsLength(words, ngram);
    freq' := freq;
    var i := 0;
    while i < |words|
      invariant 0 <= i <= |words|
      invariant freq' == Bump(freq, windows[..if i < |windows| then i else |windows|])
    {
      freq' := CountWindowAt(words, i, ngram, freq');
      if i < |windows| {
        BumpSnoc(freq, windows, i);
      }
      i := i + 1;
    }
    assert windows[..|windows|] == windows;
  }

  /**
   One iteration over the words: grow the window that starts at word `i`
   and count it when it is complete, which is when it is the `i`-th window
   of the clause.
   */
  method CountWindowAt(words: seq<string>, i: nat, ngram: nat, freq: Freq) returns (freq': Freq)
    requires i < |words|
    ensures freq' == if i < |Windows(words, ngram)| then Inc(freq, Windows(words, ngram)[i]) else freq
  {
    WindowsLength(words, ngram);
    var current, n := GrowWindow(words, i, ngram);
    if n == ngram {
      WindowAt(words, ngram, i);
      freq' := Inc(freq, current);
    } else {
      freq' := freq;
    }
  }

  /**
   Counting a clause of `w` words adds `max(0, w - ngram + 1)` to the total
   and never lowers a count; a clause shorter than `ngram` adds nothing.
   */
  lemma ClauseEffect(words: seq<string>, ngram: nat, freq: Freq, k: string)
    ensures var freq' := Bump(freq, Windows(words, ngram));
      && Total(freq') == Total(freq) + (if ngram == 0 || |words| < ngram then 0 else |words| - ngram + 1)
      && Count(freq', k) >= Count(freq, k)
      && (k !in Windows(words, ngram) ==> Count(freq', k) == Count(freq, k))
  {
    WindowsLength(words, ngram);
    TotalBump(freq, Windows(words, ngram));
    CountBump(freq, Windows(words, ngram), k);
    OccPositive(Windows(words, ngram), k);
  }

  /**
   The innermost loop: starting from word `i`, append words with a space
   until `ngram` words are joined or the clause runs out. `n` is the number
   of words joined, so the window is complete exactly when `n == ngram`.
   */
  method GrowWindow(words: seq<string>, i: nat, ngram: nat) returns (current: string, n: nat)
    requires i < |words|
    ensures n == if ngram <= 1 then 1 else if i + ngram <= |words| then ngram else |words| - i
    ensures current == JoinWith(words[i..i + n], ' ')
  {
    n := 1;
    current := words[i];
    var j := i + 1;
    while n < ngram && j < |words|
      invariant 1 <= n && j == i + n && j <= |words|
      invariant n <= ngram || n == 1
      invariant current == JoinWith(words[i..j], ' ')
    {
      JoinSnoc(words[i..j], words[j]);
      assert words[i..j] + [words[j]] == words[i..j + 1];
      current := current + " " + words[j];
      n := n + 1;
      j := j + 1;
    }
  }

  /** Counting one more element of a sequence is one more increment. */
  lemma BumpSnoc(m: Freq, ks: seq<string>, i: nat)
    requires i < |ks|
    ensures Bump(m, ks[..i + 1]) == Inc(Bump(m, ks[..i]), ks[i])
  {
    assert ks[..i + 1][..i] == ks[..i];
  }

  /** Joining one more word appends a space and the word. */
  lemma {:induction false} JoinSnoc(ws: seq<string>, w: string)
    requires |ws| >= 1
    ensures JoinWith(ws + [w], ' ') == JoinWith(ws, ' ') + " " + w
    decreases |ws|
  {
    if |ws| == 1 {
      assert (ws + [w])[1..] == [w];
    } else {
      assert (ws + [w])[1..] == ws[1..] + [w];
      JoinSnoc(ws[1..], w);
    }
  }

  /**
   Process one file's contents into `freq`: apply the three character maps
   to a buffer, then count every window of every non-empty clause.
   */
  method ProcessFile(contents: string, ngram: nat, freq: Freq) returns (freq': Freq)
    ensures freq' == Bump(freq, FileNgrams(contents, ngram))
  {
    var text := NormalizeBuffer(contents);
    var clauses := Split(text, SEPARATOR);
    freq' := CountClauses(clauses, ngram, freq);
  }

  /** The three `std::transform` passes over a copy of the contents. */
  method NormalizeBuffer(contents: string) returns (text: string)
    ensures text == NormalizeText(contents)
  {
    var buffer := new char[|contents|](i requires 0 <= i < |contents| => contents[i]);
    Transform(buffer, ToLowerCase);
    Transform(buffer, RemoveNewlineAndTab);
    Transform(buffer, RemovePunctuationAndNumbers);
    text := buffer[..];
  }

  /** The loop over the clauses: empty ones are skipped, the others counted. */
  method CountClauses(clauses: seq<string>, ngram: nat, freq: Freq) returns (freq': Freq)
    ensures freq' == Bump(freq, ClauseNgrams(clauses, ngram))
  {
    freq' := freq;
    var c := 0;
    while c < |clauses|
      invariant 0 <= c <= |clauses|
      invariant freq' == Bump(freq, ClauseNgrams(clauses[..c], ngram))
    {
      ClauseStep(clauses, ngram, freq, c);
      if clauses[c] != [] {
        var words := Words(clauses[c]);
        freq' := CountClause(words, ngram, freq');
      }
      c := c + 1;
    }
    assert clauses[..|clauses|] == clauses;
  }

  /** Counting one more clause counts its windows, or nothing when it is empty. */
  lemma ClauseStep(clauses: seq<string>, ngram: nat, freq: Freq, c: nat)
    requires c < |clauses|
    ensures var before := Bump(freq, ClauseNgrams(clauses[..c], ngram));
      Bump(freq, ClauseNgrams(clauses[..c + 1], ngram))
        == if clauses[c] != [] then Bump(before, Windows(Words(clauses[c]), ngram)) else before
  {
    assert clauses[..c + 1][..c] == clauses[..c];
    var tail := if clauses[c] != [] then Windows(Words(clauses[c]), ngram) else [];
    BumpAppend(freq, ClauseNgrams(clauses[..c], ngram), tail);
    assert ClauseNgrams(clauses[..c], ngram) + [] == ClauseNgrams(clauses[..c], ngram);
  }

  /**
   Processing a file only adds: each key gains exactly its number of
   occurrences among the file's n-grams, keys it does not yield keep their
   count, and the total grows by the number of windows.
   */
  lemma ProcessFileEffect(contents: string, ngram: nat, freq: Freq, k: string)
    ensures var freq' := Bump(freq, FileNgrams(contents, ngram));
      && Count(freq', k) == Count(freq, k) + Occ(FileNgrams(contents, ngram), k)
      && Count(freq', k) >= Count(freq, k)
      && (k !in FileNgrams(contents, ngram) ==> Count(freq', k) == Count(freq, k))
      && Total(freq') == Total(freq) + |FileNgrams(contents, ngram)|
  {
    var ks := FileNgrams(contents, ngram);
    CountBump(freq, ks, k);
    TotalBump(freq, ks);
    if k !in ks {
      OccPositive(ks, k);
    }
  }

  /** An empty file yields no n-gram. */
  lemma EmptyFile(ngram: nat)
    ensures FileNgrams([], ngram) == []
  {
    var clauses: seq<string> := [[]];
    assert Clauses([]) == clauses;
    assert clauses[..0] == [];
  }
}
