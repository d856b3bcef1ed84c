/**
 Character normalisation and the two ways the counter cuts text apart:
 splitting on a separator character, and extracting the maximal runs of
 lower-case ASCII letters that make up words.
 */
module Text {

  /** The characters a word may consist of: `[a-z]`. */
  predicate IsLower(c: char) {
    'a' <= c <= 'z'
  }

  predicate IsUpper(c: char) {
    'A' <= c <= 'Z'
  }

  /** A word as the tokenizer sees it: a non-empty run of `[a-z]`. */
  predicate IsWord(w: string) {
    |w| > 0 && forall i :: 0 <= i < |w| ==> IsLower(w[i])
  }

  /** The code points the source maps to the clause separator. */
  predicate IsPunctuation(c: char) {
    33 <= c as int <= 64 || 91 <= c as int <= 96 || 123 <= c as int <= 126
  }

  const SEPARATOR: char := '|'

  // ---------------------------------------------------------------------
  // The three per-character maps, applied to a file's contents in this order.
  // ---------------------------------------------------------------------

  /** ASCII upper case becomes lower case: each of 65..90 gains 32, nothing else changes. */
  function ToLowerCase(c: char): (r: char)
    ensures r != c <==> IsUpper(c)
    ensures IsUpper(c) ==> IsLower(r) && r as int - 'a' as int == c as int - 'A' as int
  {
    if 65 <= c as int <= 90 then (c as int + 32) as char else c
  }

  /** Tab (9) and newline (10) become a space (32); nothing else changes. */
  function RemoveNewlineAndTab(c: char): (r: char)
    ensures r != c <==> c == '\t' || c == '\n'
    ensures r != c ==> r == ' '
  {
    if c as int == 9 || c as int == 10 then 32 as char else c
  }

  /** Digits, punctuation and symbols become the separator `'|'` (124); nothing else changes. */
  function RemovePunctuationAndNumbers(c: char): (r: char)
    ensures r == SEPARATOR <==> IsPunctuation(c) || c == SEPARATOR
    ensures r != c ==> IsPunctuation(c)
  {
    if IsPunctuation(c) then 124 as char else c
  }

  /** The composition the file processing applies, lower-casing first. */
  function Normalize(c: char): char {
    RemovePunctuationAndNumbers(RemoveNewlineAndTab(ToLowerCase(c)))
  }

  /** No upper-case letter survives lower-casing, so a second pass changes nothing. */
  lemma ToLowerCaseIdempotent(c: char)
    ensures !IsUpper(ToLowerCase(c))
    ensures ToLowerCase(ToLowerCase(c)) == ToLowerCase(c)
  {
  }

  /** No tab or newline survives, so a second pass changes nothing. */
  lemma RemoveNewlineAndTabIdempotent(c: char)
    ensures RemoveNewlineAndTab(c) != '\t' && RemoveNewlineAndTab(c) != '\n'
    ensures RemoveNewlineAndTab(RemoveNewlineAndTab(c)) == RemoveNewlineAndTab(c)
  {
  }

  /**
   The separator lies in the range it is produced from and is the only
   punctuation left, so the map is idempotent.
   */
  lemma RemovePunctuationAndNumbersIdempotent(c: char)
    ensures IsPunctuation(RemovePunctuationAndNumbers(c)) ==> RemovePunctuationAndNumbers(c) == SEPARATOR
    ensures RemovePunctuationAndNumbers(RemovePunctuationAndNumbers(c)) == RemovePunctuationAndNumbers(c)
  {
  }

  /**
   What is left after the three maps: no upper-case letter, no tab or
   newline, no digit or punctuation of 33..64; letters of either case become
   word characters and nothing else does; the separator stands exactly for
   the characters of the punctuation ranges.
   */
  lemma NormalizeClasses(c: char)
    ensures var r := Normalize(c);
      && !(65 <= r as int <= 90) && r as int != 9 && r as int != 10 && !(33 <= r as int <= 64)
      && (IsLower(r) <==> IsLower(c) || IsUpper(c))
      && (r == SEPARATOR <==> IsPunctuation(c))
      && (r == ' ' <==> c == ' ' || c == '\t' || c == '\n')
      && (!IsUpper(c) && !IsPunctuation(c) && c != '\t' && c != '\n' ==> r == c)
  {
  }

  lemma NormalizeIdempotent(c: char)
    ensures Normalize(Normalize(c)) == Normalize(c)
  {
  }

  /**
   The normalised text: same length, and at every position no upper-case
   letter, tab, newline, digit or punctuation of 33..64 is left; a position
   holds a word character exactly where the contents held a letter of
   either case, the separator exactly where they held punctuation or a
   digit, and a space exactly where they held a space, tab or newline.
   */
  function NormalizeText(s: string): (r: string)
    ensures |r| == |s|
    ensures forall i :: 0 <= i < |r| ==>
      !IsUpper(r[i]) && r[i] != '\t' && r[i] != '\n' && !(33 <= r[i] as int <= 64)
    ensures forall i :: 0 <= i < |r| ==> (IsLower(r[i]) <==> IsLower(s[i]) || IsUpper(s[i]))
    ensures forall i :: 0 <= i < |r| ==> (r[i] == SEPARATOR <==> IsPunctuation(s[i]))
    ensures forall i :: 0 <= i < |r| ==> (r[i] == ' ' <==> s[i] == ' ' || s[i] == '\t' || s[i] == '\n')
  {
    var r := seq(|s|, i requires 0 <= i < |s| => Normalize(s[i]));
    assert forall i :: 0 <= i < |r| ==> r[i] == Normalize(s[i]);
    forall i | 0 <= i < |r| {
      NormalizeClasses(s[i]);
    }
    r
  }

  // ---------------------------------------------------------------------
  // Splitting on a separator and joining with one.
  // ---------------------------------------------------------------------

  /**
   All pieces of `s` between occurrences of `sep`, empty pieces included;
   the effect of a token iterator that yields the text between matches.
   */
  function Split(s: string, sep: char): (r: seq<string>)
    ensures |r| >= 1
    ensures forall i :: 0 <= i < |r| ==> sep !in r[i]
    decreases |s|
  {
    if s == [] then [[]]
    else
      var rest := Split(s[1..], sep);
      if s[0] == sep then [[]] + rest else [[s[0]] + rest[0]] + rest[1..]
  }

  /** The pieces glued back together with one `sep` between neighbours. */
  function JoinWith(ws: seq<string>, sep: char): string
    decreases |ws|
  {
    if |ws| == 0 then []
    else if |ws| == 1 then ws[0]
    else ws[0] + [sep] + JoinWith(ws[1..], sep)
  }

  /** Re-joining the pieces gives back the text: Split loses nothing. */
  lemma {:induction false} JoinSplit(s: string, sep: char)
    ensures JoinWith(Split(s, sep), sep) == s
    decreases |s|
  {
    if s != [] {
      var rest := Split(s[1..], sep);
      JoinSplit(s[1..], sep);
      if s[0] == sep {
        assert Split(s, sep) == [[]] + rest;
        assert JoinWith([[]] + rest, sep) == [] + [sep] + JoinWith(rest, sep);
      } else {
        var r := [[s[0]] + rest[0]] + rest[1..];
        assert Split(s, sep) == r;
        if |rest| == 1 {
          assert JoinWith(r, sep) == [s[0]] + rest[0];
        } else {
          assert r[1..] == rest[1..];
          assert JoinWith(rest, sep) == rest[0] + [sep] + JoinWith(rest[1..], sep);
          assert JoinWith(r, sep) == [s[0]] + rest[0] + [sep] + JoinWith(rest[1..], sep);
        }
      }
    }
  }

  /** A piece without the separator is split into itself. */
  lemma {:induction false} SplitFree(w: string, sep: char)
    requires sep !in w
    ensures Split(w, sep) == [w]
    decreases |w|
  {
    if w != [] {
      SplitFree(w[1..], sep);
      assert [w[0]] + w[1..] == w;
    }
  }

  /** A separator-free piece followed by a separator is split off as the first piece. */
  lemma {:induction false} SplitCons(w: string, sep: char, rest: string)
    requires sep !in w
    ensures Split(w + [sep] + rest, sep) == [w] + Split(rest, sep)
    decreases |w|
  {
    var s := w + [sep] + rest;
    if w == [] {
      assert s[1..] == rest;
    } else {
      assert s[1..] == w[1..] + [sep] + rest;
      SplitCons(w[1..], sep, rest);
      assert [w[0]] + w[1..] == w;
    }
  }

  /** Splitting undoes joining, as long as no piece holds the separator. */
  lemma {:induction false} SplitJoin(ws: seq<string>, sep: char)
    requires |ws| >= 1
    requires forall i :: 0 <= i < |ws| ==> sep !in ws[i]
    ensures Split(JoinWith(ws, sep), sep) == ws
    decreases |ws|
  {
    if |ws| == 1 {
      SplitFree(ws[0], sep);
    } else {
      SplitJoin(ws[1..], sep);
      SplitCons(ws[0], sep, JoinWith(ws[1..], sep));
      assert [ws[0]] + ws[1..] == ws;
    }
  }

  // ---------------------------------------------------------------------
  // Words: the maximal runs of [a-z].
  // ---------------------------------------------------------------------

  /** The length of the run of `[a-z]` at the start of `s`. */
  function LetterRun(s: string): (k: nat)
    ensures k <= |s|
    ensures forall i :: 0 <= i < k ==> IsLower(s[i])
    ensures k < |s| ==> !IsLower(s[k])
  {
    if s == [] || !IsLower(s[0]) then 0 else 1 + LetterRun(s[1..])
  }

  /**
   The words of a clause, left to right: the leftmost-longest matches of
   `[a-z]+`, which are the maximal runs of lower-case letters.
   */
  function Words(s: string): (ws: seq<string>)
    ensures forall i :: 0 <= i < |ws| ==> IsWord(ws[i])
    decreases |s|
  {
    if s == [] then []
    else if !IsLower(s[0]) then Words(s[1..])
    else
      var k := LetterRun(s);
      [s[..k]] + Words(s[k..])
  }

  /** The letter run of a prefix is kept when what follows cannot extend it. */
  lemma {:induction false} LetterRunExtend(a: string, t: string)
    requires LetterRun(a) < |a| || (t != [] && !IsLower(t[0]))
    ensures LetterRun(a + t) == LetterRun(a)
    decreases |a|
  {
    if a != [] && IsLower(a[0]) {
      assert (a + t)[1..] == a[1..] + t;
      LetterRunExtend(a[1..], t);
    }
  }

  /** A string with no letter has no word. */
  lemma {:induction false} WordsNone(s: string)
    requires forall i :: 0 <= i < |s| ==> !IsLower(s[i])
    ensures Words(s) == []
    decreases |s|
  {
    if s != [] {
      WordsNone(s[1..]);
    }
  }

  /** A word on its own is tokenized as itself. */
  lemma WordsOfWord(w: string)
    requires IsWord(w)
    ensures Words(w) == [w]
  {
    assert LetterRun(w) == |w|;
    assert w[..|w|] == w;
    assert w[|w|..] == [];
  }

  /**
   Any character that is not a letter separates words, and the words on
   either side of it are tokenized independently.
   */
  lemma {:induction false} WordsSeparated(a: string, c: char, b: string)
    requires !IsLower(c)
    ensures Words(a + [c] + b) == Words(a) + Words(b)
    decreases |a|
  {
    var s := a + [c] + b;
    if a == [] {
      assert s[1..] == b;
    } else if !IsLower(a[0]) {
      assert s[1..] == a[1..] + [c] + b;
      WordsSeparated(a[1..], c, b);
    } else {
      var k := LetterRun(a);
      LetterRunExtend(a, [c] + b);
      assert a + [c] + b == a + ([c] + b);
      assert s[..k] == a[..k];
      assert s[k..] == a[k..] + [c] + b;
      WordsSeparated(a[k..], c, b);
    }
  }

  /** Tokenizing the space-joined words gives the same words back. */
  lemma {:induction false} WordsOfJoin(ws: seq<string>)
    requires forall i :: 0 <= i < |ws| ==> IsWord(ws[i])
    ensures Words(JoinWith(ws, ' ')) == ws
    decreases |ws|
  {
    if |ws| == 0 {
    } else if |ws| == 1 {
      WordsOfWord(ws[0]);
    } else {
      WordsOfJoin(ws[1..]);
      WordsOfWord(ws[0]);
      WordsSeparated(ws[0], ' ', JoinWith(ws[1..], ' '));
      assert [ws[0]] + ws[1..] == ws;
    }
  }
}
