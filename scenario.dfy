/**
 A worked example: one file holding "The cat sat. The cat ran.", counted
 in bigrams by a single worker.
 */
module Scenario {
  import opened Text
  import opened Counts
  import opened Tokenizer
  import opened Shuffle
  import opened TopFive
  import opened NgramCounter

  const SAMPLE: string := "The cat sat. The cat ran."

  const SAMPLE_COUNTS: Freq := map["the cat" := 2, "cat sat" := 1, "cat ran" := 1]

  // ---------------------------------------------------------------------
  // The same steps for any words, so that no literal is evaluated twice.
  // ---------------------------------------------------------------------

  /** Two separator-free pieces, each followed by the separator, and nothing after. */
  lemma SplitTwo(x: string, y: string, sep: char)
    requires sep !in x && sep !in y
    ensures Split(x + [sep] + y + [sep], sep) == [x, y, []]
  {
    assert x + [sep] + y + [sep] == x + [sep] + (y + [sep] + []);
    SplitCons(x, sep, y + [sep] + []);
    SplitCons(y, sep, []);
  }

  /** Three words separated by single spaces. */
  lemma ThreeWords(a: string, b: string, c: string)
    requires IsWord(a) && IsWord(b) && IsWord(c)
    ensures Words(a + " " + b + " " + c) == [a, b, c]
  {
    assert JoinWith([a, b, c], ' ') == a + " " + b + " " + c by {
      assert [a, b, c][1..] == [b, c] && [b, c][1..] == [c];
      assert JoinWith([c], ' ') == c;
      assert JoinWith([b, c], ' ') == b + [' '] + c;
      assert JoinWith([a, b, c], ' ') == a + [' '] + (b + [' '] + c);
      assert " " == [' '];
    }
    WordsOfJoin([a, b, c]);
  }

  /** A leading space is not part of any word. */
  lemma LeadingSpace(s: string)
    ensures Words(" " + s) == Words(s)
  {
    assert " " + s == [] + [' '] + s;
    WordsSeparated([], ' ', s);
  }

  /** A clause of three words has two bigrams, each two words around a space. */
  lemma ThreeWordBigrams(a: string, b: string, c: string)
    ensures Windows([a, b, c], 2) == [a + " " + b, b + " " + c]
  {
    assert [a, b, c][..2] == [a, b] && [a, b, c][1..] == [b, c];
    assert [b, c][..2] == [b, c] && [b, c][1..] == [c];
    assert Windows([c], 2) == [];
    assert JoinWith([a, b], ' ') == a + " " + b by {
      assert [a, b][1..] == [b];
    }
    assert JoinWith([b, c], ' ') == b + " " + c by {
      assert [b, c][1..] == [c];
    }
    assert Windows([b, c], 2) == [b + " " + c] + Windows([c], 2);
    assert Windows([a, b, c], 2) == [a + " " + b] + Windows([b, c], 2);
  }

  /** Two clauses and a trailing empty one: the n-grams of the first, then of the second. */
  lemma TwoClauses(x: string, y: string, n: nat)
    requires x != [] && y != []
    ensures ClauseNgrams([x, y, []], n) == Windows(Words(x), n) + Windows(Words(y), n)
  {
    var cs := [x, y, []];
    assert cs[..2] == [x, y] && [x, y][..1] == [x] && [x][..0] == [];
    assert ClauseNgrams([x], n) == Windows(Words(x), n);
    assert ClauseNgrams([x, y], n) == ClauseNgrams([x], n) + Windows(Words(y), n);
    assert ClauseNgrams(cs, n) == ClauseNgrams([x, y], n) + [];
  }

  /** Counting `a, b, a, c` from empty, for distinct `a`, `b`, `c`. */
  lemma TallyOfFour(a: string, b: string, c: string)
    requires a != b && a != c && b != c
    ensures Tally([a, b, a, c]) == map[a := 2, b := 1, c := 1]
  {
    var ks := [a, b, a, c];
    assert ks[..3] == [a, b, a] && ks[..3][..2] == [a, b] && ks[..3][..2][..1] == [a] && [a][..0] == [];
    assert Bump(map[], [a]) == Inc(Bump(map[], []), a);
    assert Tally([a]) == map[a := 1];
    assert Tally([a, b]) == map[a := 1, b := 1];
    assert Tally([a, b, a]) == map[a := 2, b := 1];
  }

  /**
   The top five of a map of three distinct keys counted 2, 1 and 1: the
   first in front, the other two next in either order, two placeholders.
   */
  lemma TopOfThree(a: string, b: string, c: string, top: seq<Slot>)
    requires a != b && a != c && b != c
    requires IsTopFive(map[a := 2, b := 1, c := 1], top)
    ensures top[0] == (a, 2)
    ensures {top[1], top[2]} == {(b, 1), (c, 1)}
    ensures Report(top)[3] == Ellipsis && Report(top)[4] == Ellipsis
  {
    var m := map[a := 2, b := 1, c := 1];
    assert m.Keys == {a, b, c};
    assert |m| == 3;
    ReportPlaceholders(m, top, 3);
    ReportPlaceholders(m, top, 4);
  }

  // ---------------------------------------------------------------------
  // The facts about the literals, one small lemma each.
  // ---------------------------------------------------------------------

  lemma SampleNormalized()
    ensures NormalizeText(SAMPLE) == "the cat sat" + [SEPARATOR] + " the cat ran" + [SEPARATOR]
  {
  }

  lemma SampleClauseText()
    ensures SEPARATOR !in "the cat sat" && SEPARATOR !in " the cat ran"
    ensures "the cat sat" == "the" + " " + "cat" + " " + "sat"
    ensures " the cat ran" == " " + ("the" + " " + "cat" + " " + "ran")
    ensures IsWord("the") && IsWord("cat") && IsWord("sat") && IsWord("ran")
  {
  }

  lemma SampleBigrams()
    ensures "the" + " " + "cat" == "the cat"
    ensures "cat" + " " + "sat" == "cat sat"
    ensures "cat" + " " + "ran" == "cat ran"
    ensures "the cat" != "cat sat" && "the cat" != "cat ran" && "cat sat" != "cat ran"
  {
    assert "the cat"[0] != "cat sat"[0] && "the cat"[0] != "cat ran"[0] && "cat sat"[4] != "cat ran"[4];
  }

  // ---------------------------------------------------------------------
  // The example.
  // ---------------------------------------------------------------------

  /** The full stop ends a clause, so no bigram spans it. */
  lemma SampleNgrams()
    ensures Clauses(SAMPLE) == ["the cat sat", " the cat ran", ""]
    ensures FileNgrams(SAMPLE, 2) == ["the cat", "cat sat", "the cat", "cat ran"]
  {
    SampleNormalized();
    SampleClauseText();
    SplitTwo("the cat sat", " the cat ran", SEPARATOR);
    ThreeWords("the", "cat", "sat");
    ThreeWords("the", "cat", "ran");
    LeadingSpace("the" + " " + "cat" + " " + "ran");
    TwoClauses("the cat sat", " the cat ran", 2);
    ThreeWordBigrams("the", "cat", "sat");
    ThreeWordBigrams("the", "cat", "ran");
    SampleBigrams();
  }

  /**
   With a single worker that worker reduces to the counts of the sample,
   "the cat" twice and the other two bigrams once, and its report shows
   "the cat: 2" first, the two others next, and two placeholder lines.
   */
  lemma SampleReport(owner: string -> nat, top: seq<Slot>)
    requires IsTopFive(Expected([SAMPLE], 1, 2, owner)[0], top)
    ensures Expected([SAMPLE], 1, 2, owner) == [SAMPLE_COUNTS]
    ensures top[0] == ("the cat", 2)
    ensures {top[1], top[2]} == {("cat sat", 1), ("cat ran", 1)}
    ensures Report(top)[3] == Ellipsis && Report(top)[4] == Ellipsis
  {
    SampleNgrams();
    SampleBigrams();
    TallyOfFour("the cat", "cat sat", "cat ran");
    assert CorpusNgrams([SAMPLE], 2) == FileNgrams(SAMPLE, 2) by {
      assert [SAMPLE][..0] == [];
    }
    SingleBucket(SAMPLE_COUNTS, owner);
    TopOfThree("the cat", "cat sat", "cat ran", top);
  }
}
