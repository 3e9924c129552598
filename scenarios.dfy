/** Concrete corpora and what the chain built from them does. */
module Scenarios {
  import opened Wrappers
  import opened Text
  import opened Chain
  import opened Generation

  /** Training a corpus of one fragment is parsing that fragment into the initial table. */
  lemma TrainOne(f: Option<string>)
    ensures Train(EmptyTable(), [f]) == ParseFragment(EmptyTable(), f)
  {
    assert [f][..0] == [];
  }

  /** A one-word fragment records START -> w and w -> END. */
  lemma ParseOneWord(t: Table, w: string)
    requires IsWord(w)
    ensures ParseFragment(t, Some(w)) == AddAfter(AddAfter(t, Start, Word(w)), Word(w), End)
  {
    TokenizeLine([w]);
    var ws := Training(Some(w));
    assert ws == [Start, Word(w), End];
    assert LearnPrefix(t, ws, 0) == t;
    assert LearnPrefix(t, ws, 1) == AddAfter(t, Start, Word(w));
    assert LearnPrefix(t, ws, 2) == AddAfter(AddAfter(t, Start, Word(w)), Word(w), End);
  }

  /**
   * Training the same fragment twice, as in `["a b", "a b"]`, appends each
   * token's followers twice, so repeated transitions are sampled more often.
   */
  lemma RepeatedFragment(t: Table, s: string, k: Token)
    ensures var f := Followers(Training(Some(s)), k);
      Successors(Train(t, [Some(s), Some(s)]), k) == Successors(t, k) + f + f
  {
    var x := Some(s);
    var once := ParseFragment(t, x);
    TrainLast(t, [x], [], x);
    TrainLast(t, [x, x], [x], x);
    assert Train(t, [x, x]) == ParseFragment(once, x);
    ParseFragmentSuccessors(t, Some(s), k);
    ParseFragmentSuccessors(once, Some(s), k);
  }

  /** Recording START -> w, then w -> END, into START's empty list builds the one-word table. */
  lemma OneWordSteps(e: Table, w: string)
    requires e == map[Start := []]
    ensures AddAfter(AddAfter(e, Start, Word(w)), Word(w), End) == map[Start := [Word(w)], Word(w) := [End]]
  {
    var a := AddAfter(e, Start, Word(w));
    assert a.Keys == {Start} && a[Start] == [Word(w)];
    assert a == map[Start := [Word(w)]];
    var b := AddAfter(a, Word(w), End);
    assert b.Keys == {Start, Word(w)} && b[Start] == [Word(w)] && b[Word(w)] == [End];
  }

  /** The one-word corpus `[w]` (such as `["hello"]`) records START -> w -> END and nothing else. */
  lemma SingleWordTable(w: string)
    requires IsWord(w)
    ensures Train(EmptyTable(), [Some(w)]) == map[Start := [Word(w)], Word(w) := [End]]
  {
    TrainOne(Some(w));
    ParseOneWord(EmptyTable(), w);
    OneWordSteps(EmptyTable(), w);
  }

  /** Every walk on that table given at least two choices generates exactly `w`. */
  lemma SingleWordWalk(w: string, choices: seq<nat>)
    requires IsWord(w) && |choices| >= 2
    ensures var t := map[Start := [Word(w)], Word(w) := [End]];
      WellFormed(t) && RandomWalk(t, choices) == Walk([w], true)
  {
    var t := map[Start := [Word(w)], Word(w) := [End]];
    assert WellFormed(t);
    var second := Step(t, Word(w), choices, 1);
    assert second == Picked(End);
    assert Continue(t, second, choices, 1) == Walk([], true);
    var first := Step(t, Start, choices, 0);
    assert first == Picked(Word(w));
  }

  /** `[nil, s]` trains exactly the table `[s]` trains. */
  lemma NilThenFragment(s: string)
    ensures Train(EmptyTable(), [None, Some(s)]) == Train(EmptyTable(), [Some(s)])
  {
    TrainSkipsNil(EmptyTable(), [], [Some(s)]);
    assert [] + [None] + [Some(s)] == [None, Some(s)];
    assert [] + [Some(s)] == [Some(s)];
  }

  /** A corpus with no string in it (empty, or all nil) generates the empty string, whatever the choices. */
  lemma NilCorpusGeneratesNothing(corpus: seq<Option<string>>, choices: seq<nat>)
    requires forall i | 0 <= i < |corpus| :: corpus[i].None?
    ensures WellFormed(Train(EmptyTable(), corpus))
    ensures RandomWalk(Train(EmptyTable(), corpus), choices) == Walk([], true)
  {
    NilCorpusKeepsEmptyTable(corpus);
    TrainKeepsWellFormed(EmptyTable(), corpus);
  }
}
