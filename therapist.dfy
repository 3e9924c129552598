/**
 * `Therapist::Markov` (therapist.rb:24-55): a word-level first-order Markov
 * chain whose transition table is updated in place while the corpus is
 * parsed and only read while text is generated.
 */
module Therapist {
  import opened Wrappers
  import opened Text
  import opened Chain
  import opened Generation

  class Markov {
    /** `@chain`. */
    var chain: Table

    ghost predicate Valid()
      reads this
    {
      WellFormed(chain)
    }

    /** `initialize(strings)`: start from START mapped to an empty list, then parse the corpus. */
    constructor (strings: seq<Option<string>>)
      ensures Valid()
      ensures chain == Train(EmptyTable(), strings)
    {
      chain := EmptyTable();
      new;
      Parse(strings);
    }

    /** `add_word_after_word(word1, word2)`: `||= []`, then `push`. */
    method AddWordAfterWord(word1: Token, word2: Token)
      modifies this
      ensures chain == AddAfter(old(chain), word1, word2)
      ensures word1 in chain && chain[word1] == Successors(old(chain), word1) + [word2]
      ensures
        && old(ClosedExcept(chain, word1))
        && (word1 == Start || (word1.Word? && IsWord(word1.text)))
        && (word2 == End || (word2.Word? && IsWord(word2.text)))
        ==> ClosedExcept(chain, word2)
    {
      if word1 !in chain {
        chain := chain[word1 := []];
      }
      chain := chain[word1 := chain[word1] + [word2]];
    }

    /**
     * `parse(strings)`: for each fragment, each position of its training
     * sequence other than END records its right neighbour.
     */
    method Parse(strings: seq<Option<string>>)
      modifies this
      ensures chain == Train(old(chain), strings)
      ensures old(Valid()) ==> Valid()
    {
      ghost var initial := chain;
      for f := 0 to |strings|
        invariant chain == Train(initial, strings[..f])
      {
        var words := Training(strings[f]);
        ghost var before := chain;
        for i := 0 to |words|
          invariant chain == LearnPrefix(before, words, i)
        {
          if words[i] != End {
            AddWordAfterWord(words[i], words[i + 1]);
          }
        }
        TrainLast(initial, strings[..f + 1], strings[..f], strings[f]);
      }
      assert strings[..|strings|] == strings;
      if WellFormed(initial) {
        TrainKeepsWellFormed(initial, strings);
      }
    }

    /**
     * `generate`: sample START's list, then, while the draw is a token other
     * than END, emit it and sample its list; join the emitted words with
     * single spaces. The table is only read.
     */
    method Generate(choices: seq<nat>) returns (text: string, words: seq<string>, finished: bool)
      requires Valid()
      ensures Walk(words, finished) == RandomWalk(chain, choices)
      ensures text == Join(words)
      ensures Follows(chain, Start, words)
      ensures Tokenize(text) == words
      ensures chain[Start] == [] ==> text == "" && finished
    {
      words := [];
      var used := 0;
      var word := Sample(chain[Start], choices, used);
      while word.Picked? && word.token != End
        invariant used <= |choices| && Continuable(chain, word, choices, used)
        invariant RandomWalk(chain, choices) ==
          var rest := Continue(chain, word, choices, used);
          Walk(words + rest.words, rest.finished)
        decreases |choices| - used
      {
        ghost var drawn, emitted := word, words;
        ContinueStep(chain, word, choices, used);
        words := words + [word.token.text];
        used := used + 1;
        word := Sample(chain[word.token], choices, used);
        assert word == Step(chain, drawn.token, choices, used);
        ghost var rest := Continue(chain, word, choices, used);
        assert emitted + ([drawn.token.text] + rest.words) == words + rest.words;
      }
      assert Continue(chain, word, choices, used) == Walk([], !word.NoChoiceLeft?);
      assert words + [] == words;
      finished := !word.NoChoiceLeft?;
      text := Join(words);
      WalkFollows(chain, Start, choices, 0);
      WalkRetokenizes(chain, choices);
    }
  }
}
