# Therapist's Markov chain, modelled in Dafny

Therapist fabricates GitHub issue titles and bodies with a word-level,
first-order Markov chain, `Therapist::Markov` (therapist.rb:24-55). This
project models that class:

- **Training.** `initialize` starts the transition table `@chain` as
  `{:TOKEN_START => []}` and calls `parse` on the corpus. For each fragment,
  `parse` does three things:
  - it collapses whitespace runs, strips the ends and splits on whitespace;
  - it frames the words as START, words, END;
  - it calls `add_word_after_word` for every position other than END, which
    appends the right neighbour to that token's successor list (creating the
    list with `||= []`).

  A fragment that is not a string (`nil`) raises inside the inline `rescue`
  and contributes nothing.
- **Generation.** `generate` samples START's list. While the draw is a token
  other than END, it emits the token and samples that token's own list. It
  then joins the emitted words with single spaces.

Layout, one module per file:

- `wrappers.dfy`: `Option`, for fragments that may be `nil`.
- `text.dfy` (module `Text`): Ruby's string operations.
  - `Collapse` is `gsub(/\s+/m, ' ')`.
  - `Trim` is `gsub(/^\s+|\s+$/m, '')`.
  - `Words` is `split(' ')`.
  - `Join` is `join(' ')`.
  - `Tokenize` is the whole pipeline of therapist.rb:49 up to the split.
  - The lemmas show that normalisation never changes the word sequence, that
    the normalised fragment is exactly the single-spaced join of its words,
    and that joining words and splitting them again gives the words back.
- `chain.dfy` (module `Chain`): the table as a value.
  - `Token = Start | End | Word(text)`. The sentinels cannot collide with
    words: in Ruby they are Symbols and words are Strings.
  - `AddAfter`, `Training`, `LearnPrefix`, `ParseFragment` and `Train` are
    the specification functions for training.
  - `WellFormed` is the table invariant: START is a key and END is not. Every
    other key is a real word with a non-empty list. START never occurs in a
    list. Every entry of a list other than END is a key.
  - `Transitions` is the total number of recorded transitions: the sum of
    the lengths of all lists.
  - `Extends(t, r)` says that `r` only appended to the lists of `t`.
- `generation.dfy` (module `Generation`): the random walk as a value.
  `Array#sample` takes its random index from a caller-supplied oracle,
  `choices: seq<nat>`. The i-th draw from a non-empty list picks the entry at
  `choices[i]` modulo the list's length. Sampling an empty list gives nil
  and uses no choice. When the oracle is exhausted, the walk stops with
  `finished == false`. Ruby's `Array#sample` draws no random number for a
  one-element list, but the oracle here spends a choice on every non-empty
  list, so a walk through one-element lists still uses one choice per draw;
  this is why `SingleWordWalk` needs two choices.
- `therapist.dfy` (module `Therapist`): `class Markov`, with the field
  `chain: map<Token, seq<Token>>`.
  - The constructor and `Parse` update the field in place with nested loops.
    `AddWordAfterWord` does the `||=` and the `push`.
  - `Generate` runs Ruby's `while` loop. It has no `modifies` clause, so it
    cannot change the table.
  - Each method is proved against the specification functions above.
- `scenarios.dfy` (module `Scenarios`): concrete corpora.
  - A one-word corpus generates that word, given at least two choices.
  - `[nil, s]` trains the same table as `[s]`.
  - `[s, s]` appends the followers recorded for `s` twice to every list.
  - A corpus with no string in it generates the empty string.

If a drawn word had no list, `@chain[word].sample` at therapist.rb:35 would
raise NoMethodError. `TrainKeepsWellFormed` and `Step` show that training
never builds such a table: every draw other than END is a key with a
non-empty list.

## Model

| member | source | states |
|---|---|---|
| `Text.Collapse` | therapist.rb:49 | every maximal whitespace run becomes one space: the result has no whitespace other than single spaces and no two in a row; it is empty exactly when the input is; it starts (ends) with whitespace exactly when the input does |
| `Text.Trim` | therapist.rb:49 | the result is the infix of the input left after removing the leading whitespace run; everything removed on either side is whitespace; the result neither starts nor ends with whitespace |
| `Text.Words` | therapist.rb:49 | `split(' ')` yields only non-empty words without whitespace |
| `Text.CollapseKeepsWords` | therapist.rb:49 | collapsing whitespace runs does not change the word sequence |
| `Text.TrimKeepsWords` | therapist.rb:49 | stripping leading and trailing whitespace does not change the word sequence |
| `Text.Tokenize` | therapist.rb:49 | the whole normalise-then-split pipeline yields exactly the maximal non-whitespace runs of the fragment, and their single-spaced join is the collapsed and stripped fragment (carried by `CollapseKeepsWords`, `TrimKeepsWords` and `NormalForm`) |
| `Text.Join` | therapist.rb:37 | the empty list joins to `""`; otherwise the text starts with the first word (`JoinRoundTrip` carries the round trip) |
| `Text.SingleSpacedIsJoin` | therapist.rb:49 | a string with only single spaces, none at either end, is the single-spaced join of its own words |
| `Text.NormalForm` | therapist.rb:49 | collapsing and stripping a fragment gives exactly the single-spaced join of its words |
| `Text.JoinRoundTrip` | therapist.rb:37 | splitting the single-spaced join of real words gives back exactly those words |
| `Text.TokenizeLine` | therapist.rb:49 | a single-spaced line of real words tokenizes to exactly those words |
| `Chain.EmptyTable` | therapist.rb:26 | the initial table has START as its only key, with an empty list, and satisfies the invariant |
| `Chain.AddAfter` | therapist.rb:42-45 | the key set grows by `a` only; `a`'s list is its old list (or the empty list) with `b` appended; every other list is unchanged |
| `Chain.Training` | therapist.rb:49 | nil gives the empty sequence; a string with n words gives START, those n words in order, END (n + 2 tokens) |
| `Chain.LearnPrefix` | therapist.rb:50-51 | walking a prefix of a fragment keeps every old key and never makes END a key (the appended entries in `LearnPrefixSuccessors`, growth in `LearnPrefixExtends`, counting in `LearnPrefixCount`, invariant in `LearnPrefixClosed`) |
| `Chain.LearnPrefixExtends` | therapist.rb:50-51 | walking a prefix of a fragment only appends to lists: every old list is a prefix of its new list |
| `Chain.ParseFragment` | therapist.rb:48-53 | one fragment only appends to lists and never makes END a key; a nil fragment changes nothing (the appended entries in `ParseFragmentSuccessors`, invariant in `ParseFragmentKeepsWellFormed`, effect in `ParseString`) |
| `Chain.Train` | therapist.rb:47-54 | a corpus only appends to lists and never makes END a key (invariant in `TrainKeepsWellFormed`, composition in `TrainAppend`) |
| `Chain.EntryIsLiveWord` | therapist.rb:35 | in a well-formed table, a list entry other than END is a real word with a non-empty list of its own |
| `Chain.AddAfterKeepsClosed` | therapist.rb:42-45 | one `add_word_after_word` inside a fragment keeps the invariant, with only the word just appended exempt |
| `Chain.LearnPrefixClosed` | therapist.rb:50-51 | while a fragment is being walked, the invariant holds for all tokens except the next one to be visited; it holds fully at the end |
| `Chain.ParseFragmentKeepsWellFormed` | therapist.rb:48-53 | parsing one fragment, string or nil, keeps the table invariant |
| `Chain.TrainKeepsWellFormed` | therapist.rb:47-54 | parsing a whole corpus keeps the invariant, so the lookup `@chain[word]` in `generate` always finds a non-empty list |
| `Chain.LearnPrefixElsewhere` | therapist.rb:50-51 | positions that do not hold token `k` change neither `k`'s list nor whether `k` is a key |
| `Chain.ParseFragmentElsewhere` | therapist.rb:48-53 | a token the fragment does not contain keeps its list and its key status |
| `Chain.AddAfterAddsOne` | therapist.rb:42-45 | `add_word_after_word` records exactly one transition more |
| `Chain.LearnPrefixCount` | therapist.rb:50-51 | every visited position other than END records exactly one transition |
| `Chain.LearnPrefixSuccessors` | therapist.rb:50-51 | after the first n + 1 positions of a training sequence, each token's list is its old list followed by the right neighbours of its occurrences among those positions, in order (END records nothing) |
| `Chain.ParseFragmentSuccessors` | therapist.rb:48-53 | parsing a fragment leaves each token's list as its old list followed by `Followers` of the token in the fragment's training sequence: the right neighbour of each of its occurrences, in order; a nil fragment appends nothing |
| `Chain.FollowersHold` | therapist.rb:50-51 | the right neighbour of any position other than END is among that token's `Followers` |
| `Chain.ParseStringRecordsPairs` | therapist.rb:49-51 | after parsing a string fragment, every adjacent pair of its training sequence (START, the words, END) is recorded: the left token is a key and the right token is in its list |
| `Chain.ParseString` | therapist.rb:49-51 | a string fragment of n words appends exactly one entry to START's list (the first word, or END for a blank fragment); it records exactly n + 1 transitions; END never becomes a key; the invariant holds |
| `Chain.ParseNilIsNoOp` | therapist.rb:49 | a nil fragment leaves the table unchanged |
| `Chain.TrainAppend` | therapist.rb:48 | training on `a + b` equals training on `a`, then on `b`, into the same table |
| `Chain.TrainSkipsNil` | therapist.rb:49 | a nil fragment anywhere in the corpus is skipped, and the fragments after it are still processed |
| `Chain.NilCorpusKeepsEmptyTable` | therapist.rb:26 | with an empty or all-nil corpus, START is the only key and its list is empty |
| `Chain.SameWordsSameTable` | therapist.rb:49 | fragments with the same words, however they are spaced, train identical tables |
| `Generation.Sample` | therapist.rb:32 | `sample` gives nil exactly for an empty list; otherwise it gives an entry of the list (or reports that no choice is left) |
| `Generation.Continue` | therapist.rb:33-36 | a draw other than END starts the rest of the walk with that word; END, nil or no choice left emits nothing; at most one word per remaining choice (path shape in `WalkFollows`, stopping in `WalkStops`) |
| `Generation.RandomWalk` | therapist.rb:30-37 | the first word comes from START's list; an empty START list gives the empty, finished walk; at most one word per choice (`WalkFollows`, `WalkStops`, `WalkRetokenizes`) |
| `Generation.Step` | therapist.rb:35 | on a well-formed table a draw is never START; a draw other than END is a key whose list can be sampled; only START's list can give nil |
| `Generation.WalkFollows` | therapist.rb:30-37 | the emitted words form a path: the first is in the starting token's list, each later one is in its predecessor's list, and all are keys |
| `Generation.WalkStops` | therapist.rb:33-36 | the walk emits at most one word per remaining choice, and exactly that many when the choices run out; a walk that stops on its own drew END from the last emitted word's list, or, having emitted nothing, drew END from START's list or found START's list empty |
| `Generation.WalkRetokenizes` | therapist.rb:37 | the generated text splits back into exactly the emitted words, so it holds no sentinel and no empty word |
| `Therapist.Markov.constructor` | therapist.rb:25-28 | the table is the initial table trained on the corpus, and it satisfies the invariant |
| `Therapist.Markov.AddWordAfterWord` | therapist.rb:42-45 | the new table is the old one with `word2` appended to `word1`'s list, which is created if absent; inside a fragment it keeps the invariant, with only `word2` exempt |
| `Therapist.Markov.Parse` | therapist.rb:47-54 | the nested loops leave the table equal to the old table trained on the fragments in order, and keep the invariant |
| `Therapist.Markov.Generate` | therapist.rb:30-38 | the result is `RandomWalk(chain, choices)`; the text is the words joined by single spaces; the words form a path from START; the text re-tokenizes to the words; an empty START list gives `""` |
| `Scenarios.ParseOneWord` | therapist.rb:49-51 | a one-word fragment records START → word and word → END |
| `Scenarios.SingleWordTable` | therapist.rb:25-28 | the corpus `[w]` builds exactly the table {START ↦ [w], w ↦ [END]} |
| `Scenarios.SingleWordWalk` | therapist.rb:30-37 | on that table every walk with at least two choices generates exactly `w` |
| `Scenarios.RepeatedFragment` | therapist.rb:47-54 | training on `[s, s]` leaves each token's list as its old list followed by the fragment's followers of that token twice |
| `Scenarios.NilThenFragment` | therapist.rb:49 | `[nil, s]` trains the same table as `[s]` |
| `Scenarios.NilCorpusGeneratesNothing` | therapist.rb:32-33 | an empty or all-nil corpus generates the empty string, whatever the choices |

## Left out

- The randomness of `Array#sample`: uniform choice and frequency weighting (a 2/3 against 1/3 split, for example) are probabilistic claims. The model takes the choices from an oracle instead. It keeps duplicates in the lists, so frequency is present in the data, but no statement about probabilities is made.
- Termination of `generate`: a table can contain a cycle (the fragment "a a" records a → a), so the Ruby loop need not end. `Generate` and `RandomWalk` stop when the oracle runs out and report this with `finished == false`.
- Text.Trim: models `^` and `$` as the two ends of the string. This is exact for the only string it receives, the output of `Collapse`, which contains no line break. On a multi-line string Ruby's anchors would also match at every line.
- Fragments that are neither a string nor `nil` (e.g. an Integer) fail in the same `rescue`. Strings with a broken encoding also raise in `gsub` and contribute nothing. The model represents all of these as `None`.
- The `Repository` wrapper (therapist.rb:57-79): it fetches issues through the GitHub client and builds two independent `Markov` instances, one for titles and one for bodies. Each instance owns its own `chain` value, so nothing is shared between them.
- The GitHub client singleton (therapist.rb:20-22) and the failures that `all_issues` swallows: network I/O through a library that is not part of this model.
- YAML configuration and the `Hash#deep_symbolize_keys` patch (therapist.rb:6-17, 83-84): configuration plumbing.
- Tumblr posting, the HTML template and the 100-iteration posting loop (therapist.rb:85-98): I/O and presentation.
