/**
 * The random walk of `Markov#generate` (therapist.rb:30-38) as values.
 * `Array#sample` is modelled by an oracle: the caller supplies the sequence
 * of random choices, and the i-th draw from a non-empty list takes the entry
 * at `choices[i]` modulo the list's length.
 */
module Generation {
  import opened Text
  import opened Chain

  /** The outcome of one `sample`: nil (empty list), a token, or no random choice left. */
  datatype Draw = Nil | Picked(token: Token) | NoChoiceLeft

  /** What the walk emitted, and whether it stopped on its own (END or nil) rather than for want of choices. */
  datatype Walk = Walk(words: seq<string>, finished: bool)

  /** `list.sample` with the random index taken from `choices[used]`: nil exactly for an empty list. */
  function Sample(list: seq<Token>, choices: seq<nat>, used: nat): (d: Draw)
    ensures d.Nil? <==> list == []
    ensures d.NoChoiceLeft? <==> list != [] && used >= |choices|
    ensures d.Picked? ==> used < |choices| && d.token in list
  {
    if list == [] then Nil
    else if used < |choices| then Picked(list[choices[used] % |list|])
    else NoChoiceLeft
  }

  /** A draw the walk may continue from: nothing, END, or a word whose own list is a key of the table. */
  predicate Continuable(t: Table, d: Draw, choices: seq<nat>, used: nat) {
    d.Picked? ==> used < |choices| && (d.token == End || (d.token in t && d.token != Start))
  }

  /**
   * `@chain[from].sample`. On a well-formed table the draw is never START
   * and, unless it is END, is itself a key, so the next `@chain[word]`
   * lookup never yields nil.
   */
  function Step(t: Table, from: Token, choices: seq<nat>, used: nat): (d: Draw)
    requires WellFormed(t) && from in t
    ensures Continuable(t, d, choices, used)
    ensures d.Nil? ==> from == Start
  {
    var d := Sample(t[from], choices, used);
    if d.Picked? && d.token != End then EntryIsLiveWord(t, from, d.token); d else d
  }

  /**
   * The rest of the walk once `d` has been drawn with `used` choices spent
   * before it: while the draw is a token other than END, emit it and sample
   * its own list.
   */
  function Continue(t: Table, d: Draw, choices: seq<nat>, used: nat): (w: Walk)
    requires WellFormed(t) && used <= |choices|
    requires Continuable(t, d, choices, used)
    ensures d.Picked? && d.token != End ==> w.words != [] && Word(w.words[0]) == d.token
    ensures !(d.Picked? && d.token != End) ==> w.words == []
    ensures |w.words| <= |choices| - used
    decreases |choices| - used
  {
    if d.Picked? && d.token != End then
      var rest := Continue(t, Step(t, d.token, choices, used + 1), choices, used + 1);
      Walk([d.token.text] + rest.words, rest.finished)
    else
      Walk([], !d.NoChoiceLeft?)
  }

  /** One step of the walk: a drawn word is emitted, followed by the rest of the walk from its own list. */
  lemma ContinueStep(t: Table, d: Draw, choices: seq<nat>, used: nat)
    requires WellFormed(t) && used <= |choices|
    requires Continuable(t, d, choices, used) && d.Picked? && d.token != End
    ensures var rest := Continue(t, Step(t, d.token, choices, used + 1), choices, used + 1);
      Continue(t, d, choices, used) == Walk([d.token.text] + rest.words, rest.finished)
  {
  }

  /**
   * The walk `generate` performs: first draw from START's list, then
   * continue. The first word comes from START's list; an empty START list
   * gives the empty, finished walk.
   */
  function RandomWalk(t: Table, choices: seq<nat>): (w: Walk)
    requires WellFormed(t)
    ensures w.words != [] ==> Word(w.words[0]) in t[Start]
    ensures t[Start] == [] ==> w == Walk([], true)
    ensures |w.words| <= |choices|
  {
    Continue(t, Step(t, Start, choices, 0), choices, 0)
  }

  /** `ws` is a path through `t` after `from`: every word is a key, and each is in its predecessor's list. */
  ghost predicate Follows(t: Table, from: Token, ws: seq<string>) {
    && from in t
    && (ws != [] ==> Word(ws[0]) in t[from])
    && (forall i | 0 <= i < |ws| :: Word(ws[i]) in t)
    && (forall i | 0 < i < |ws| :: Word(ws[i]) in t[Word(ws[i - 1])])
  }

  /** The emitted words form a path through the table, starting in `from`'s list. */
  lemma {:induction false} WalkFollows(t: Table, from: Token, choices: seq<nat>, used: nat)
    requires WellFormed(t) && from in t && used <= |choices|
    ensures Follows(t, from, Continue(t, Step(t, from, choices, used), choices, used).words)
    decreases |choices| - used
  {
    var d := Step(t, from, choices, used);
    if d.Picked? && d.token != End {
      WalkFollows(t, d.token, choices, used + 1);
      var rest := Continue(t, Step(t, d.token, choices, used + 1), choices, used + 1).words;
      var ws := [d.token.text] + rest;
      assert Word(ws[0]) == d.token;
      forall i | 0 < i < |ws|
        ensures Word(ws[i]) in t && Word(ws[i]) in t[Word(ws[i - 1])]
      {
        assert ws[i] == rest[i - 1];
      }
    }
  }

  /**
   * The walk spends one choice per draw from a non-empty list, so it emits at
   * most one word per remaining choice, exactly that many when it is cut
   * short; when it stops on its own, it drew END from the last word's list
   * or found `from`'s list empty.
   */
  lemma {:induction false} WalkStops(t: Table, from: Token, choices: seq<nat>, used: nat)
    requires WellFormed(t) && from in t && used <= |choices|
    ensures var w := Continue(t, Step(t, from, choices, used), choices, used);
      && |w.words| <= |choices| - used
      && (!w.finished ==> |w.words| == |choices| - used)
      && (w.finished && w.words == [] ==>
            || (t[from] == [] && Step(t, from, choices, used) == Nil)
            || (End in t[from] && Step(t, from, choices, used) == Picked(End)))
      && (w.finished && w.words != [] ==>
            var last := Word(w.words[|w.words| - 1]);
            && last in t && End in t[last]
            && Step(t, last, choices, used + |w.words|) == Picked(End))
    decreases |choices| - used
  {
    var d := Step(t, from, choices, used);
    if d.Picked? && d.token != End {
      WalkStops(t, d.token, choices, used + 1);
      var rest := Continue(t, Step(t, d.token, choices, used + 1), choices, used + 1);
      ContinueStep(t, d, choices, used);
      if rest.finished && rest.words == [] {
        assert t[d.token] != [];
      }
    }
  }

  /** Every generated word is a real word, so the generated text splits back into exactly the emitted words. */
  lemma WalkRetokenizes(t: Table, choices: seq<nat>)
    requires WellFormed(t)
    ensures Tokenize(Join(RandomWalk(t, choices).words)) == RandomWalk(t, choices).words
  {
    var ws := RandomWalk(t, choices).words;
    WalkFollows(t, Start, choices, 0);
    assert forall i | 0 <= i < |ws| :: IsWord(ws[i]) by {
      forall i | 0 <= i < |ws| ensures IsWord(ws[i]) {
        assert Word(ws[i]) in t;
      }
    }
    TokenizeLine(ws);
  }
}
