/**
 * The transition table of `Therapist::Markov` (therapist.rb:24-55) as values:
 * tokens, the table, what `add_word_after_word` and `parse` do to it, and the
 * invariant that makes the lookup in `generate` safe.
 */
module Chain {
  import opened Wrappers
  import opened Text

  /**
   * A token of the chain. In Ruby the sentinels are the Symbols
   * `:TOKEN_START` and `:TOKEN_END` and words are Strings, so a word can never
   * be mistaken for a sentinel.
   */
  datatype Token = Start | End | Word(text: string)

  /** `@chain`: each token mapped to the successors recorded after it, in order, duplicates kept. */
  type Table = map<Token, seq<Token>>

  /** The table `initialize` starts from: START mapped to an empty list, which already meets the invariant. */
  function EmptyTable(): (t: Table)
    ensures t.Keys == {Start} && t[Start] == []
    ensures WellFormed(t)
  {
    map[Start := []]
  }

  /** The list recorded for `k`, or the empty list `||= []` would create. */
  function Successors(t: Table, k: Token): seq<Token> {
    if k in t then t[k] else []
  }

  /**
   * `add_word_after_word(a, b)`: `a`'s list is created when absent and `b` is
   * appended at its end; every other key and list stays as it was.
   */
  function AddAfter(t: Table, a: Token, b: Token): (r: Table)
    ensures r.Keys == t.Keys + {a}
    ensures r[a] == Successors(t, a) + [b]
    ensures forall k | k in t && k != a :: r[k] == t[k]
  {
    t[a := Successors(t, a) + [b]]
  }

  /** A training sequence: empty, or START, then words, then END. */
  predicate Framed(ws: seq<Token>) {
    ws == [] ||
    (|ws| >= 2 && ws[0] == Start && ws[|ws| - 1] == End &&
     forall i | 0 < i < |ws| - 1 :: ws[i].Word? && IsWord(ws[i].text))
  }

  function WordTokens(ws: seq<string>): seq<Token> {
    seq(|ws|, i requires 0 <= i < |ws| => Word(ws[i]))
  }

  /**
   * The sequence `parse` walks for one fragment: a string is tokenized and
   * framed by START and END; anything else raises inside the inline
   * `rescue`, which turns it into the empty list.
   */
  function Training(fragment: Option<string>): (ws: seq<Token>)
    ensures Framed(ws)
    ensures fragment.None? ==> ws == []
    ensures fragment.Some? ==>
      |ws| == |Tokenize(fragment.value)| + 2 &&
      forall i | 0 < i < |ws| - 1 :: ws[i] == Word(Tokenize(fragment.value)[i - 1])
  {
    match fragment
    case None => []
    case Some(s) => [Start] + WordTokens(Tokenize(s)) + [End]
  }

  /**
   * The table once `each_with_index` has visited positions `0 .. n-1` of
   * `ws`: every visited token other than END gets its right neighbour
   * appended.
   */
  function LearnPrefix(t: Table, ws: seq<Token>, n: nat): (r: Table)
    requires n <= |ws|
    requires ws == [] || ws[|ws| - 1] == End
    ensures t.Keys <= r.Keys
    ensures End !in t ==> End !in r
  {
    if n == 0 then t
    else
      var prev := LearnPrefix(t, ws, n - 1);
      if ws[n - 1] == End then prev else AddAfter(prev, ws[n - 1], ws[n])
  }

  /** `r` extends `t`: every key of `t` is still a key, and its old list is a prefix of its new one. */
  predicate Extends(t: Table, r: Table) {
    forall k | k in t :: k in r && t[k] <= r[k]
  }

  /** Walking a fragment only appends to lists. */
  lemma {:induction false} LearnPrefixExtends(t: Table, ws: seq<Token>, n: nat)
    requires n <= |ws|
    requires ws == [] || ws[|ws| - 1] == End
    ensures Extends(t, LearnPrefix(t, ws, n))
  {
    if n > 0 {
      LearnPrefixExtends(t, ws, n - 1);
    }
  }

  /**
   * One iteration of `strings.each` in `parse`: lists only grow at their
   * ends, END never becomes a key, and a nil fragment changes nothing.
   */
  function ParseFragment(t: Table, fragment: Option<string>): (r: Table)
    ensures Extends(t, r)
    ensures End !in t ==> End !in r
    ensures fragment.None? ==> r == t
  {
    var ws := Training(fragment);
    LearnPrefixExtends(t, ws, |ws|);
    LearnPrefix(t, ws, |ws|)
  }

  /**
   * `parse(strings)`: the fragments in order, into one shared table. Lists
   * only grow at their ends and END never becomes a key.
   */
  function Train(t: Table, corpus: seq<Option<string>>): (r: Table)
    ensures Extends(t, r)
    ensures End !in t ==> End !in r
    decreases |corpus|
  {
    if corpus == [] then t
    else ParseFragment(Train(t, corpus[..|corpus| - 1]), corpus[|corpus| - 1])
  }

  /**
   * The table invariant, with one exemption: `pending` (a word just appended
   * to some list whose own list has not been started yet) may occur in a
   * list without being a key. START is a key, END is not; every other key is
   * a real word with a non-empty list; START never occurs in a list; every
   * other entry is END, the pending word or a key.
   */
  predicate ClosedExcept(t: Table, pending: Token) {
    && Start in t
    && End !in t
    && (forall k | k in t && k != Start :: k.Word? && IsWord(k.text) && t[k] != [])
    && (forall k, j | k in t && 0 <= j < |t[k]| ::
          || t[k][j] == End
          || (t[k][j] == pending && pending.Word? && IsWord(pending.text))
          || (t[k][j] != Start && t[k][j] in t))
  }

  /** The table invariant: nothing pending. */
  predicate WellFormed(t: Table) {
    ClosedExcept(t, End)
  }

  /** Under the invariant an entry other than END is a word whose own list is non-empty. */
  lemma EntryIsLiveWord(t: Table, k: Token, x: Token)
    requires WellFormed(t) && k in t && x in t[k] && x != End
    ensures x in t && x.Word? && IsWord(x.text) && t[x] != []
  {
  }

  /** One `add_word_after_word` step of a fragment moves the exemption to the word just appended. */
  lemma AddAfterKeepsClosed(t: Table, a: Token, b: Token)
    requires ClosedExcept(t, a)
    requires a == Start || (a.Word? && IsWord(a.text))
    requires b == End || (b.Word? && IsWord(b.text))
    ensures ClosedExcept(AddAfter(t, a, b), b)
  {
  }

  /** Within a fragment the invariant holds except for the token about to be visited. */
  lemma {:induction false} LearnPrefixClosed(t: Table, ws: seq<Token>, n: nat)
    requires WellFormed(t) && Framed(ws) && n <= |ws|
    ensures ClosedExcept(LearnPrefix(t, ws, n), if n < |ws| then ws[n] else End)
  {
    if n > 0 {
      LearnPrefixClosed(t, ws, n - 1);
      if ws[n - 1] != End {
        AddAfterKeepsClosed(LearnPrefix(t, ws, n - 1), ws[n - 1], ws[n]);
      }
    }
  }

  /** Parsing any fragment, string or not, preserves the table invariant. */
  lemma ParseFragmentKeepsWellFormed(t: Table, fragment: Option<string>)
    requires WellFormed(t)
    ensures WellFormed(ParseFragment(t, fragment))
  {
    var ws := Training(fragment);
    LearnPrefixClosed(t, ws, |ws|);
  }

  /**
   * Training preserves the table invariant, so every token `generate` can
   * reach other than END has a non-empty list and `@chain[word]` is never nil.
   */
  lemma {:induction false} TrainKeepsWellFormed(t: Table, corpus: seq<Option<string>>)
    requires WellFormed(t)
    ensures WellFormed(Train(t, corpus))
    decreases |corpus|
  {
    if corpus != [] {
      TrainKeepsWellFormed(t, corpus[..|corpus| - 1]);
      ParseFragmentKeepsWellFormed(Train(t, corpus[..|corpus| - 1]), corpus[|corpus| - 1]);
    }
  }

  /** Steps that do not visit `k` leave `k`'s list, and whether it is a key, alone. */
  lemma LearnPrefixElsewhere(t: Table, ws: seq<Token>, m: nat, n: nat, k: Token)
    requires m <= n <= |ws|
    requires ws == [] || ws[|ws| - 1] == End
    requires forall i | m <= i < n :: ws[i] != k
    ensures (k in LearnPrefix(t, ws, n)) == (k in LearnPrefix(t, ws, m))
    ensures Successors(LearnPrefix(t, ws, n), k) == Successors(LearnPrefix(t, ws, m), k)
  {
    var i := m;
    while i < n
      invariant m <= i <= n
      invariant SameEntry(LearnPrefix(t, ws, i), LearnPrefix(t, ws, m), k)
    {
      LearnPrefixStepElsewhere(t, ws, i, k);
      i := i + 1;
    }
  }

  /** `a` and `b` agree on whether `k` is a key and on its list. */
  predicate SameEntry(a: Table, b: Table, k: Token) {
    (k in a) == (k in b) && Successors(a, k) == Successors(b, k)
  }

  /** One position whose token is not `k` leaves `k`'s entry as it was. */
  lemma LearnPrefixStepElsewhere(t: Table, ws: seq<Token>, i: nat, k: Token)
    requires i < |ws| && ws[|ws| - 1] == End && ws[i] != k
    ensures SameEntry(LearnPrefix(t, ws, i + 1), LearnPrefix(t, ws, i), k)
  {
    if ws[i] != End {
      assert LearnPrefix(t, ws, i + 1) == AddAfter(LearnPrefix(t, ws, i), ws[i], ws[i + 1]);
    }
  }

  /** A key the fragment never mentions is left exactly as it was. */
  lemma ParseFragmentElsewhere(t: Table, fragment: Option<string>, k: Token)
    requires k !in Training(fragment)
    ensures (k in ParseFragment(t, fragment)) == (k in t)
    ensures Successors(ParseFragment(t, fragment), k) == Successors(t, k)
  {
    var ws := Training(fragment);
    LearnPrefixElsewhere(t, ws, 0, |ws|, k);
  }

  /**
   * The right neighbours of `k`'s occurrences in `ws`, in order: the
   * successors `each_with_index` hands to `add_word_after_word` for `k`.
   * END's occurrences have none, since END is skipped.
   */
  function Followers(ws: seq<Token>, k: Token): seq<Token>
    decreases |ws|
  {
    if |ws| < 2 then []
    else (if ws[0] == k && k != End then [ws[1]] else []) + Followers(ws[1..], k)
  }

  /** Extending a sequence by one token adds that token as a follower of the old last token. */
  lemma {:induction false} FollowersSnoc(p: seq<Token>, x: Token, k: Token)
    requires p != []
    ensures Followers(p + [x], k) == Followers(p, k) + (if p[|p| - 1] == k && k != End then [x] else [])
    decreases |p|
  {
    var q := p + [x];
    var head := if p[0] == k && k != End then [q[1]] else [];
    var last := if p[|p| - 1] == k && k != End then [x] else [];
    assert Followers(q, k) == head + Followers(q[1..], k);
    if |p| == 1 {
      assert q[1..] == [x];
    } else {
      var tail := p[1..];
      assert q[1] == p[1] && q[1..] == tail + [x];
      FollowersSnoc(tail, x, k);
      assert Followers(p, k) == head + Followers(tail, k);
      assert head + (Followers(tail, k) + last) == (head + Followers(tail, k)) + last;
    }
  }

  /** Visiting position `i` appends its right neighbour to its own list and to no other. */
  lemma LearnPrefixStepSuccessors(t: Table, ws: seq<Token>, i: nat, k: Token)
    requires i + 1 < |ws| && ws[|ws| - 1] == End
    ensures Successors(LearnPrefix(t, ws, i + 1), k)
      == Successors(LearnPrefix(t, ws, i), k) + (if ws[i] == k && k != End then [ws[i + 1]] else [])
  {
    var prev := LearnPrefix(t, ws, i);
    if ws[i] != End {
      assert LearnPrefix(t, ws, i + 1) == AddAfter(prev, ws[i], ws[i + 1]);
    }
  }

  /** The followers in `ws[..i + 2]` are those in `ws[..i + 1]` and, when `ws[i]` is `k`, also `ws[i + 1]`. */
  lemma FollowersPrefixStep(ws: seq<Token>, i: nat, k: Token)
    requires i + 1 < |ws|
    ensures Followers(ws[..i + 1 + 1], k) == Followers(ws[..i + 1], k) + (if ws[i] == k && k != End then [ws[i + 1]] else [])
  {
    var p := ws[..i + 1];
    assert ws[..i + 1 + 1] == p + [ws[i + 1]] && p[|p| - 1] == ws[i];
    FollowersSnoc(p, ws[i + 1], k);
  }

  /** Before any position is visited nothing has been appended, and a single token has no follower. */
  lemma LearnPrefixStart(t: Table, ws: seq<Token>, k: Token)
    requires ws != [] && ws[|ws| - 1] == End
    ensures Successors(LearnPrefix(t, ws, 0), k) == Successors(t, k) + Followers(ws[..1], k)
  {
    assert LearnPrefix(t, ws, 0) == t;
    assert Followers(ws[..1], k) == [];
  }

  /** After visiting positions `0 .. n-1`, `k`'s list has gained exactly the followers of `k` in `ws[..n + 1]`. */
  lemma LearnPrefixSuccessors(t: Table, ws: seq<Token>, n: nat, k: Token)
    requires n < |ws| && ws[|ws| - 1] == End
    ensures Successors(LearnPrefix(t, ws, n), k) == Successors(t, k) + Followers(ws[..n + 1], k)
  {
    LearnPrefixStart(t, ws, k);
    var i := 0;
    while i < n
      invariant i <= n
      invariant Successors(LearnPrefix(t, ws, i), k) == Successors(t, k) + Followers(ws[..i + 1], k)
    {
      LearnPrefixStepSuccessors(t, ws, i, k);
      FollowersPrefixStep(ws, i, k);
      i := i + 1;
    }
  }

  /**
   * One fragment appends to each token's list exactly that token's right
   * neighbours in the training sequence, in order (therapist.rb:50-51).
   */
  lemma ParseFragmentSuccessors(t: Table, fragment: Option<string>, k: Token)
    ensures Successors(ParseFragment(t, fragment), k) == Successors(t, k) + Followers(Training(fragment), k)
  {
    var ws := Training(fragment);
    if ws != [] {
      var m := |ws| - 1;
      LearnPrefixSuccessors(t, ws, m, k);
      assert LearnPrefix(t, ws, m + 1) == LearnPrefix(t, ws, m);
      assert ws[..m + 1] == ws;
    }
  }

  /** Every adjacent pair `k, x` of `ws` with `k` not END makes `x` a follower of `k`. */
  lemma {:induction false} FollowersHold(ws: seq<Token>, i: nat)
    requires i + 1 < |ws| && ws[i] != End
    ensures ws[i + 1] in Followers(ws, ws[i])
    decreases i
  {
    if i > 0 {
      FollowersHold(ws[1..], i - 1);
      assert ws[1..][i - 1] == ws[i] && ws[1..][i] == ws[i + 1];
    }
  }

  /**
   * Parsing a string records every adjacency of its training sequence: for
   * each position other than END, its right neighbour is in its list.
   */
  lemma ParseStringRecordsPairs(t: Table, s: string)
    ensures var ws, r := Training(Some(s)), ParseFragment(t, Some(s));
      forall i | 0 <= i < |ws| - 1 :: ws[i] in r && ws[i + 1] in r[ws[i]]
  {
    var ws, r := Training(Some(s)), ParseFragment(t, Some(s));
    forall i | 0 <= i < |ws| - 1 ensures ws[i] in r && ws[i + 1] in r[ws[i]] {
      assert ws[i] != End;
      FollowersHold(ws, i);
      ParseFragmentSuccessors(t, Some(s), ws[i]);
    }
  }

  /** The sum of the lengths of the lists of the keys `ks`. */
  ghost function ListsLength(t: Table, ks: set<Token>): nat
    requires ks <= t.Keys
    decreases ks
  {
    if ks == {} then 0
    else
      var k :| k in ks;
      |t[k]| + ListsLength(t, ks - {k})
  }

  /** The number of recorded transitions: the sum of the lengths of all lists. */
  ghost function Transitions(t: Table): nat {
    ListsLength(t, t.Keys)
  }

  /** The sum does not depend on which key is taken first. */
  lemma {:induction false} ListsLengthRemove(t: Table, ks: set<Token>, k: Token)
    requires ks <= t.Keys && k in ks
    ensures ListsLength(t, ks) == |t[k]| + ListsLength(t, ks - {k})
    decreases ks
  {
    var j :| j in ks && ListsLength(t, ks) == |t[j]| + ListsLength(t, ks - {j});
    if j != k {
      ListsLengthRemove(t, ks - {j}, k);
      ListsLengthRemove(t, ks - {k}, j);
      assert ks - {j} - {k} == ks - {k} - {j};
    }
  }

  /** The sum over `ks` only reads the lists of `ks`. */
  lemma {:induction false} ListsLengthAgree(t: Table, u: Table, ks: set<Token>)
    requires ks <= t.Keys && ks <= u.Keys
    requires forall k | k in ks :: t[k] == u[k]
    ensures ListsLength(t, ks) == ListsLength(u, ks)
    decreases ks
  {
    if ks != {} {
      var k :| k in ks;
      ListsLengthRemove(t, ks, k);
      ListsLengthRemove(u, ks, k);
      ListsLengthAgree(t, u, ks - {k});
    }
  }

  /** `add_word_after_word` records exactly one transition more. */
  lemma AddAfterAddsOne(t: Table, a: Token, b: Token)
    ensures Transitions(AddAfter(t, a, b)) == Transitions(t) + 1
  {
    var r := AddAfter(t, a, b);
    var others := t.Keys - {a};
    ListsLengthRemove(r, r.Keys, a);
    assert r.Keys - {a} == others;
    ListsLengthAgree(r, t, others);
    if a in t {
      ListsLengthRemove(t, t.Keys, a);
    } else {
      assert others == t.Keys;
    }
  }

  /** Visiting no position records nothing. */
  lemma LearnPrefixZeroCount(t: Table, ws: seq<Token>)
    requires ws == [] || ws[|ws| - 1] == End
    ensures Transitions(LearnPrefix(t, ws, 0)) == Transitions(t)
  {
    assert LearnPrefix(t, ws, 0) == t;
  }

  /** Visiting one more position, other than END, records one transition more. */
  lemma LearnPrefixStepCount(t: Table, ws: seq<Token>, n: nat)
    requires ws != [] && ws[|ws| - 1] == End && 0 < n < |ws| && ws[n - 1] != End
    ensures Transitions(LearnPrefix(t, ws, n)) == Transitions(LearnPrefix(t, ws, n - 1)) + 1
  {
    var prev := LearnPrefix(t, ws, n - 1);
    assert LearnPrefix(t, ws, n) == AddAfter(prev, ws[n - 1], ws[n]);
    AddAfterAddsOne(prev, ws[n - 1], ws[n]);
  }

  /** Each visited token other than END records one transition. */
  lemma LearnPrefixCount(t: Table, ws: seq<Token>, n: nat)
    requires ws != [] && ws[|ws| - 1] == End && n < |ws|
    requires forall i | 0 <= i < n :: ws[i] != End
    ensures Transitions(LearnPrefix(t, ws, n)) == Transitions(t) + n
  {
    LearnPrefixZeroCount(t, ws);
    var i := 0;
    while i < n
      invariant i <= n
      invariant Transitions(LearnPrefix(t, ws, i)) == Transitions(t) + i
    {
      i := i + 1;
      LearnPrefixStepCount(t, ws, i);
    }
  }

  /**
   * Parsing a string fragment of n words appends exactly one entry to
   * START's list (the first word, or END for a blank fragment), records
   * exactly n + 1 transitions in all, never makes END a key and keeps the
   * table invariant.
   */
  lemma ParseString(t: Table, s: string)
    requires WellFormed(t)
    ensures var r := ParseFragment(t, Some(s));
      && WellFormed(r)
      && End !in r
      && r[Start] == t[Start] + [if Tokenize(s) == [] then End else Word(Tokenize(s)[0])]
      && Transitions(r) == Transitions(t) + |Tokenize(s)| + 1
  {
    ParseFragmentKeepsWellFormed(t, Some(s));
    ParseStringStart(t, s);
    ParseStringCount(t, s);
  }

  /** The START entry of `ParseString`: START is visited once, at the front. */
  lemma ParseStringStart(t: Table, s: string)
    requires Start in t
    ensures var r := ParseFragment(t, Some(s));
      Start in r && r[Start] == t[Start] + [if Tokenize(s) == [] then End else Word(Tokenize(s)[0])]
  {
    var ws := Training(Some(s));
    LearnPrefixElsewhere(t, ws, 1, |ws|, Start);
  }

  /** The count of `ParseString`: every position but the last END records one transition. */
  lemma ParseStringCount(t: Table, s: string)
    ensures Transitions(ParseFragment(t, Some(s))) == Transitions(t) + |Tokenize(s)| + 1
  {
    var ws := Training(Some(s));
    LearnPrefixCount(t, ws, |ws| - 1);
  }

  /** A fragment that is not a string leaves the table completely unchanged. */
  lemma ParseNilIsNoOp(t: Table)
    ensures ParseFragment(t, None) == t
  {
  }

  /** Training on a corpus is training on all but its last fragment, then on that one. */
  lemma TrainLast(t: Table, c: seq<Option<string>>, init: seq<Option<string>>, last: Option<string>)
    requires c != [] && c[..|c| - 1] == init && c[|c| - 1] == last
    ensures Train(t, c) == ParseFragment(Train(t, init), last)
  {
  }

  /** Training on two corpora in turn is training on their concatenation. */
  lemma {:induction false} TrainAppend(t: Table, a: seq<Option<string>>, b: seq<Option<string>>)
    ensures Train(t, a + b) == Train(Train(t, a), b)
    decreases |b|
  {
    if b == [] {
      assert a + b == a;
    } else {
      var c, b' := a + b, b[..|b| - 1];
      assert c[..|c| - 1] == a + b';
      TrainLast(t, c, a + b', b[|b| - 1]);
      TrainAppend(t, a, b');
    }
  }

  /** A nil fragment anywhere in the corpus is skipped; the fragments around it are still processed. */
  lemma TrainSkipsNil(t: Table, a: seq<Option<string>>, b: seq<Option<string>>)
    ensures Train(t, a + [None] + b) == Train(t, a + b)
  {
    TrainAppend(t, a + [None], b);
    assert (a + [None])[..|a|] == a;
    TrainAppend(t, a, b);
  }

  /**
   * A corpus with no string in it (empty, or all nil) leaves the initial
   * table: START as the only key, with an empty list.
   */
  lemma {:induction false} NilCorpusKeepsEmptyTable(corpus: seq<Option<string>>)
    requires forall i | 0 <= i < |corpus| :: corpus[i].None?
    ensures Train(EmptyTable(), corpus).Keys == {Start}
    ensures Train(EmptyTable(), corpus)[Start] == []
    decreases |corpus|
  {
    if corpus != [] {
      NilCorpusKeepsEmptyTable(corpus[..|corpus| - 1]);
    }
  }

  /** Fragments with the same words, however they are spaced, train identical transitions. */
  lemma SameWordsSameTable(t: Table, s1: string, s2: string)
    requires Words(s1) == Words(s2)
    ensures ParseFragment(t, Some(s1)) == ParseFragment(t, Some(s2))
  {
  }
}
