/**
 * The string operations `parse` and `generate` rely on (therapist.rb:37, 49):
 * collapsing whitespace runs, stripping the ends, Ruby's awk-style
 * `split(' ')` and `join(' ')`.
 */
module Text {

  /** Ruby's `\s`, which is also what `split(' ')` splits on: space, \t, \n, \v, \f, \r. */
  predicate IsSpace(c: char) {
    c == ' ' || c == '\t' || c == '\n' || c == '\U{000B}' || c == '\U{000C}' || c == '\r'
  }

  /** A word as `split(' ')` produces it: non-empty, without whitespace. */
  predicate IsWord(w: string) {
    w != [] && forall i | 0 <= i < |w| :: !IsSpace(w[i])
  }

  /** Length of the whitespace run that starts `s`. */
  function SpaceRun(s: string): (n: nat)
    ensures n <= |s|
    ensures forall i | 0 <= i < n :: IsSpace(s[i])
    ensures n < |s| ==> !IsSpace(s[n])
  {
    if s != [] && IsSpace(s[0]) then 1 + SpaceRun(s[1..]) else 0
  }

  /** Length of the non-whitespace run that starts `s`. */
  function WordRun(s: string): (n: nat)
    ensures n <= |s|
    ensures forall i | 0 <= i < n :: !IsSpace(s[i])
    ensures n < |s| ==> IsSpace(s[n])
  {
    if s != [] && !IsSpace(s[0]) then 1 + WordRun(s[1..]) else 0
  }

  /** Length of the whitespace run that ends `s`. */
  function TrailingSpaceRun(s: string): (n: nat)
    ensures n <= |s|
    ensures forall i | |s| - n <= i < |s| :: IsSpace(s[i])
    ensures n < |s| ==> !IsSpace(s[|s| - n - 1])
  {
    if s != [] && IsSpace(s[|s| - 1]) then 1 + TrailingSpaceRun(s[..|s| - 1]) else 0
  }

  /** `gsub(/\s+/m, ' ')`: every maximal run of whitespace becomes one space. */
  function Collapse(s: string): (r: string)
    ensures |r| <= |s|
    ensures r == [] <==> s == []
    ensures r != [] ==> (IsSpace(r[0]) <==> IsSpace(s[0]))
    ensures r != [] ==> (IsSpace(r[|r| - 1]) <==> IsSpace(s[|s| - 1]))
    ensures forall i | 0 <= i < |r| :: IsSpace(r[i]) ==> r[i] == ' '
    ensures forall i | 0 <= i < |r| - 1 :: IsSpace(r[i]) ==> !IsSpace(r[i + 1])
    decreases |s|
  {
    if s == [] then []
    else if IsSpace(s[0]) then " " + Collapse(s[SpaceRun(s)..])
    else
      var n := WordRun(s);
      s[..n] + Collapse(s[n..])
  }

  /**
   * `gsub(/^\s+|\s+$/m, '')` on the collapsed string: that string holds no
   * line break, so the line anchors are its two ends and the substitution
   * removes the leading and the trailing whitespace.
   */
  function Trim(s: string): (r: string)
    ensures SpaceRun(s) + |r| <= |s| && r == s[SpaceRun(s)..SpaceRun(s) + |r|]
    ensures forall i | 0 <= i < |s| && (i < SpaceRun(s) || SpaceRun(s) + |r| <= i) :: IsSpace(s[i])
    ensures r != [] ==> !IsSpace(r[0]) && !IsSpace(r[|r| - 1])
  {
    var rest := s[SpaceRun(s)..];
    rest[..|rest| - TrailingSpaceRun(rest)]
  }

  /** `split(' ')`, Ruby's awk-style split: the maximal non-whitespace runs, in order. */
  function Words(s: string): (ws: seq<string>)
    ensures forall i | 0 <= i < |ws| :: IsWord(ws[i])
    decreases |s|
  {
    if s == [] then []
    else if IsSpace(s[0]) then Words(s[1..])
    else
      var n := WordRun(s);
      [s[..n]] + Words(s[n..])
  }

  /**
   * The word list `parse` takes from one fragment (therapist.rb:49): the
   * maximal non-whitespace runs of the fragment, whose single-spaced join is
   * exactly the collapsed and stripped fragment.
   */
  function Tokenize(s: string): (ws: seq<string>)
    ensures ws == Words(s)
    ensures Join(ws) == Trim(Collapse(s))
  {
    CollapseKeepsWords(s);
    TrimKeepsWords(Collapse(s));
    NormalForm(s);
    Words(Trim(Collapse(s)))
  }

  /** `join(' ')`: the empty list gives the empty string; otherwise the text starts with the first word. */
  function Join(ws: seq<string>): (s: string)
    ensures ws == [] ==> s == ""
    ensures ws != [] ==> ws[0] <= s
  {
    if ws == [] then ""
    else if |ws| == 1 then ws[0]
    else ws[0] + " " + Join(ws[1..])
  }

  /** The non-whitespace run of `s` is determined by its end. */
  lemma WordRunIs(s: string, n: nat)
    requires n <= |s|
    requires forall i | 0 <= i < n :: !IsSpace(s[i])
    requires n == |s| || IsSpace(s[n])
    ensures WordRun(s) == n
  {
  }

  /** A string of whitespace holds no word. */
  lemma {:induction false} AllSpacesHoldNoWord(s: string)
    requires forall i | 0 <= i < |s| :: IsSpace(s[i])
    ensures Words(s) == []
    decreases |s|
  {
    if s != [] {
      AllSpacesHoldNoWord(s[1..]);
    }
  }

  /** Dropping leading whitespace does not change the words. */
  lemma {:induction false} LeadingSpacesHoldNoWord(s: string, k: nat)
    requires k <= SpaceRun(s)
    ensures Words(s[k..]) == Words(s)
  {
    if k > 0 {
      LeadingSpacesHoldNoWord(s, k - 1);
      assert s[k - 1..][1..] == s[k..];
    }
  }

  /** Appending whitespace does not change the words. */
  lemma {:induction false} TrailingSpacesHoldNoWord(x: string, y: string)
    requires forall i | 0 <= i < |y| :: IsSpace(y[i])
    ensures Words(x + y) == Words(x)
    decreases |x|
  {
    if x == [] {
      AllSpacesHoldNoWord(y);
      assert x + y == y;
    } else if IsSpace(x[0]) {
      assert (x + y)[1..] == x[1..] + y;
      TrailingSpacesHoldNoWord(x[1..], y);
    } else {
      var n := WordRun(x);
      WordRunIs(x + y, n);
      assert (x + y)[..n] == x[..n];
      assert (x + y)[n..] == x[n..] + y;
      TrailingSpacesHoldNoWord(x[n..], y);
    }
  }

  /** Collapsing whitespace runs keeps the word sequence. */
  lemma {:induction false} CollapseKeepsWords(s: string)
    ensures Words(Collapse(s)) == Words(s)
    decreases |s|
  {
    if s == [] {
    } else if IsSpace(s[0]) {
      var a := SpaceRun(s);
      var c := Collapse(s[a..]);
      assert (" " + c)[1..] == c;
      CollapseKeepsWords(s[a..]);
      LeadingSpacesHoldNoWord(s, a);
    } else {
      var n := WordRun(s);
      var c := Collapse(s[n..]);
      WordRunIs(s[..n] + c, n);
      assert (s[..n] + c)[..n] == s[..n];
      assert (s[..n] + c)[n..] == c;
      CollapseKeepsWords(s[n..]);
    }
  }

  /** Dropping the trailing whitespace run keeps the word sequence. */
  lemma {:induction false} DropTrailingSpaces(x: string)
    ensures Words(x[..|x| - TrailingSpaceRun(x)]) == Words(x)
    decreases |x|
  {
    if x != [] && IsSpace(x[|x| - 1]) {
      var init := x[..|x| - 1];
      assert x[..|x| - TrailingSpaceRun(x)] == init[..|init| - TrailingSpaceRun(init)];
      DropTrailingSpaces(init);
      assert x == init + [x[|x| - 1]];
      TrailingSpacesHoldNoWord(init, [x[|x| - 1]]);
    } else {
      assert x[..|x|] == x;
    }
  }

  /** Stripping the ends keeps the word sequence. */
  lemma TrimKeepsWords(s: string)
    ensures Words(Trim(s)) == Words(s)
  {
    var a := SpaceRun(s);
    var rest := s[a..];
    LeadingSpacesHoldNoWord(s, a);
    DropTrailingSpaces(rest);
    assert Trim(s) == rest[..|rest| - TrailingSpaceRun(rest)];
  }

  /** Splitting the single-spaced join of words gives the words back. */
  lemma {:induction false} JoinRoundTrip(ws: seq<string>)
    requires forall i | 0 <= i < |ws| :: IsWord(ws[i])
    ensures Words(Join(ws)) == ws
  {
    if ws == [] {
    } else if |ws| == 1 {
      var w := ws[0];
      WordRunIs(w, |w|);
      assert w[..|w|] == w;
      assert w[|w|..] == [];
    } else {
      var w, rest := ws[0], Join(ws[1..]);
      var s := w + " " + rest;
      WordRunIs(s, |w|);
      assert s[..|w|] == w;
      assert s[|w|..] == " " + rest;
      assert (" " + rest)[1..] == rest;
      JoinRoundTrip(ws[1..]);
      assert ws == [w] + ws[1..];
    }
  }

  /** A single-spaced line of real words tokenizes to exactly those words. */
  lemma TokenizeLine(ws: seq<string>)
    requires forall i | 0 <= i < |ws| :: IsWord(ws[i])
    ensures Tokenize(Join(ws)) == ws
  {
    JoinRoundTrip(ws);
  }

  /** A string in normal form: single spaces only, no two in a row, none at either end. */
  predicate SingleSpaced(c: string) {
    && (forall i | 0 <= i < |c| :: IsSpace(c[i]) ==> c[i] == ' ')
    && (forall i | 0 <= i < |c| - 1 :: IsSpace(c[i]) ==> !IsSpace(c[i + 1]))
    && (c != [] ==> !IsSpace(c[0]) && !IsSpace(c[|c| - 1]))
  }

  /** A suffix of a string in normal form that starts right after a space is again in normal form. */
  lemma SingleSpacedSuffix(c: string, m: nat)
    requires SingleSpaced(c) && 0 < m <= |c| && IsSpace(c[m - 1])
    ensures SingleSpaced(c[m..])
  {
    var rest := c[m..];
    forall i | 0 <= i < |rest| ensures rest[i] == c[m + i] {
    }
  }

  /** Past the first word of a string in normal form come exactly one space and at least one more character. */
  lemma SingleSpacedTail(c: string, n: nat)
    requires SingleSpaced(c) && n == WordRun(c) && n < |c|
    ensures c[n] == ' ' && n + 1 < |c|
  {
    assert IsSpace(c[n]);
  }

  /** A string is its part before position `n`, the character at `n`, and the part after it. */
  lemma SplitAt(c: string, n: nat)
    requires n < |c|
    ensures c == c[..n] + [c[n]] + c[n + 1..]
  {
  }

  /** The words of a string that starts with a word `c[..n]` and a space are that word and the words after the space. */
  lemma WordsAfterFirst(c: string, n: nat)
    requires c != [] && !IsSpace(c[0]) && n == WordRun(c) && n < |c|
    ensures Words(c) == [c[..n]] + Words(c[n + 1..])
  {
    assert c[n..][1..] == c[n + 1..];
  }

  /** A string in normal form is the single-spaced join of its own words. */
  lemma {:induction false} SingleSpacedIsJoin(c: string)
    requires SingleSpaced(c)
    ensures Join(Words(c)) == c
    decreases |c|
  {
    if c != [] {
      var n := WordRun(c);
      if n == |c| {
        assert c[..n] == c;
        assert c[n..] == [];
      } else {
        var rest := c[n + 1..];
        SingleSpacedTail(c, n);
        SingleSpacedSuffix(c, n + 1);
        SplitAt(c, n);
        SingleSpacedIsJoin(rest);
        WordsAfterFirst(c, n);
        var ws := Words(rest);
        assert ws != [];
        assert ([c[..n]] + ws)[1..] == ws;
      }
    }
  }

  /**
   * The missing half of the round trip: collapsing and stripping a fragment
   * yields exactly the single-spaced join of its words.
   */
  lemma NormalForm(s: string)
    ensures Trim(Collapse(s)) == Join(Words(s))
  {
    var c := Collapse(s);
    var r := Trim(c);
    var a := SpaceRun(c);
    assert SingleSpaced(r) by {
      forall i | 0 <= i < |r| ensures r[i] == c[a + i] {
      }
    }
    SingleSpacedIsJoin(r);
    CollapseKeepsWords(s);
    TrimKeepsWords(c);
  }
}
