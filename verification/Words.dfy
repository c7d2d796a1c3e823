/** Space-separated requests: what simpleTokenizer (server/protocol.c:126-153) reads. */
module Words {
  predicate IsSeparator(c: char) {
    c == ' ' || c == '\r' || c == '\n' || c == 0 as char
  }

  predicate SeparatorAt(s: string, i: nat)
    requires i < |s|
  {
    IsSeparator(s[i])
  }

  /** The first position from i on that holds no separator. */
  function WordStart(s: string, i: nat): (a: nat)
    requires i <= |s|
    ensures i <= a <= |s|
    ensures a < |s| ==> !SeparatorAt(s, a)
    decreases |s| - i
  {
    if i == |s| || !SeparatorAt(s, i) then i else WordStart(s, i + 1)
  }

  lemma {:induction false} OnlySeparators(s: string, i: nat)
    requires i <= |s|
    ensures forall k {:trigger SeparatorAt(s, k)} :: i <= k < WordStart(s, i) ==> SeparatorAt(s, k)
    decreases |s| - i
  {
    if i < WordStart(s, i) { OnlySeparators(s, i + 1); }
  }

  /** The first position from i on that holds a separator. */
  function WordEnd(s: string, i: nat): (b: nat)
    requires i <= |s|
    ensures i <= b <= |s|
    ensures b < |s| ==> SeparatorAt(s, b)
    decreases |s| - i
  {
    if i == |s| || SeparatorAt(s, i) then i else WordEnd(s, i + 1)
  }

  lemma {:induction false} NoSeparators(s: string, i: nat)
    requires i <= |s|
    ensures forall k {:trigger SeparatorAt(s, k)} :: i <= k < WordEnd(s, i) ==> !SeparatorAt(s, k)
    decreases |s| - i
  {
    if i < WordEnd(s, i) { NoSeparators(s, i + 1); }
  }

  /** Where the words from i on start and end. */
  function RunsFrom(s: string, i: nat): seq<(nat, nat)>
    requires i <= |s|
    decreases |s| - i
  {
    var a := WordStart(s, i);
    if a == |s| then []
    else
      assert a < WordEnd(s, a);
      [(a, WordEnd(s, a))] + RunsFrom(s, WordEnd(s, a))
  }

  function WordsFrom(s: string, i: nat): seq<string>
    requires i <= |s|
    decreases |s| - i
  {
    var a := WordStart(s, i);
    if a == |s| then []
    else
      assert a < WordEnd(s, a);
      [s[a..WordEnd(s, a)]] + WordsFrom(s, WordEnd(s, a))
  }

  /** A run without separators that cannot be made longer at either end. */
  ghost predicate MaximalRun(s: string, a: nat, b: nat) {
    && a < b <= |s|
    && (forall k {:trigger SeparatorAt(s, k)} :: a <= k < b ==> !SeparatorAt(s, k))
    && (a == 0 || SeparatorAt(s, a - 1))
    && (b == |s| || SeparatorAt(s, b))
  }

  /** Two maximal runs that share a position are one. */
  lemma RunsShare(s: string, a: nat, b: nat, x: nat, y: nat, k: nat)
    requires MaximalRun(s, a, b) && MaximalRun(s, x, y) && a <= k < b && x <= k < y
    ensures a == x && b == y
  {
    assert a > 0 ==> SeparatorAt(s, a - 1);
    assert x > 0 ==> SeparatorAt(s, x - 1);
    assert b < |s| ==> SeparatorAt(s, b);
    assert y < |s| ==> SeparatorAt(s, y);
  }

  /** From a place that does not split a run, the runs found are exactly the maximal ones. */
  lemma {:induction false} RunsExact(s: string, i: nat, a: nat, b: nat)
    requires i <= |s| && (i == 0 || i == |s| || SeparatorAt(s, i) || SeparatorAt(s, i - 1))
    ensures (a, b) in RunsFrom(s, i) <==> i <= a && MaximalRun(s, a, b)
    decreases |s| - i
  {
    var x := WordStart(s, i);
    OnlySeparators(s, i);
    if x == |s| {
      assert a < |s| ==> (i <= a ==> SeparatorAt(s, a));
    } else {
      var y := WordEnd(s, x);
      NoSeparators(s, x);
      assert x < y;
      RunsExact(s, y, a, b);
      assert (x, y) in RunsFrom(s, i);
      assert (a, b) in RunsFrom(s, i) <==> (a, b) == (x, y) || (a, b) in RunsFrom(s, y);
      assert x > i ==> SeparatorAt(s, x - 1);
      assert MaximalRun(s, x, y);
      if MaximalRun(s, a, b) && i <= a < y {
        assert !SeparatorAt(s, a);
        RunsShare(s, a, b, x, y, a);
      }
    }
  }

  /** The words are the runs, in order of position. */
  lemma {:induction false} WordsAreRuns(s: string, i: nat)
    requires i <= |s|
    ensures |WordsFrom(s, i)| == |RunsFrom(s, i)|
    ensures forall k :: 0 <= k < |RunsFrom(s, i)| ==>
      var (a, b) := RunsFrom(s, i)[k];
      i <= a < b <= |s| && WordsFrom(s, i)[k] == s[a..b]
    ensures forall k :: 0 <= k < |RunsFrom(s, i)| - 1 ==> RunsFrom(s, i)[k].1 <= RunsFrom(s, i)[k + 1].0
    decreases |s| - i
  {
    if WordStart(s, i) < |s| {
      WordsAreRuns(s, WordEnd(s, WordStart(s, i)));
    }
  }

  // ----- joining words with a space, and reading them again -----

  predicate CleanAt(words: seq<string>, k: nat)
    requires k < |words|
  {
    words[k] != [] && forall i {:trigger SeparatorAt(words[k], i)} :: 0 <= i < |words[k]| ==> !SeparatorAt(words[k], i)
  }

  /** Nonempty words without a separator in them. */
  predicate Clean(words: seq<string>) {
    forall k {:trigger CleanAt(words, k)} :: 0 <= k < |words| ==> CleanAt(words, k)
  }

  function Join(words: seq<string>): string {
    if words == [] then []
    else if |words| == 1 then words[0]
    else words[0] + " " + Join(words[1..])
  }

  /** s is the rest of t from n on. */
  predicate RestOf(t: string, n: nat, s: string) {
    n + |s| == |t| && t[n..] == s
  }

  lemma {:induction false} WordStartShift(t: string, n: nat, s: string, i: nat)
    requires RestOf(t, n, s) && i <= |s|
    ensures WordStart(t, n + i) == n + WordStart(s, i)
    decreases |s| - i
  {
    if i < |s| {
      assert t[n..][i] == t[n + i];
      assert SeparatorAt(t, n + i) == SeparatorAt(s, i);
      WordStartShift(t, n, s, i + 1);
    }
  }

  lemma {:induction false} WordEndShift(t: string, n: nat, s: string, i: nat)
    requires RestOf(t, n, s) && i <= |s|
    ensures WordEnd(t, n + i) == n + WordEnd(s, i)
    decreases |s| - i
  {
    if i < |s| {
      assert t[n..][i] == t[n + i];
      assert SeparatorAt(t, n + i) == SeparatorAt(s, i);
      WordEndShift(t, n, s, i + 1);
    }
  }

  lemma {:induction false} NextWord(s: string, i: nat, x: nat, y: nat)
    requires i <= |s| && x == WordStart(s, i) < |s| && y == WordEnd(s, x)
    ensures x < y && WordsFrom(s, i) == [s[x..y]] + WordsFrom(s, y)
  {
  }

  lemma ShiftedSlice(t: string, n: nat, s: string, x: nat, y: nat)
    requires RestOf(t, n, s) && x <= y <= |s|
    ensures t[n + x..n + y] == s[x..y]
  {
    var a, b := t[n + x..n + y], s[x..y];
    forall k | 0 <= k < y - x
      ensures a[k] == b[k]
    {
      assert t[n..][x + k] == t[n + x + k];
    }
  }

  /** The words after a prefix are the words of the rest. */
  lemma {:induction false} WordsShift(t: string, n: nat, s: string, i: nat)
    requires RestOf(t, n, s) && i <= |s|
    ensures WordsFrom(t, n + i) == WordsFrom(s, i)
    decreases |s| - i
  {
    WordStartShift(t, n, s, i);
    var x := WordStart(s, i);
    if x < |s| {
      WordEndShift(t, n, s, x);
      var y := WordEnd(s, x);
      NextWord(s, i, x, y);
      NextWord(t, n + i, n + x, n + y);
      ShiftedSlice(t, n, s, x, y);
      WordsShift(t, n, s, y);
    }
  }

  lemma {:induction false} WordsAreClean(s: string, i: nat)
    requires i <= |s|
    ensures Clean(WordsFrom(s, i))
    decreases |s| - i
  {
    var a := WordStart(s, i);
    if a < |s| {
      var b := WordEnd(s, a);
      NoSeparators(s, a);
      assert a < b;
      WordsAreClean(s, b);
      var rest, w := WordsFrom(s, b), s[a..b];
      forall k | 0 <= k < |WordsFrom(s, i)|
        ensures CleanAt(WordsFrom(s, i), k)
      {
        if k == 0 {
          assert forall j :: 0 <= j < |w| ==> SeparatorAt(w, j) == SeparatorAt(s, a + j);
        } else {
          assert CleanAt(rest, k - 1);
        }
      }
    }
  }

  lemma {:induction false} WordEndIs(s: string, i: nat, e: nat)
    requires i <= e <= |s| && (e < |s| ==> SeparatorAt(s, e))
    requires forall k {:trigger SeparatorAt(s, k)} :: i <= k < e ==> !SeparatorAt(s, k)
    ensures WordEnd(s, i) == e
    decreases e - i
  {
    if i != e {
      assert !SeparatorAt(s, i);
      WordEndIs(s, i + 1, e);
    }
  }

  /** A word followed by a separator, or by nothing, is read as one word. */
  lemma {:induction false} FirstWord(w: string, rest: string)
    requires w != [] && CleanAt([w], 0) && (rest == [] || IsSeparator(rest[0]))
    ensures WordStart(w + rest, 0) == 0 && WordEnd(w + rest, 0) == |w|
  {
    var s := w + rest;
    forall k | 0 <= k < |w|
      ensures !SeparatorAt(s, k)
    {
      assert !SeparatorAt([w][0], k);
    }
    assert !SeparatorAt(s, 0);
    WordEndIs(s, 0, |w|);
  }

  lemma {:induction false} SpaceBefore(s: string)
    ensures WordsFrom(" " + s, 0) == WordsFrom(s, 0)
  {
    assert (" " + s)[1..] == s;
    WordsShift(" " + s, 1, s, 0);
    assert SeparatorAt(" " + s, 0);
    assert WordStart(" " + s, 0) == WordStart(" " + s, 1);
  }

  lemma CleanRest(words: seq<string>)
    requires Clean(words) && words != []
    ensures CleanAt([words[0]], 0) && Clean(words[1..]) && words == [words[0]] + words[1..]
  {
    assert CleanAt(words, 0) && [words[0]][0] == words[0];
    forall k | 0 <= k < |words[1..]|
      ensures CleanAt(words[1..], k)
    {
      assert CleanAt(words, k + 1);
    }
  }

  /** A word and then a separator, or nothing: the word is read, and then what follows. */
  lemma {:induction false} WordThenRest(w: string, rest: string)
    requires CleanAt([w], 0) && (rest == [] || IsSeparator(rest[0]))
    ensures WordsFrom(w + rest, 0) == [w] + WordsFrom(rest, 0)
  {
    assert w != [] by { assert [w][0] == w; }
    FirstWord(w, rest);
    assert (w + rest)[|w|..] == rest;
    WordsShift(w + rest, |w|, rest, 0);
    assert (w + rest)[0..|w|] == w;
  }

  /** Clean words joined by a space are read back as they were. */
  lemma {:induction false} JoinReadsBack(words: seq<string>)
    requires Clean(words)
    ensures WordsFrom(Join(words), 0) == words
  {
    if words != [] {
      CleanRest(words);
      var w, more := words[0], words[1..];
      if more == [] {
        WordThenRest(w, []);
        assert w + [] == w && WordsFrom([], 0) == [];
      } else {
        WordThenRest(w, " " + Join(more));
        SpaceBefore(Join(more));
        JoinReadsBack(more);
        assert w + " " + Join(more) == w + (" " + Join(more));
      }
    }
  }

  /** Tokenizing the tokens joined by a space changes nothing. */
  lemma {:induction false} RetokenizeSame(s: string)
    ensures var words := WordsFrom(s, 0); WordsFrom(Join(words), 0) == words
  {
    WordsAreClean(s, 0);
    JoinReadsBack(WordsFrom(s, 0));
  }
}
