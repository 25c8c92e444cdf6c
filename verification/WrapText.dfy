/**
 * Greedy wrapping of report prose: words are never split, a line holds as many as fit.
 */
module WrapText {
  import opened Options
  import opened Text
  import opened TextWords

  // ---- Wrappings ----

  /** A line of two or more words keeps to the width; a single word may overrun it. */
  predicate Fits(group: seq<string>, prefix: string, width: int) {
    |group| >= 2 ==> |prefix| + |Line(group)| <= width
  }

  /**
   * A division of the words, in order, into lines that fit: the first after its own prefix, the others
   * after theirs.
   */
  predicate Wraps(words: seq<string>, groups: seq<seq<string>>, first: string, rest: string, width: int) {
    if groups == [] then words == []
    else
      && groups[0] != []
      && groups[0] <= words
      && Fits(groups[0], first, width)
      && Wraps(words[|groups[0]|..], groups[1..], rest, rest, width)
  }

  /** Wrapping with a line begun. */
  function Continue(group: seq<string>, words: seq<string>, first: string, rest: string, width: int): seq<seq<string>>
    decreases |words|
  {
    if words == [] then [group]
    else if |first| + |Line(group)| + 1 + |words[0]| <= width
      then Continue(group + [words[0]], words[1..], first, rest, width)
    else [group] + Continue([words[0]], words[1..], rest, rest, width)
  }

  function Greedy(words: seq<string>, first: string, rest: string, width: int): seq<seq<string>> {
    if words == [] then [] else Continue([words[0]], words[1..], first, rest, width)
  }

  function Printed(groups: seq<seq<string>>, first: string, rest: string): seq<string> {
    if groups == [] then [] else [first + Line(groups[0])] + Printed(groups[1..], rest, rest)
  }

  /** One line for each group, after its prefix, with single spaces between the words. */
  lemma {:induction false} PrintedEach(groups: seq<seq<string>>, first: string, rest: string)
    ensures |Printed(groups, first, rest)| == |groups|
    ensures forall k :: 0 <= k < |groups| ==>
      Printed(groups, first, rest)[k] == (if k == 0 then first else rest) + Line(groups[k])
  {
    hide Line;
    if groups != [] {
      PrintedEach(groups[1..], rest, rest);
    }
  }

  /** Wrap the text; a text without words still prints its bare prefix. */
  method Wrap(text: string, width: int, first: string, rest: string) returns (lines: seq<string>)
    ensures lines == if Words(text) == [] then [TrimEnd(first)]
      else Printed(Greedy(Words(text), first, rest, width), first, rest)
  {
    hide Words, TrimEnd, Fits, Wraps;
    lines := [];
    var words := Words(text);
    var prefix, line := first, "";
    ghost var all := Printed(Greedy(words, first, rest, width), first, rest);
    ghost var group: seq<string> := [];
    WordsAreWords(text);
    var i := 0;
    while i < |words|
      invariant i <= |words|
      invariant line == Line(group) && (group == [] <==> line == "")
      invariant group == [] ==> i == 0 && lines == [] && prefix == first
      invariant group != [] ==> all == lines + Printed(Continue(group, words[i..], prefix, rest, width), prefix, rest)
    {
      var word := words[i];
      assert word in words;
      ghost var left := words[i..];
      assert left[0] == word && left[1..] == words[i + 1..];
      if line == "" {
        line := word;
        group := [word];
        assert lines + all == all && left == words;
      } else if |prefix| + |line| + 1 + |word| <= width {
        LineOfTwo(group, [word]);
        line := line + [' '] + word;
        group := group + [word];
      } else {
        ghost var more := Continue([word], words[i + 1..], rest, rest, width);
        assert ([group] + more)[1..] == more;
        ConcatAssoc(lines, [prefix + line], Printed(more, rest, rest));
        lines := lines + [prefix + line];
        prefix := rest;
        line := word;
        group := [word];
      }
      i := i + 1;
    }
    if line != "" {
      assert words[i..] == [] && [group][1..] == [];
      lines := lines + [prefix + line];
    }
    if lines == [] {
      lines := [TrimEnd(first)];
    }
  }

  // ---- The greedy wrapping is one, and no other uses fewer lines ----

  lemma {:induction false} ContinueWraps(group: seq<string>, words: seq<string>, first: string, rest: string,
    width: int)
    requires group != [] && Fits(group, first, width)
    ensures Wraps(group + words, Continue(group, words, first, rest, width), first, rest, width)
    decreases |words|
  {
    hide Line;
    if words == [] {
      assert group + words == group && group[|group|..] == [];
    } else if |first| + |Line(group)| + 1 + |words[0]| <= width {
      LineOfWord(words[0]);
      LineOfTwo(group, [words[0]]);
      ContinueWraps(group + [words[0]], words[1..], first, rest, width);
      assert group + [words[0]] + words[1..] == group + words;
    } else {
      ContinueWraps([words[0]], words[1..], rest, rest, width);
      assert [words[0]] + words[1..] == words;
      assert (group + words)[|group|..] == words;
      var more := Continue([words[0]], words[1..], rest, rest, width);
      assert ([group] + more)[1..] == more;
    }
  }

  lemma LineOfWord(word: string)
    ensures Line([word]) == word
  {
  }

  /** No word is lost or moved, no line is empty, and every line of two or more words fits. */
  lemma GreedyWraps(words: seq<string>, first: string, rest: string, width: int)
    ensures Wraps(words, Greedy(words, first, rest, width), first, rest, width)
  {
    if words != [] {
      ContinueWraps([words[0]], words[1..], first, rest, width);
      assert [words[0]] + words[1..] == words;
    }
  }

  /** How many more words the begun line takes. */
  function Taken(group: seq<string>, words: seq<string>, first: string, width: int): (n: nat)
    ensures n <= |words|
    decreases |words|
  {
    if words != [] && |first| + |Line(group)| + 1 + |words[0]| <= width
    then 1 + Taken(group + [words[0]], words[1..], first, width)
    else 0
  }

  /** The begun line takes its words and the rest is wrapped afresh. */
  lemma {:induction false} ContinueSplits(group: seq<string>, words: seq<string>, first: string, rest: string,
    width: int)
    ensures var n := Taken(group, words, first, width);
      Continue(group, words, first, rest, width) == [group + words[..n]] + Greedy(words[n..], rest, rest, width)
    decreases |words|
  {
    hide Line;
    var n := Taken(group, words, first, width);
    if n == 0 {
      assert group + words[..0] == group && words[0..] == words;
    } else {
      ContinueSplits(group + [words[0]], words[1..], first, rest, width);
      assert group + [words[0]] + words[1..][..n - 1] == group + words[..n];
      assert words[1..][n - 1..] == words[n..];
    }
  }

  /** Whatever would fit on the begun line is taken. */
  lemma {:induction false} TakesWhatFits(group: seq<string>, words: seq<string>, n: nat, first: string, width: int)
    requires group != [] && n <= |words| && (n > 0 ==> |first| + |Line(group + words[..n])| <= width)
    ensures Taken(group, words, first, width) >= n
    decreases |words|
  {
    hide Line;
    if n > 0 {
      var more := group + [words[0]];
      assert words[..n] == [words[0]] + words[1..n];
      assert group + words[..n] == more + words[1..n];
      LineOfTwo(group, [words[0]]);
      LineOfWord(words[0]);
      if n > 1 {
        LineOfTwo(more, words[1..n]);
        assert words[1..][..n - 1] == words[1..n];
        TakesWhatFits(more, words[1..], n - 1, first, width);
      } else {
        assert more + words[1..n] == more;
      }
    }
  }

  /** One greedy line, and what is left wrapped in the same way. */
  lemma GreedySplits(words: seq<string>, first: string, rest: string, width: int) returns (n: nat)
    requires words != []
    ensures n == 1 + Taken([words[0]], words[1..], first, width) && n <= |words|
    ensures |Greedy(words, first, rest, width)| == 1 + |Greedy(words[n..], rest, rest, width)|
  {
    n := 1 + Taken([words[0]], words[1..], first, width);
    ContinueSplits([words[0]], words[1..], first, rest, width);
    assert words[1..][n - 1..] == words[n..];
  }

  /** Words from further on need no more lines than any wrapping of the words from further back. */
  lemma {:induction false} StaysAhead(words: seq<string>, groups: seq<seq<string>>, k: nat, first: string,
    rest: string, width: int)
    requires Wraps(words, groups, first, rest, width) && k <= |words|
    ensures |Greedy(words[k..], first, rest, width)| <= |groups|
    decreases |groups|
  {
    hide Line, Fits, Greedy, Taken;
    var left := words[k..];
    if left == [] {
      NothingToWrap(first, rest, width);
    } else {
      var m := |groups[0]|;
      var n := GreedySplits(left, first, rest, width);
      FirstLineReaches(words, groups[0], k, first, width);
      assert left[n..] == words[m..][k + n - m..];
      StaysAhead(words[m..], groups[1..], k + n - m, rest, rest, width);
    }
  }

  lemma NothingToWrap(first: string, rest: string, width: int)
    ensures Greedy([], first, rest, width) == []
  {
  }

  /** The greedy line, begun further on, ends no earlier than any line that fits. */
  lemma FirstLineReaches(words: seq<string>, group: seq<string>, k: nat, first: string, width: int)
    requires group <= words && Fits(group, first, width) && k < |words|
    ensures k + 1 + Taken([words[k..][0]], words[k..][1..], first, width) >= |group|
  {
    hide Line;
    var left := words[k..];
    if |group| >= k + 2 {
      var tail := group[k..];
      var n := |group| - k - 1;
      assert tail == left[..n + 1];
      assert [left[0]] + left[1..][..n] == tail;
      if k > 0 {
        assert group == group[..k] + tail;
        LineOfTwo(group[..k], tail);
      } else {
        assert tail == group;
      }
      TakesWhatFits([left[0]], left[1..], n, first, width);
    }
  }

  lemma {:induction false} OneLineEach(groups: seq<seq<string>>, first: string, rest: string)
    ensures |Printed(groups, first, rest)| == |groups|
  {
    if groups != [] {
      OneLineEach(groups[1..], rest, rest);
    }
  }

  /** No wrapping of the words under the same rule uses fewer lines, even when the first line has another prefix. */
  lemma GreedyIsFewest(words: seq<string>, groups: seq<seq<string>>, first: string, rest: string, width: int)
    requires Wraps(words, groups, first, rest, width)
    ensures |Printed(Greedy(words, first, rest, width), first, rest)| <= |Printed(groups, first, rest)|
  {
    OneLineEach(Greedy(words, first, rest, width), first, rest);
    OneLineEach(groups, first, rest);
    StaysAhead(words, groups, 0, first, rest, width);
    assert words[0..] == words;
  }
}
