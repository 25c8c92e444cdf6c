/** The words of a text: what is left of it between white space. */
module TextWords {
  import opened Options
  import opened Text

  /** The maximal runs of characters that are no white space. */
  function Words(text: string): (words: seq<string>)
    decreases |text|
  {
    if text == "" then []
    else if IsSpace(text[0]) then Words(text[1..])
    else
      var n := RunLength(text);
      [text[..n]] + Words(text[n..])
  }

  /** How far the text runs before its first white space. */
  function RunLength(text: string): (n: nat)
    ensures n <= |text| && IsWordPart(text[..n])
    ensures n < |text| ==> IsSpace(text[n])
    ensures text != "" && !IsSpace(text[0]) ==> n > 0
  {
    if text == "" || IsSpace(text[0]) then 0
    else
      var n := 1 + RunLength(text[1..]);
      assert text[..n] == [text[0]] + text[1..][..n - 1];
      n
  }

  predicate IsWordPart(s: string) {
    forall c :: c in s ==> !IsSpace(c)
  }

  predicate AreWords(words: seq<string>) {
    forall w :: w in words ==> w != "" && IsWordPart(w)
  }

  lemma {:induction false} WordsAreWords(text: string)
    ensures AreWords(Words(text))
    decreases |text|
  {
    if text != "" {
      if IsSpace(text[0]) {
        WordsAreWords(text[1..]);
      } else {
        WordsAreWords(text[RunLength(text)..]);
      }
    }
  }

  function NonSpaces(text: string): string {
    if text == "" then "" else (if IsSpace(text[0]) then "" else [text[0]]) + NonSpaces(text[1..])
  }

  function Glued(words: seq<string>): string {
    if words == [] then "" else words[0] + Glued(words[1..])
  }

  lemma {:induction false} NonSpacesAfterRun(run: string, text: string)
    requires IsWordPart(run)
    ensures NonSpaces(run + text) == run + NonSpaces(text)
  {
    if run == "" {
      assert run + text == text;
    } else {
      assert run[0] in run && (run + text)[0] == run[0] && (run + text)[1..] == run[1..] + text;
      assert forall c :: c in run[1..] ==> c in run;
      NonSpacesAfterRun(run[1..], text);
    }
  }

  /** The words hold every character of the text that is no white space, in order. */
  lemma {:induction false} WordsKeepCharacters(text: string)
    ensures Glued(Words(text)) == NonSpaces(text)
    decreases |text|
  {
    if text != "" {
      if IsSpace(text[0]) {
        WordsKeepCharacters(text[1..]);
      } else {
        var n := RunLength(text);
        WordsKeepCharacters(text[n..]);
        NonSpacesAfterRun(text[..n], text[n..]);
        assert text[..n] + text[n..] == text;
        assert ([text[..n]] + Words(text[n..]))[1..] == Words(text[n..]);
      }
    }
  }

  lemma {:induction false} RunBefore(word: string, rest: string)
    requires IsWordPart(word) && (rest == "" || IsSpace(rest[0]))
    ensures RunLength(word + rest) == |word|
  {
    if word == "" {
      assert word + rest == rest;
    } else {
      assert word[0] in word && (word + rest)[0] == word[0] && (word + rest)[1..] == word[1..] + rest;
      assert forall c :: c in word[1..] ==> c in word;
      RunBefore(word[1..], rest);
    }
  }

  function Line(words: seq<string>): string {
    Join(words, ' ')
  }

  /** Words written with single spaces between them read back as the same words. */
  lemma {:induction false} WordsReadBack(words: seq<string>)
    requires AreWords(words)
    ensures Words(Line(words)) == words
  {
    if words != [] {
      var word, rest := words[0], words[1..];
      assert word in words && word[0] in word;
      assert forall w :: w in rest ==> w in words;
      WordsReadBack(rest);
      if rest == [] {
        RunBefore(word, "");
        assert word + "" == word;
      } else {
        var tail := [' '] + Line(rest);
        RunBefore(word, tail);
        var text := word + tail;
        assert Line(words) == text by { ConcatAssoc(word, [' '], Line(rest)); }
        assert text[0] == word[0] && text[..|word|] == word && text[|word|..] == tail;
        assert tail[1..] == Line(rest);
        assert words == [word] + rest;
      }
    }
  }

  lemma LineOfTwo(a: seq<string>, b: seq<string>)
    requires a != [] && b != []
    ensures Line(a + b) == Line(a) + [' '] + Line(b)
  {
    JoinOfTwo(a, b, ' ');
  }
}
