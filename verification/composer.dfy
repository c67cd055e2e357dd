/** `compose_tweet` (xpost.py lines 85-89): the fixed post template, and its inverse. */
module Composer {
  import opened Wrappers
  import opened Text
  import opened Parse

  const WordLabel := "Word of the day: "
  const MeaningLabel := "Meaning: "
  const ExampleLabel := "Example: "
  const Hashtags := "#vocabulary #spellbee"

  /** The post: labelled word, meaning and example lines, then the hashtags, separated by blank lines. */
  function Compose(word: string, meaning: string, sentence: string): (t: string)
    ensures |t| == |word| + |meaning| + |sentence| + 62
    ensures t[..17] == WordLabel && t[17..17 + |word|] == word
    ensures t[|t| - 21..] == Hashtags
  {
    WordLabel + word + "\n\n" + (MeaningLabel + meaning + "\n\n" + (ExampleLabel + sentence + "\n\n" + Hashtags))
  }

  /** `t` begins with `p`. */
  predicate HasPrefix(t: string, p: string) {
    |p| <= |t| && t[..|p|] == p
  }

  /**
   Reads a post back into its triple: seven lines, blank lines 1, 3 and 5, the three
   labels in front of lines 0, 2 and 4, and the hashtags as the last line.
   */
  function Decompose(t: string): (r: Option<Triple>)
    ensures r.Some? ==> Compose(r.value.word, r.value.meaning, r.value.sentence) == t
  {
    var lines := Split(t, '\n');
    if && |lines| == 7
       && lines[1] == [] && lines[3] == [] && lines[5] == [] && lines[6] == Hashtags
       && HasPrefix(lines[0], WordLabel) && HasPrefix(lines[2], MeaningLabel) && HasPrefix(lines[4], ExampleLabel)
    then
      var tr := Triple(lines[0][|WordLabel|..], lines[2][|MeaningLabel|..], lines[4][|ExampleLabel|..]);
      JoinSplit(t, '\n');
      assert lines[0] == WordLabel + tr.word;
      assert lines[2] == MeaningLabel + tr.meaning;
      assert lines[4] == ExampleLabel + tr.sentence;
      assert lines == [WordLabel + tr.word, "", MeaningLabel + tr.meaning, "", ExampleLabel + tr.sentence, "", Hashtags];
      ComposeIsJoin(tr.word, tr.meaning, tr.sentence);
      Some(tr)
    else None
  }

  /** A seven-line text written out piece by piece. */
  lemma JoinSeven(ls: seq<string>)
    requires |ls| == 7
    ensures Join(ls, '\n')
         == ls[0] + "\n" + (ls[1] + "\n" + (ls[2] + "\n" + (ls[3] + "\n" + (ls[4] + "\n" + (ls[5] + "\n" + ls[6])))))
  {
    assert ls[5..][1..] == [ls[6]];
    assert ls[4..][1..] == ls[5..];
    assert ls[3..][1..] == ls[4..];
    assert ls[2..][1..] == ls[3..];
    assert ls[1..][1..] == ls[2..];
    assert Join(ls[5..], '\n') == ls[5] + "\n" + ls[6];
    assert Join(ls[4..], '\n') == ls[4] + "\n" + Join(ls[5..], '\n');
    assert Join(ls[3..], '\n') == ls[3] + "\n" + Join(ls[4..], '\n');
    assert Join(ls[2..], '\n') == ls[2] + "\n" + Join(ls[3..], '\n');
    assert Join(ls[1..], '\n') == ls[1] + "\n" + Join(ls[2..], '\n');
  }

  /** Two newlines in a row are a blank line between two lines. */
  lemma BlankLine(a: string, b: string)
    ensures a + "\n\n" + b == a + "\n" + ("" + "\n" + b)
  {
    assert "" + "\n" + b == "\n" + b;
    assert "\n\n" == "\n" + "\n";
  }

  /** The template is the seven lines joined by newlines. */
  lemma ComposeIsJoin(word: string, meaning: string, sentence: string)
    ensures Compose(word, meaning, sentence)
         == Join([WordLabel + word, "", MeaningLabel + meaning, "", ExampleLabel + sentence, "", Hashtags], '\n')
  {
    var l0, l2, l4 := WordLabel + word, MeaningLabel + meaning, ExampleLabel + sentence;
    var ls := [l0, "", l2, "", l4, "", Hashtags];
    JoinSeven(ls);
    var c := l4 + "\n\n" + Hashtags;
    var b := l2 + "\n\n" + c;
    var a := l0 + "\n\n" + b;
    BlankLine(l4, Hashtags);
    BlankLine(l2, c);
    BlankLine(l0, b);
  }

  /** The post's lines, when none of the fields holds a newline. */
  lemma ComposeLines(word: string, meaning: string, sentence: string)
    requires '\n' !in word && '\n' !in meaning && '\n' !in sentence
    ensures Split(Compose(word, meaning, sentence), '\n')
         == [WordLabel + word, "", MeaningLabel + meaning, "", ExampleLabel + sentence, "", Hashtags]
  {
    var ls := [WordLabel + word, "", MeaningLabel + meaning, "", ExampleLabel + sentence, "", Hashtags];
    ComposeIsJoin(word, meaning, sentence);
    SplitJoin(ls, '\n');
  }

  /** Decomposing a composed post gives back the triple it was composed from. */
  lemma DecomposeCompose(word: string, meaning: string, sentence: string)
    requires '\n' !in word && '\n' !in meaning && '\n' !in sentence
    ensures Decompose(Compose(word, meaning, sentence)) == Some(Triple(word, meaning, sentence))
  {
    ComposeLines(word, meaning, sentence);
    assert (WordLabel + word)[|WordLabel|..] == word;
    assert (MeaningLabel + meaning)[|MeaningLabel|..] == meaning;
    assert (ExampleLabel + sentence)[|ExampleLabel|..] == sentence;
  }

  /** The post holds each field verbatim, in order, on its own labelled line. */
  lemma ComposeContains(word: string, meaning: string, sentence: string)
    ensures var t := Compose(word, meaning, sentence);
      var i := |WordLabel| + |word| + 2 + |MeaningLabel|;
      var j := i + |meaning| + 2 + |ExampleLabel|;
      && t[i..i + |meaning|] == meaning
      && t[j..j + |sentence|] == sentence
  {
  }
}
