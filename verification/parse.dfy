/**
 The positional parser inside `get_unique_word` (xpost.py lines 69-72): the stripped
 reply is split on newlines, empty lines kept, and lines 0, 1 and 2 become the word,
 the meaning and the example sentence.
 */
module Parse {
  import opened Wrappers
  import opened Text

  /** The (word, meaning, sentence) record the generator hands to the composer. */
  datatype Triple = Triple(word: string, meaning: string, sentence: string)

  /**
   One field from one line: `line.split(":")[1].strip()` when the line holds a colon,
   `line.strip()` otherwise. Only the text between the first and the second colon
   survives, so a colon inside the value cuts it short.
   */
  function Field(line: string): (r: string)
    ensures Trimmed(r)
    ensures |r| <= |line|
  {
    if ':' in line then
      var pieces := Split(line, ':');
      CountPositive(line, ':');
      SplitCount(line, ':');
      JoinSplit(line, ':');
      JoinLength(pieces, ':');
      Strip(pieces[1])
    else
      Strip(line)
  }

  /** Pieces are no longer than the text they were joined into. */
  lemma {:induction false} JoinLength(parts: seq<string>, sep: char)
    requires |parts| >= 1
    ensures forall i :: 0 <= i < |parts| ==> |parts[i]| <= |Join(parts, sep)|
    decreases |parts|
  {
    if |parts| > 1 {
      JoinLength(parts[1..], sep);
      assert forall i :: 1 <= i < |parts| ==> parts[i] == parts[1..][i - 1];
    }
  }

  /** A line with a colon yields the trimmed text between its first colon and the next colon or the line's end. */
  lemma FieldBetweenColons(a: string, b: string, rest: string)
    requires ':' !in a && ':' !in b
    requires rest == [] || rest[0] == ':'
    ensures Field(a + ":" + b + rest) == Strip(b)
  {
    var line := a + ":" + b + rest;
    assert line == a + [':'] + (b + rest);
    assert line[|a|] == ':';
    SplitPiece(a, b + rest, ':');
    SplitLast(b, rest, ':');
  }

  /** A line without a colon yields the whole line, trimmed. */
  lemma FieldWithoutColon(line: string)
    requires ':' !in line
    ensures Field(line) == Strip(line)
  {
  }

  /**
   Lines 0, 1 and 2 of `text` as a triple; None when `text` has fewer than three lines,
   which is where the source's indexing raises `IndexError`.
   */
  function ParseResponse(text: string): (r: Option<Triple>)
    ensures r.Some? <==> Count(text, '\n') >= 2
    ensures r.Some? ==> Trimmed(r.value.word) && Trimmed(r.value.meaning) && Trimmed(r.value.sentence)
  {
    var lines := Split(text, '\n');
    SplitCount(text, '\n');
    if |lines| < 3 then None
    else Some(Triple(Field(lines[0]), Field(lines[1]), Field(lines[2])))
  }

  /** The first three newline-separated lines, whatever follows them, are parsed field by field. */
  lemma ParseLines(l0: string, l1: string, l2: string, rest: string)
    requires '\n' !in l0 && '\n' !in l1 && '\n' !in l2
    requires rest == [] || rest[0] == '\n'
    ensures ParseResponse(l0 + "\n" + l1 + "\n" + l2 + rest) == Some(Triple(Field(l0), Field(l1), Field(l2)))
  {
    var text := l0 + "\n" + l1 + "\n" + l2 + rest;
    assert text == l0 + ['\n'] + (l1 + ['\n'] + (l2 + rest));
    SplitPiece(l0, l1 + ['\n'] + (l2 + rest), '\n');
    SplitPiece(l1, l2 + rest, '\n');
    SplitLast(l2, rest, '\n');
  }

  lemma ParseThreeLines(l0: string, l1: string, l2: string)
    requires '\n' !in l0 && '\n' !in l1 && '\n' !in l2
    ensures ParseResponse(l0 + "\n" + l1 + "\n" + l2) == Some(Triple(Field(l0), Field(l1), Field(l2)))
  {
    ParseLines(l0, l1, l2, "");
    assert l0 + "\n" + l1 + "\n" + l2 + "" == l0 + "\n" + l1 + "\n" + l2;
  }

  /** Fewer than two newlines means fewer than three lines: the attempt fails with no triple. */
  lemma ShortResponseFails(text: string)
    requires Count(text, '\n') < 2
    ensures ParseResponse(text) == None
  {
  }

  lemma StripLeadingSpace(v: string)
    requires Trimmed(v)
    ensures Strip(" " + v) == v
  {
    assert " " + v == " " + v + "";
    StripOf(" ", v, "");
  }

  /** Field of "<tag>: <v>", the text with one space after the colon, as one symbolic step. */
  lemma FieldAfterColonSpace(tag: string, v: string)
    requires ':' !in tag && ':' !in v
    ensures Field(tag + ": " + v) == Strip(" " + v)
  {
    assert tag + ": " + v == tag + ":" + (" " + v) + "";
    FieldBetweenColons(tag, " " + v, "");
  }

  /** A labelled line "<tag>: <v>" with a colon-free tag and a trimmed colon-free value yields the value. */
  lemma LabelledField(tag: string, v: string)
    requires ':' !in tag && ':' !in v && Trimmed(v)
    ensures Field(tag + ": " + v) == v
  {
    FieldAfterColonSpace(tag, v);
    StripLeadingSpace(v);
  }

  /** LabelledField for a label written as one piece, such as "Word: ". */
  lemma LabelledLine(head: string, tag: string, v: string)
    requires head == tag + ": "
    requires ':' !in tag && ':' !in v && Trimmed(v)
    ensures Field(head + v) == v
  {
    LabelledField(tag, v);
  }

  lemma EmptyField()
    ensures Field("") == ""
  {
    StripOf("", "", "");
  }

  /** Blank lines are kept: a blank line after the first one gives an empty meaning and moves the next line into the sentence. */
  lemma BlankLineShiftsFields(l0: string, l2: string)
    requires '\n' !in l0 && '\n' !in l2
    ensures ParseResponse(l0 + "\n\n" + l2) == Some(Triple(Field(l0), "", Field(l2)))
  {
    assert l0 + "\n\n" + l2 == l0 + "\n" + "" + "\n" + l2 + "";
    ParseLines(l0, "", l2, "");
    EmptyField();
  }
}
