/**
 `get_unique_word` (xpost.py lines 36-82): up to `retries` attempts, each classified from
 what the text service answered, stopping at the first triple whose lower-cased word is
 not yet in the history.
 */
module Generator {
  import opened Wrappers
  import opened Text
  import opened Parse

  /** What one request to the text service comes back with, as the loop sees it. */
  datatype Response =
    | Raises            // the request, or reading the reply object, raised an exception
    | NoChoices         // the reply has no `choices`, or an empty list of them
    | Content(text: string)  // the first choice's message content, "" when missing

  /** How one attempt ends; only `Raised` is followed by the `delay` sleep. */
  datatype Step =
    | Raised                  // `except` branch: exception, or fewer than three lines
    | Skipped                 // `continue`: no choices, or blank content
    | Duplicate(found: Triple) // parsed, but the word is already in the history
    | Accepted(found: Triple)  // parsed, and the word is new: the loop returns it

  /** One pass through the loop body for the service's answer `response`. */
  function Attempt(response: Response, existing: seq<string>): (s: Step)
    ensures s.Duplicate? ==> Lower(s.found.word) in existing
    ensures s.Accepted? ==> Lower(s.found.word) !in existing
  {
    match response
    case Raises => Raised
    case NoChoices => Skipped
    case Content(raw) =>
      var result := Strip(raw);
      if result == [] then Skipped
      else
        match ParseResponse(result)
        case None => Raised
        case Some(t) => if Lower(t.word) in existing then Duplicate(t) else Accepted(t)
  }

  /**
   Which path an attempt takes: the exception path (and its sleep) exactly for an exception
   or a non-blank reply of fewer than three lines; `continue` exactly for missing choices or
   a blank reply; otherwise a parsed triple.
   */
  lemma AttemptPaths(response: Response, existing: seq<string>)
    ensures Attempt(response, existing).Raised? <==>
      response.Raises? || (response.Content? && Strip(response.text) != [] && Count(Strip(response.text), '\n') < 2)
    ensures Attempt(response, existing).Skipped? <==>
      response.NoChoices? || (response.Content? && Strip(response.text) == [])
    ensures Attempt(response, existing).Duplicate? || Attempt(response, existing).Accepted? ==>
      response.Content? && ParseResponse(Strip(response.text)) == Some(Attempt(response, existing).found)
  {
  }

  /** The loop's outcome: the returned triple (None for `(None, None, None)`) and the attempts it made. */
  datatype Search = Search(found: Option<Triple>, steps: seq<Step>)

  /** Number of attempts `range(retries)` makes: none when `retries` is zero or negative. */
  function Remaining(retries: int): nat {
    if retries > 0 then retries else 0
  }

  /**
   The loop from attempt `k` on, given how each attempt would end: it stops at the
   first accepted attempt and otherwise runs through all of them.
   */
  function Decide(outcomes: seq<Step>, k: nat): (r: Search)
    requires k <= |outcomes|
    ensures |r.steps| <= |outcomes| - k
    ensures forall i :: 0 <= i < |r.steps| ==> r.steps[i] == outcomes[k + i]
    ensures forall i :: 0 <= i < |r.steps| - 1 ==> !r.steps[i].Accepted?
    ensures r.found.Some? <==> |r.steps| > 0 && r.steps[|r.steps| - 1].Accepted?
    ensures r.found.Some? ==> |r.steps| > 0 && r.steps[|r.steps| - 1] == Accepted(r.found.value)
    ensures r.found.None? ==> |r.steps| == |outcomes| - k
    decreases |outcomes| - k
  {
    if k == |outcomes| then Search(None, [])
    else if outcomes[k].Accepted? then Search(Some(outcomes[k].found), [outcomes[k]])
    else
      var rest := Decide(outcomes, k + 1);
      var steps := [outcomes[k]] + rest.steps;
      assert forall i :: 1 <= i < |steps| ==> steps[i] == rest.steps[i - 1];
      Search(rest.found, steps)
  }

  /**
   `get_unique_word(existing_words, retries)`; `responses[i]` is the service's answer to
   attempt `i`. At most `retries` attempts are made, each as `Attempt` describes; a
   returned word is never already in the history, and None comes back only after every
   attempt was made without one being accepted.
   */
  function GetUniqueWord(responses: seq<Response>, existing: seq<string>, retries: int): (r: Search)
    requires retries <= |responses|
    ensures |r.steps| <= Remaining(retries)
    ensures forall i :: 0 <= i < |r.steps| ==> r.steps[i] == Attempt(responses[i], existing)
    ensures forall i :: 0 <= i < |r.steps| - 1 ==> !r.steps[i].Accepted?
    ensures r.found.Some? ==> Lower(r.found.value.word) !in existing
    ensures r.found.Some? ==> |r.steps| > 0 && r.steps[|r.steps| - 1] == Accepted(r.found.value)
    ensures r.found.None? ==> |r.steps| == Remaining(retries)
    ensures r.found.None? ==> forall i :: 0 <= i < |r.steps| ==> !r.steps[i].Accepted?
  {
    var n := Remaining(retries);
    var outcomes := seq(n, i requires 0 <= i < n => Attempt(responses[i], existing));
    var r := Decide(outcomes, 0);
    assert r.found.Some? ==> Attempt(responses[|r.steps| - 1], existing) == Accepted(r.found.value);
    r
  }

  /** The loop returns exactly the first accepted attempt, after making the attempts before it. */
  lemma FirstAcceptedWins(responses: seq<Response>, existing: seq<string>, retries: int, j: nat)
    requires retries <= |responses| && j < retries
    requires Attempt(responses[j], existing).Accepted?
    requires forall i :: 0 <= i < j ==> !Attempt(responses[i], existing).Accepted?
    ensures GetUniqueWord(responses, existing, retries).found == Some(Attempt(responses[j], existing).found)
    ensures |GetUniqueWord(responses, existing, retries).steps| == j + 1
  {
  }

  /** A duplicate on the first attempt and a new word on the second: the search ends after two attempts. */
  lemma SecondAttemptWins(responses: seq<Response>, existing: seq<string>, retries: int)
    requires 2 <= retries <= |responses|
    requires Attempt(responses[0], existing).Duplicate? && Attempt(responses[1], existing).Accepted?
    ensures GetUniqueWord(responses, existing, retries)
         == Search(Some(Attempt(responses[1], existing).found), [Attempt(responses[0], existing), Attempt(responses[1], existing)])
  {
    FirstAcceptedWins(responses, existing, retries, 1);
    var r := GetUniqueWord(responses, existing, retries);
    assert |r.steps| == 2;
    assert r.steps[0] == Attempt(responses[0], existing);
    assert r.steps[1] == Attempt(responses[1], existing);
  }

  /** Number of attempts that ended in the `except` branch, each followed by one `time.sleep(delay)`. */
  function Sleeps(steps: seq<Step>): (n: nat)
    ensures n <= |steps|
    ensures n == 0 <==> forall i :: 0 <= i < |steps| ==> !steps[i].Raised?
  {
    if steps == [] then 0 else (if steps[0].Raised? then 1 else 0) + Sleeps(steps[1..])
  }

  /** An answer the loop body handles without raising. */
  predicate Answers(response: Response) {
    && !response.Raises?
    && (response.Content? && Strip(response.text) != [] ==> Count(Strip(response.text), '\n') >= 2)
  }

  /** Duplicates, empty replies and missing choices move on at once: without exceptions the loop never sleeps. */
  lemma NoExceptionNoSleep(responses: seq<Response>, existing: seq<string>, retries: int)
    requires retries <= |responses|
    requires forall i :: 0 <= i < retries ==> Answers(responses[i])
    ensures Sleeps(GetUniqueWord(responses, existing, retries).steps) == 0
  {
    var steps := GetUniqueWord(responses, existing, retries).steps;
    forall i | 0 <= i < |steps|
      ensures !steps[i].Raised?
    {
      AttemptPaths(responses[i], existing);
    }
  }

  /** When every attempt raises, the loop makes all of them, pauses after each, and returns None. */
  lemma AllAttemptsRaise(responses: seq<Response>, existing: seq<string>, retries: nat)
    requires retries <= |responses|
    requires forall i :: 0 <= i < retries ==> Attempt(responses[i], existing) == Raised
    ensures GetUniqueWord(responses, existing, retries).found == None
    ensures |GetUniqueWord(responses, existing, retries).steps| == retries
    ensures forall i :: 0 <= i < retries ==> GetUniqueWord(responses, existing, retries).steps[i] == Raised
    ensures Sleeps(GetUniqueWord(responses, existing, retries).steps) == retries
  {
    var steps := GetUniqueWord(responses, existing, retries).steps;
    SleepsAllRaised(steps);
  }

  lemma {:induction false} SleepsAllRaised(steps: seq<Step>)
    requires forall i :: 0 <= i < |steps| ==> steps[i] == Raised
    ensures Sleeps(steps) == |steps|
    decreases |steps|
  {
    if steps != [] {
      SleepsAllRaised(steps[1..]);
    }
  }

  /** Three one-line replies in a row: three failed attempts, each followed by a pause, and no word. */
  lemma ThreeOneLineReplies(g0: string, g1: string, g2: string, existing: seq<string>)
    requires '\n' !in g0 && !AllSpace(g0)
    requires '\n' !in g1 && !AllSpace(g1)
    requires '\n' !in g2 && !AllSpace(g2)
    ensures var r := GetUniqueWord([Content(g0), Content(g1), Content(g2)], existing, 3);
      r.found == None && |r.steps| == 3 && Sleeps(r.steps) == 3
  {
    var responses := [Content(g0), Content(g1), Content(g2)];
    OneLineRaises(g0, existing);
    OneLineRaises(g1, existing);
    OneLineRaises(g2, existing);
    AllAttemptsRaise(responses, existing, 3);
  }

  /** A reply of one non-blank line makes the attempt fail through the exception path. */
  lemma OneLineRaises(text: string, existing: seq<string>)
    requires '\n' !in text && !AllSpace(text)
    ensures Attempt(Content(text), existing) == Raised
  {
    var t := Strip(text);
    assert t != [];
    StripSlice(text);
    assert '\n' !in t;
    CountPositive(t, '\n');
    AttemptPaths(Content(text), existing);
  }

  /**
   A reply "Word: w\nMeaning: m\nExample: e" with trimmed, colon-free and newline-free values
   parses to (w, m, e), and the attempt succeeds exactly when w's lower case form is new.
   */
  lemma LabelledReply(w: string, m: string, e: string, existing: seq<string>)
    requires ':' !in w && ':' !in m && ':' !in e
    requires '\n' !in w && '\n' !in m && '\n' !in e
    requires Trimmed(w) && Trimmed(m) && Trimmed(e) && e != []
    ensures Attempt(Content(LabelledText(w, m, e)), existing)
         == if Lower(w) in existing then Duplicate(Triple(w, m, e)) else Accepted(Triple(w, m, e))
  {
    var text := LabelledText(w, m, e);
    LabelledTextTrimmed(w, m, e);
    LabelledTextParses(w, m, e);
    assert Strip(text) != [];
  }

  /** A three-line labelled reply, the layout the positional parser recovers in full. */
  function LabelledText(w: string, m: string, e: string): string {
    ("Word: " + w) + "\n" + ("Meaning: " + m) + "\n" + ("Example: " + e)
  }

  lemma LabelledTextTrimmed(w: string, m: string, e: string)
    requires Trimmed(e) && e != []
    ensures Strip(LabelledText(w, m, e)) == LabelledText(w, m, e)
  {
    var text := LabelledText(w, m, e);
    assert text == [] + text + [];
    assert text[0] == 'W';
    assert text[|text| - 1] == e[|e| - 1];
    StripOf([], text, []);
  }

  lemma LabelledTextParses(w: string, m: string, e: string)
    requires ':' !in w && ':' !in m && ':' !in e
    requires '\n' !in w && '\n' !in m && '\n' !in e
    requires Trimmed(w) && Trimmed(m) && Trimmed(e)
    ensures ParseResponse(LabelledText(w, m, e)) == Some(Triple(w, m, e))
  {
    LabelledTextLines(w, m, e);
    LabelledTextFields(w, m, e);
  }

  lemma LabelledTextLines(w: string, m: string, e: string)
    requires '\n' !in w && '\n' !in m && '\n' !in e
    ensures ParseResponse(LabelledText(w, m, e))
         == Some(Triple(Field("Word: " + w), Field("Meaning: " + m), Field("Example: " + e)))
  {
    ParseThreeLines("Word: " + w, "Meaning: " + m, "Example: " + e);
  }

  lemma LabelledTextFields(w: string, m: string, e: string)
    requires ':' !in w && ':' !in m && ':' !in e
    requires Trimmed(w) && Trimmed(m) && Trimmed(e)
    ensures Triple(Field("Word: " + w), Field("Meaning: " + m), Field("Example: " + e)) == Triple(w, m, e)
  {
    LabelledLine("Word: ", "Word", w);
    LabelledLine("Meaning: ", "Meaning", m);
    LabelledLine("Example: ", "Example", e);
  }
}
