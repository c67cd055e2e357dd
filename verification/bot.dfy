/**
 `tweet` (xpost.py lines 92-111): load the history, look for a new word, and when one
 with a non-empty word comes back, compose and post it; only a post that goes through
 appends the word and saves the history.
 */
module Bot {
  import opened Wrappers
  import opened Text
  import opened Parse
  import opened Generator
  import opened Composer
  import opened History

  /** `get_unique_word`'s default number of attempts, the one `tweet` uses. */
  const Retries := 3

  /** How `api.update_status` ends: it returns, or raises `tweepy.TweepError`. */
  datatype Posting = Posted | PostError

  /**
   One run: the search, the text handed to the posting call (None when none was made),
   the list handed to `save_tweeted_words` (None when it was not called), and the history
   file afterwards.
   */
  datatype Run = Run(search: Search, tweeted: Option<string>, saved: Option<seq<string>>, store: Store)

  /** `if word:` -- Python's truthiness of the returned word: present and non-empty. */
  predicate Truthy(found: Option<Triple>) {
    found.Some? && found.value.word != []
  }

  /** `tweet()`; `responses` are the text service's answers and `posting` how the post call ends. */
  function Tweet(store: Store, responses: seq<Response>, posting: Posting): (r: Run)
    requires Retries <= |responses|
    ensures r.search == GetUniqueWord(responses, Load(store), Retries)
    ensures r.tweeted.Some? <==> Truthy(r.search.found)
    ensures r.tweeted.Some? ==>
      var t := r.search.found.value;
      r.tweeted.value == Compose(t.word, t.meaning, t.sentence)
    ensures r.saved.Some? <==> r.tweeted.Some? && posting == Posted
    ensures r.saved.Some? ==>
      && r.saved.value == Load(store) + [Lower(r.search.found.value.word)]
      && Lower(r.search.found.value.word) !in Load(store)
      && Load(r.store) == r.saved.value
    ensures r.saved.None? ==> r.store == store
  {
    var history := Load(store);
    var search := GetUniqueWord(responses, history, Retries);
    if Truthy(search.found) then
      var t := search.found.value;
      var text := Compose(t.word, t.meaning, t.sentence);
      if posting == Posted then
        var h := Record(history, t.word);
        Run(search, Some(text), Some(h), Save(h))
      else
        Run(search, Some(text), None, store)
    else
      Run(search, None, None, store)
  }

  /** A run never records a word twice and keeps every entry in lower case. */
  lemma TweetKeepsHistory(store: Store, responses: seq<Response>, posting: Posting)
    requires Retries <= |responses|
    requires Distinct(Load(store)) && Normalised(Load(store))
    ensures var r := Tweet(store, responses, posting);
      Distinct(Load(r.store)) && Normalised(Load(r.store))
  {
    var r := Tweet(store, responses, posting);
    if r.saved.Some? {
      RecordKeepsHistory(Load(store), r.search.found.value.word);
    }
  }

  /** What one scheduled run meets: the service's answers and how the post call ends. */
  datatype Day = Day(responses: seq<Response>, posting: Posting)

  predicate Answered(days: seq<Day>) {
    forall d :: 0 <= d < |days| ==> Retries <= |days[d].responses|
  }

  /** The history file after running the bot once per day over `days`. */
  function RunDays(store: Store, days: seq<Day>): (s: Store)
    requires Answered(days)
    decreases |days|
  {
    if days == [] then store
    else RunDays(Tweet(store, days[0].responses, days[0].posting).store, days[1..])
  }

  /**
   Over any number of runs the history only grows at its end, never holds a word twice,
   and stays in lower case.
   */
  lemma {:induction false} RunDaysKeepsHistory(store: Store, days: seq<Day>)
    requires Answered(days)
    requires Distinct(Load(store)) && Normalised(Load(store))
    ensures Distinct(Load(RunDays(store, days))) && Normalised(Load(RunDays(store, days)))
    ensures |Load(store)| <= |Load(RunDays(store, days))|
    ensures Load(RunDays(store, days))[..|Load(store)|] == Load(store)
    decreases |days|
  {
    if days != [] {
      var next := Tweet(store, days[0].responses, days[0].posting).store;
      TweetKeepsHistory(store, days[0].responses, days[0].posting);
      assert Answered(days[1..]) by {
        forall d | 0 <= d < |days[1..]|
          ensures Retries <= |days[1..][d].responses|
        {
          assert days[1..][d] == days[d + 1];
        }
      }
      RunDaysKeepsHistory(next, days[1..]);
      var h, h', h'' := Load(store), Load(next), Load(RunDays(store, days));
      assert h'[..|h|] == h;
      assert h''[..|h'|] == h';
      assert h''[..|h|] == h'[..|h|];
    }
  }

  /** A value the labelled reply can carry whole: trimmed, with no colon and no newline. */
  predicate Plain(v: string) {
    ':' !in v && '\n' !in v && Trimmed(v)
  }

  /**
   With no history file, a first labelled reply is accepted on the first attempt, posted
   as composed, and, when the post goes through, becomes the whole history.
   */
  lemma FirstReplyPosted(w: string, m: string, e: string, more: seq<Response>, posting: Posting)
    requires Plain(w) && Plain(m) && Plain(e) && w != [] && e != []
    requires |more| >= 2
    ensures var r := Tweet(None, [Content(LabelledText(w, m, e))] + more, posting);
      && r.search == Search(Some(Triple(w, m, e)), [Accepted(Triple(w, m, e))])
      && r.tweeted == Some(Compose(w, m, e))
      && (posting == Posted ==> r.store == Some([Lower(w)]))
  {
    var responses := [Content(LabelledText(w, m, e))] + more;
    LabelledReply(w, m, e, []);
    FirstAcceptedWins(responses, [], Retries, 0);
  }

  /**
   A reply whose word is already in the history, in any letter case, is passed over
   without a pause, and the next reply with a new word is the one posted.
   */
  lemma DuplicateThenNew(w1: string, m1: string, e1: string, w2: string, m2: string, e2: string, last: Response, posting: Posting)
    requires Plain(w1) && Plain(m1) && Plain(e1) && w1 != [] && e1 != []
    requires Plain(w2) && Plain(m2) && Plain(e2) && w2 != [] && e2 != []
    requires Lower(w2) != Lower(w1)
    ensures var store := Some([Lower(w1)]);
      var r := Tweet(store, [Content(LabelledText(w1, m1, e1)), Content(LabelledText(w2, m2, e2)), last], posting);
      && r.search.found == Some(Triple(w2, m2, e2))
      && r.search.steps == [Duplicate(Triple(w1, m1, e1)), Accepted(Triple(w2, m2, e2))]
      && Sleeps(r.search.steps) == 0
      && (posting == Posted ==> r.store == Some([Lower(w1), Lower(w2)]))
  {
    var t1, t2 := Triple(w1, m1, e1), Triple(w2, m2, e2);
    var store := Some([Lower(w1)]);
    var responses := [Content(LabelledText(w1, m1, e1)), Content(LabelledText(w2, m2, e2)), last];
    DuplicateThenNewSearch(w1, m1, e1, w2, m2, e2, last);
    var r := Tweet(store, responses, posting);
    assert r.search.found == Some(t2);
    if posting == Posted {
      assert r.saved == Some([Lower(w1)] + [Lower(w2)]);
      assert [Lower(w1)] + [Lower(w2)] == [Lower(w1), Lower(w2)];
    }
    assert Sleeps([Duplicate(t1), Accepted(t2)]) == 0 by {
      assert [Duplicate(t1), Accepted(t2)][1..] == [Accepted(t2)];
    }
  }

  lemma DuplicateThenNewSearch(w1: string, m1: string, e1: string, w2: string, m2: string, e2: string, last: Response)
    requires Plain(w1) && Plain(m1) && Plain(e1) && w1 != [] && e1 != []
    requires Plain(w2) && Plain(m2) && Plain(e2) && w2 != [] && e2 != []
    requires Lower(w2) != Lower(w1)
    ensures GetUniqueWord([Content(LabelledText(w1, m1, e1)), Content(LabelledText(w2, m2, e2)), last], [Lower(w1)], Retries)
         == Search(Some(Triple(w2, m2, e2)), [Duplicate(Triple(w1, m1, e1)), Accepted(Triple(w2, m2, e2))])
  {
    var h := [Lower(w1)];
    var responses := [Content(LabelledText(w1, m1, e1)), Content(LabelledText(w2, m2, e2)), last];
    LabelledReply(w1, m1, e1, h);
    LabelledReply(w2, m2, e2, h);
    SecondAttemptWins(responses, h, Retries);
  }

  /** The scenario texts hold no colon or newline and have no whitespace at either end. */
  lemma ScenarioTextsPlain()
    ensures Plain("Luminous") && Plain("full of light") && Plain("The luminous moon lit the path.")
    ensures Plain("Placid") && Plain("calm") && Plain("The lake was placid.")
  {
    assert Plain("Luminous") && Plain("full of light");
    assert Plain("The luminous moon lit the path.");
    assert Plain("Placid") && Plain("calm") && Plain("The lake was placid.");
  }

  lemma LowerLuminous()
    ensures Lower("Luminous") == "luminous"
  {
    var r := Lower("Luminous");
    assert forall i :: 0 <= i < 8 ==> r[i] == LowerChar("Luminous"[i]);
  }

  /**
   An empty history and the reply "Word: Luminous / Meaning: full of light / Example: The
   luminous moon lit the path.": that triple is posted, and a successful post leaves
   ["luminous"] as the history.
   */
  lemma LuminousPosted(more: seq<Response>)
    requires |more| >= 2
    ensures var r := Tweet(None, [Content(LabelledText("Luminous", "full of light", "The luminous moon lit the path."))] + more, Posted);
      && r.search.found == Some(Triple("Luminous", "full of light", "The luminous moon lit the path."))
      && r.tweeted == Some(Compose("Luminous", "full of light", "The luminous moon lit the path."))
      && r.store == Some(["luminous"])
  {
    ScenarioTextsPlain();
    LowerLuminous();
    FirstReplyPosted("Luminous", "full of light", "The luminous moon lit the path.", more, Posted);
  }

  /** With "luminous" in the history, "Luminous" is passed over and "Placid" is posted on the second attempt. */
  lemma PlacidAfterLuminous(last: Response)
    ensures var r := Tweet(Some(["luminous"]),
        [ Content(LabelledText("Luminous", "full of light", "The luminous moon lit the path.")),
          Content(LabelledText("Placid", "calm", "The lake was placid.")),
          last ], Posted);
      && r.search.found == Some(Triple("Placid", "calm", "The lake was placid."))
      && |r.search.steps| == 2
      && r.store == Some(["luminous", Lower("Placid")])
  {
    ScenarioTextsPlain();
    LowerLuminous();
    assert Lower("Placid") != Lower("Luminous");
    DuplicateThenNew("Luminous", "full of light", "The luminous moon lit the path.",
                     "Placid", "calm", "The lake was placid.", last, Posted);
  }

  /** A service that never answers sensibly: three one-line, non-blank replies in a row. */
  lemma GarbageSkipsRun(store: Store, g0: string, g1: string, g2: string, posting: Posting)
    requires '\n' !in g0 && !AllSpace(g0)
    requires '\n' !in g1 && !AllSpace(g1)
    requires '\n' !in g2 && !AllSpace(g2)
    ensures var r := Tweet(store, [Content(g0), Content(g1), Content(g2)], posting);
      && r.search.found == None && |r.search.steps| == 3
      && Sleeps(r.search.steps) == 3
      && r.tweeted == None && r.saved == None && r.store == store
  {
    ThreeOneLineReplies(g0, g1, g2, Load(store));
  }

  /** A post that fails leaves the history file as it was. */
  lemma FailedPostKeepsStore(store: Store, responses: seq<Response>)
    requires Retries <= |responses|
    ensures Tweet(store, responses, PostError).store == store
    ensures Tweet(store, responses, PostError).saved == None
  {
  }
}
