/**
 The history of posted words (xpost.py lines 20-30 and 106): a JSON list in one file,
 read whole, extended by one lower-cased word per posted tweet, and written back whole.
 */
module History {
  import opened Wrappers
  import opened Text

  /** The history file: None while it does not exist, otherwise the list it holds. */
  type Store = Option<seq<string>>

  /** `load_tweeted_words`: the stored list, or `[]` when there is no file. */
  function Load(store: Store): (h: seq<string>)
    ensures store.None? ==> h == []
  {
    store.GetOr([])
  }

  /** `save_tweeted_words`: the file afterwards holds exactly `words`. */
  function Save(words: seq<string>): (store: Store)
    ensures store.Some? && Load(store) == words
  {
    Some(words)
  }

  /** Every entry is in lower case, as the script stores them. */
  predicate Normalised(h: seq<string>) {
    forall i :: 0 <= i < |h| ==> IsLower(h[i])
  }

  /** No word is stored twice. */
  predicate Distinct(h: seq<string>) {
    forall i, j :: 0 <= i < j < |h| ==> h[i] != h[j]
  }

  /** `tweeted_words.append(word.lower())`: the old entries, unchanged and in order, then the new one. */
  function Record(h: seq<string>, word: string): (r: seq<string>)
    ensures |r| == |h| + 1
    ensures r[..|h|] == h
    ensures r[|h|] == Lower(word)
  {
    h + [Lower(word)]
  }

  /**
   Recording a word that is new in lower case keeps the history free of repeats, and
   keeps it normalised.
   */
  lemma RecordKeepsHistory(h: seq<string>, word: string)
    requires Lower(word) !in h
    ensures Distinct(h) ==> Distinct(Record(h, word))
    ensures Normalised(h) ==> Normalised(Record(h, word))
  {
    var r := Record(h, word);
    if Distinct(h) {
      forall i, j | 0 <= i < j < |r|
        ensures r[i] != r[j]
      {
        if j == |h| {
          assert r[i] == h[i];
        } else {
          assert r[i] == h[i] && r[j] == h[j];
        }
      }
    }
  }
}
