# Word-of-the-day bot: a Dafny model of `xpost.py`

`xpost.py` is a script that posts one "word of the day" to a social network per run.
It asks a text service for a word, its meaning and an example sentence. It makes up to
three attempts to find a word that is not in the history file. It formats the post, publishes
it, and only then appends the lower-cased word to the history and saves it.

This project models the decision logic of that script as pure Dafny functions. The
network services are abstract inputs:

- The text service is a sequence of `Generator.Response` values: `Raises`, `NoChoices`
  or `Content(text)`, one per attempt.
- The posting call is a `Bot.Posting` value: `Posted` or `PostError`.
- The history file is a `History.Store`: `None` when the file does not exist, otherwise
  `Some(list)`.

Modules, in dependency order:

- `Wrappers`: `Option`.
- `Text`: the Python string built-ins the script relies on. `Strip` is `str.strip()`
  with Python's whitespace set. `Split` is `str.split(sep)` for a one-character
  separator, with `Join` as its inverse. `Lower` is `str.lower()` on ASCII letters.
- `Parse`: the positional parser of lines 69-72. The reply is split on `"\n"` and empty
  lines are kept. Lines 0, 1 and 2 become word, meaning and sentence. A line with a
  colon yields the trimmed text between its first and second colon. A line without one
  yields the whole line, trimmed. Fewer than three lines gives `None`; in the source
  this is the `IndexError` that the `except` branch catches.
- `Generator`: one attempt (`Attempt`, classified as `Raised`, `Skipped`, `Duplicate` or
  `Accepted`) and the retry loop (`Decide`, `GetUniqueWord`). Only a `Raised` attempt
  is followed by the `time.sleep(delay)` pause. `Sleeps` counts those pauses.
- `Composer`: the post template, and `Decompose`, which reads a post back into its triple.
- `History`: loading, saving, and appending one lower-cased word.
- `Bot`: `tweet()` as `Tweet`. A run posts only when a non-empty word was found. It
  saves only when the post goes through. `RunDays` repeats runs over several days.

## Model

| member | source | states |
|---|---|---|
| `Text.Strip` | xpost.py:59 | the stripped text has no whitespace at either end and is no longer than the input |
| `Text.StripSlice` | xpost.py:59 | what `strip()` keeps is one contiguous slice of the input, with only whitespace cut before and after it |
| `Text.StripOf` | xpost.py:70-72 | stripping whitespace-surrounded text whose ends are not whitespace gives exactly that middle text back |
| `Text.StripIdempotent` | xpost.py:59 | stripping twice is the same as stripping once |
| `Text.Lower` | xpost.py:74 | the lower-cased word has the same length, each ASCII letter lowered pointwise, and holds no upper-case letter |
| `Text.LowerFixesLower` | xpost.py:106 | a string equals its own lower-case form exactly when it holds no upper-case letter |
| `Text.LowerIdempotent` | xpost.py:74 | normalising a word twice gives the same string as normalising it once |
| `Text.CountPositive` | xpost.py:70-72 | a character occurs in a line exactly when its count is positive |
| `Text.SplitCount` | xpost.py:69 | `split` returns one more piece than there are separators, empty pieces included |
| `Text.JoinSplit` | xpost.py:69 | joining the pieces with the separator gives back the original text |
| `Text.SplitJoin` | xpost.py:69 | splitting a join of separator-free pieces gives back exactly those pieces |
| `Text.Split` | xpost.py:69-72 | `split` returns at least one piece, and no piece holds the separator |
| `Text.SplitPiece` | xpost.py:69 | a separator-free prefix followed by the separator splits off as the first piece |
| `Parse.Field` | xpost.py:70-72 | a field is always trimmed and never longer than its line |
| `Parse.FieldBetweenColons` | xpost.py:70-72 | a line with a colon yields the trimmed text between its first colon and the next colon or the end of the line; anything after a second colon is dropped |
| `Parse.FieldWithoutColon` | xpost.py:70-72 | a line without a colon yields the whole line, trimmed |
| `Parse.ParseResponse` | xpost.py:69-72 | a triple comes back exactly when the text holds at least two newlines, and all three fields are trimmed |
| `Parse.ParseLines` | xpost.py:69-72 | the first three newline-separated lines become word, meaning and sentence, whatever lines follow |
| `Parse.ShortResponseFails` | xpost.py:69-72 | a reply with fewer than two newlines yields no triple |
| `Parse.LabelledField` | xpost.py:70-72 | a line `<label>: <value>` with a trimmed, colon-free value yields the value |
| `Parse.BlankLineShiftsFields` | xpost.py:69-72 | empty lines are not skipped: a blank second line gives an empty meaning, and the third line becomes the sentence |
| `Generator.Attempt` | xpost.py:74-75 | an attempt is accepted only when the word's lower-case form is not in the history, and is a duplicate only when it is |
| `Generator.AttemptPaths` | xpost.py:38-79 | the exception path, which pauses, is taken exactly for an exception or a non-blank reply of fewer than three lines; `continue` is taken exactly for missing choices or blank content; any other attempt carries the parsed triple of the stripped content |
| `Generator.Decide` | xpost.py:37-75 | the loop stops at the first accepted attempt, and otherwise runs through every attempt; the steps it records are the attempts made, in order |
| `Generator.GetUniqueWord` | xpost.py:36-82 | at most `retries` attempts are made, each as `Attempt` describes; a returned word's lower-case form is never in the history; `None` comes back only after all `retries` attempts were made and none was accepted |
| `Generator.FirstAcceptedWins` | xpost.py:37-75 | the loop returns exactly the first accepted attempt's triple, after making the attempts before it |
| `Generator.SecondAttemptWins` | xpost.py:74-75 | a duplicate on the first attempt and a new word on the second end the search after two attempts, with the second triple |
| `Generator.Sleeps` | xpost.py:77-79 | the number of pauses is zero exactly when no attempt raised, and never more than the number of attempts |
| `Generator.NoExceptionNoSleep` | xpost.py:55-64 | duplicates, blank replies and missing choices move on with no pause: without exceptions the loop never sleeps |
| `Generator.AllAttemptsRaise` | xpost.py:77-82 | when every attempt raises, the loop makes all `retries` attempts, pauses after each, and returns `None` |
| `Generator.OneLineRaises` | xpost.py:69-79 | a one-line, non-blank reply takes the exception path |
| `Generator.ThreeOneLineReplies` | xpost.py:36-82 | three one-line replies give three failed attempts, three pauses and no word |
| `Generator.LabelledReply` | xpost.py:59-75 | the reply `Word: w\nMeaning: m\nExample: e` is parsed to `(w, m, e)`, and the attempt is accepted exactly when `w` in lower case is not in the history |
| `Composer.Compose` | xpost.py:85-89 | the post is the fields' lengths plus 62 characters long, starts with `Word of the day: ` and the word, and ends with `#vocabulary #spellbee` |
| `Composer.ComposeLines` | xpost.py:87 | for newline-free fields the post is exactly seven lines: the word, meaning and example lines, each with its label, separated by blank lines, then the hashtags |
| `Composer.Decompose` | xpost.py:87 | any triple read back from a text composes back to that same text |
| `Composer.DecomposeCompose` | xpost.py:85-89 | reading back a composed post recovers the word, meaning and sentence it was made from |
| `Composer.ComposeContains` | xpost.py:87 | the meaning and the sentence appear verbatim at their places in the post |
| `History.Load` | xpost.py:22-26 | a missing history file loads as the empty list |
| `History.Save` | xpost.py:28-30 | after saving, loading gives back exactly the saved list |
| `History.Record` | xpost.py:106 | the new history is the old one, unchanged and in order, with the lower-cased word appended |
| `History.RecordKeepsHistory` | xpost.py:74-75 | appending a word that is new in lower case keeps the history free of repeats and in lower case |
| `Bot.Tweet` | xpost.py:92-111 | something is posted exactly when a non-empty word was found (`Bot.Truthy`, the `if word:` test), and the post is the composed triple; the history is saved exactly when that post goes through, as the old history plus the new lower-cased word, which was not in it before; when nothing is saved the history file is unchanged |
| `Bot.TweetKeepsHistory` | xpost.py:97-107 | one run keeps the history free of repeats and in lower case |
| `Bot.RunDaysKeepsHistory` | xpost.py:92-111 | over any number of runs the history only grows at its end, never holds a word twice, and stays in lower case |
| `Bot.FirstReplyPosted` | xpost.py:97-107 | with no history file, a labelled first reply is accepted on attempt one and posted as composed; a successful post makes the lower-cased word the whole history |
| `Bot.DuplicateThenNew` | xpost.py:74-107 | a reply whose word is already in the history, in any letter case, is passed over with no pause; the next new word is posted and appended |
| `Bot.LuminousPosted` | xpost.py:92-107 | with an empty history, the reply about "Luminous" is posted, and the history becomes `["luminous"]` |
| `Bot.PlacidAfterLuminous` | xpost.py:74-107 | with `"luminous"` in the history, "Luminous" is passed over and "Placid" is posted on the second attempt |
| `Bot.GarbageSkipsRun` | xpost.py:97-111 | three one-line replies: no word, three pauses, nothing posted or saved, and the history file unchanged |
| `Bot.FailedPostKeepsStore` | xpost.py:101-109 | a post that raises `TweepError` saves nothing and leaves the history file as it was |

## Left out

- The OpenAI and tweepy clients, authentication and environment variables (xpost.py lines 1-17, 32-33 and 42-49) are foreign network calls. Their results are the `responses` and `posting` parameters.
- The checks on the library's response object (lines 55-59) depend on that library's object semantics. They are abstracted as the three `Response` cases. An exception raised while reading the object counts as `Raises`.
- `print` logging and the `time.sleep(delay)` pause are side effects only. `Generator.Sleeps` counts the pauses; the 5-second length is not modelled.
- JSON reading and writing (lines 22-30) are not modelled. The file is an optional list of strings. A file holding malformed JSON makes `json.load` raise and the script stop, and a file holding something other than a list of strings is outside the model; neither case is covered.
- `Bot.Tweet` covers the two outcomes the script handles: the post returns, or it raises `tweepy.TweepError`. Any other exception from the post, or from `save_tweeted_words`, ends the script. The model does not cover those cases.
- `Text.Lower` lowers ASCII letters only. Python's `str.lower` also applies Unicode case mappings to other letters.
- `Generator.GetUniqueWord` requires at least `retries` responses. The text service answers every request, so this only sizes the abstract input.
- The same deployment in other forms (labelled-prefix parsing that skips empty lines, a store behind a remote repository's content API, a newer posting endpoint, read errors treated as an empty history) is not in `xpost.py`. The model follows `xpost.py`: positional parsing, empty lines kept, a local file, and `update_status`.
