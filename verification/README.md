# News semantic search: a Dafny model of its retrieval and command-line core

The program ingests news articles by URL. For each article it builds one
text out of the title, summary and topics, and stores that text with its
embedding in a vector collection keyed by the URL. It then answers
free-text queries by asking the collection for the nearest matches and
keeping those within a distance threshold. This project models the part of
that program that is its own logic:

- `fun/semantic_search.py`:
  - `ArticleEntry` and its `as_str` rendering.
  - The stored document and metadata that `add_article_to_db` builds.
  - The threshold filter `semantic_search` applies to the collection's answer.
- `main.py`:
  - The interactive loop, a small state machine over the result count and
    the distance threshold.
  - `parse_all`, which tries every URL on its own.
  - `main`, which picks the mode and the URL source.

Modules:

- `Wrappers` (`wrappers.dfy`): `Option`, for calls that may raise.
- `Text` (`text.dfy`): Python's `str.strip()` (`Strip`), `str.split()` (`Words`), `sep.join` (`Join`) and, as the inverse of `join`, `str.split(sep)` (`Split`).
- `Articles` (`articles.dfy`):
  - Entries, metadata and stored records.
  - `AddArticleToDb` (the record `add_article_to_db` stores), `AsStr` (`as_str`) and `WithinThreshold` (the filter).
  - `SearchResults`, the outcome of `semantic_search`: None when the store call raises, otherwise the filtered answer.
  - The `SemanticSearch` method, a loop proved equal to `SearchResults`.
- `Interactive` (`interactive.dfy`):
  - `Classify` dispatches one input line.
  - `Step` is one pass of the loop body on a command, and `Run` is the loop's specification over the dispatched lines.
  - The `InteractiveSearch` method, a `while` loop over the input lines proved equal to `Run`. Its body is the `HandleLine` method, which handles one line and is proved equal to `Step` on the classified line.
- `Program` (`program.dfy`): `ParseAll`, `UrlSource`, `SelectMode`, `ExitStatus` (the status `main` exits with) and `RunCli` (the program's `main`).

The calls into libraries are parameters of the model. Each returns `None` where the library call would raise:

- `embed` stands for the embedding of a text.
- `store` stands for embedding a query and asking the collection for that many matches.
- `summarize` stands for the whole extraction and summarization chain. It takes the call's position as well as the URL, so the same URL listed twice can get different answers.
- `parseInt` and `parseFloat` stand for Python's `int()` and `float()`.

Distances are `real` values that are only compared. An `ArticleEntry` built
without a distance gets distance `0.0`, through the default value of the
datatype's last field; the source's default is the integer `0`, which
`as_str` would print as `0` rather than `0.0`, but no path of the program
renders an entry built without a distance. The loop starts from `InitialSettings`: 3 results and
threshold 0.5.

Notes on the code:

- Storing calls the collection's `add`; the repository has no
  replace-on-same-URL logic of its own.
- "At least 15 topics" is only a hint in the prompt; nothing enforces it.
- A failed URL is reported without naming the stage that failed.
- Nothing checks that the result count is at least 1 or that the threshold
  is non-negative.
- An exception raised while searching is not caught. It ends the
  interactive loop, and with it the program, with status 1.

## Model

| member | source | states |
|---|---|---|
| `Text.Strip` | main.py:34-36 | The stripped line is the slice of the input left after removing whitespace at both ends. It is empty exactly when the line is all whitespace, and otherwise begins and ends with a non-space character. |
| `Text.Words` | main.py:42 | No word `split()` gives is empty or contains a space, and there are no words exactly when the text is all whitespace. |
| `Text.WordsOfRun` | main.py:42 | `split()` skips leading whitespace, takes the whole following run of non-space characters as the first word, and continues on the text after that run; with the all-whitespace case of `Words`, this determines the words of every text. |
| `Text.WordsAfterKeyword` | main.py:40-49 | A space-free command word, then whitespace, then a non-space character gives at least two words, the command word first. |
| `Text.SplitJoin` | fun/semantic_search.py:48-61 | Splitting `sep.join(parts)` (`Join`) on `sep` gives back `parts` when there is at least one part and no part contains the separator's first character. |
| `Articles.AsStrLines` | fun/semantic_search.py:34-35 | When no field contains a line break, `as_str` (`AsStr`) is exactly five lines: Title, Summary, Topics, URL and Distance, in that order, each with its field. |
| `Articles.Document` | fun/semantic_search.py:47-49 | The document starts with the title and ". ", has the summary next, and ends with ". Topics: " and the joined topics. Its length is the parts' lengths plus 12. |
| `Articles.AddArticleToDb` | fun/semantic_search.py:46-65 | A record is produced exactly when embedding the document succeeds. Its key is its own URL, its document is built from its own metadata, and its embedding is that document's. The metadata copies title, url and summary, and holds the topics joined by ", ". |
| `Articles.StoredTopicsRoundTrip` | fun/semantic_search.py:61 | The stored topics text splits back into the article's topic list when the list is non-empty and no topic contains a comma. |
| `Articles.Zip` | fun/semantic_search.py:81 | `zip` pairs elements index by index and stops at the shorter list. |
| `Articles.WithinThreshold` | fun/semantic_search.py:81-91 | Every kept entry has distance at most the threshold, and there are no more entries than candidates. |
| `Articles.WithinThresholdMembers` | fun/semantic_search.py:81-91 | An entry is in the result exactly when some candidate with distance at most the threshold produces it. That entry copies the candidate's title, url, summary and topics and carries its distance. |
| `Articles.WithinThresholdAppend` | fun/semantic_search.py:81-91 | The filter is decided candidate by candidate: filtering a concatenation is the concatenation of the filtered parts. |
| `Articles.WithinThresholdSubsequence` | fun/semantic_search.py:77-92 | The result is a subsequence of the candidates' entries, so the store's relative order is kept. |
| `Articles.WithinThresholdSorted` | fun/semantic_search.py:79-92 | If the candidates' distances are non-decreasing, so are the result's. |
| `Articles.SemanticSearch` | fun/semantic_search.py:68-92 | The loop's result is `SearchResults`: the threshold filter of the zipped answer, or None exactly when the store call raised. It has no more entries than either list, so an empty answer gives an empty result, not an error. Every entry is within the threshold. |
| `Articles.StoredArticleFound` | fun/semantic_search.py:57-90 | A stored article whose metadata comes back within the threshold is returned with its own title, url and summary, its joined topics and the match's distance. |
| `Interactive.CommandArgumentExists` | main.py:40-49 | A stripped line that starts with a command word and a space always has a second word, so the handler for a missing argument never fires. |
| `Interactive.Classify` | main.py:34-54 | A line is `/exit` exactly when it strips to `/exit`. It is a result-count or threshold command exactly when the stripped line starts with `/max-results ` or `/thresh `; the command's value is `int()` or `float()` of the second word. Any other line is a query with the stripped text. |
| `Interactive.BareCommandsAreQueries` | main.py:34-47 | `/max-results ` and `/thresh ` with no argument lose their space to stripping and run as queries. |
| `Interactive.Run` | main.py:33-57 | The loop produces at most one event per input line. |
| `Interactive.HandleLine` | main.py:34-63 | Handling one line gives the event and the next settings that `Step` gives for the command the stripped line classifies as: `/exit` quits, a good `/max-results` or `/thresh` argument replaces that setting and keeps the other, a bad one leaves both unchanged, and anything else is searched with the current settings. |
| `Interactive.InteractiveSearch` | main.py:26-63 | The loop, started from 3 results and threshold 0.5, produces exactly the events and final settings of `Run` on the dispatched lines. |
| `Interactive.RunEvents` | main.py:37-57 | Each event answers its line's command. `/exit` quits. A command is acknowledged, as applied or not, and never searches. Each query searches exactly once, with the search's outcome. Only the last event can end the loop, and every line is read unless an event ends it. |
| `Interactive.RunStopsAtEnd` | main.py:37-39 | Once `/exit`, or a search that raised, has ended the loop, later commands change nothing. |
| `Interactive.SessionIgnoresLaterLines` | main.py:33-39 | Input lines after the one that ends the loop are never read. |
| `Interactive.RunSearchSettings` | main.py:40-57 | Each search runs with the settings the earlier lines established. Each setting is the parsed argument of the last command that set it successfully, otherwise its starting value; a failed parse or the other command leaves it unchanged. |
| `Interactive.RunFinalSettings` | main.py:40-53 | The settings when the loop stops are those the lines it read established, by the same last-successful-command rule. |
| `Program.ParseAll` | main.py:8-23 | There is one outcome per URL, in list order. A URL is reported parsed, with the summary's title and text, exactly when the summarization call made for its position succeeded. A failure on one URL does not affect the others, and a URL listed twice is summarized twice, each time on its own. |
| `Program.UrlSource` | main.py:85-91 | Non-empty `--urls` override the data file's list; otherwise the data file's `urls`, or nothing. |
| `Program.SelectMode` | main.py:81-98 | Help exactly when neither flag is given. Search-only exactly when only `--search` is given. With `--parse`, no URLs means stopping early; otherwise those URLs are parsed. |
| `Program.RunCli` | main.py:66-98 | Help exits 0 having done nothing, and `--parse` without URLs exits 1 before parsing. Otherwise every URL is parsed (with `--parse`), then the loop runs from the initial settings. The status (`ExitStatus`) is 0 after `/exit` and 1 when the loop ended by end of input or a search exception. |

## Left out

- Embedding computation and the collection's `add` and `query` are library calls and persistence I/O. The model takes them as parameters. It does not model duplicate URLs, dimension checks or the nearest-neighbour ordering inside the collection.
- The store is a fixed function during a session. Records written by `parse_all` before the loop are not tied to what later searches return.
- `fun/summarizer.py` and `fun/news_extractor.py` are not part of this model. The whole summarization chain, including its write to the collection, is the `summarize` parameter of `ParseAll`.
- Reading the API key and `data.json`, and `argparse` itself, are not modelled. The flags are the `Args` value, and the data file's `urls` entry is an `Option` input.
- All printing and prompting is left out. Input is a sequence of lines, and the loop's output is its sequence of events.
- Floating point is left out. Distances and the threshold are reals, so NaN and infinities, which `float()` accepts, are not represented.
- `Articles.AsStr` renders a topic *list* with plain single quotes around each item. It does not model Python's `repr` choice of quotes or its escaping; search results carry topics as text, which renders as is.
- The metadata is assumed to be a record with all four fields. A missing key in the collection's metadata would raise `KeyError`, which is not modelled.
- The whitespace set follows Python's `str.isspace()` for the characters it lists, not the full Unicode database.
