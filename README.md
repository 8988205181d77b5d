# Twitter quotes bot: a verified model of its dispatch core

The bot posts quotations from Seneca's *Letters of a Stoic* to a Twitter
account, one quote per day, as a thread of linked tweets. This project models
three parts of the Python program and proves properties of the model:

- the posting path of `main.py`:
  - `read_quote`, which picks the first quote that is not yet tweeted, posts
    it and appends it to the tweeted file;
  - `TweetThreadHandler.post_quote_thread`, which posts a quote as a reply
    chain;
  - `_split_into_tweets`, which returns a text of at most
    `TWEET_LIMIT = 280` characters whole and otherwise packs its words greedily
    into chunks that stay under the limit, except a chunk holding a single
    word of 280 characters or more;
- the text clean-up of `text_cleaner.py`:
  - `clean_text`, which replaces mojibake and curly quotes with plain quotes;
  - the loop of `read_json_file`, which cleans the `Quote` and `Author` of
    every record;
- the quote-to-row mapping of `migrate.py`, with its content-based
  `is_tweeted` test and its commit-or-rollback session.

The modules are:

- `Wrappers`: `Option` and `Result`.
- `JsonValues`: JSON values as the files hold them (`null`, integers, strings)
  and records as maps. It also holds Python's `dict.get`, `str()` of a value,
  and the text of a `KeyError`.
- `Words`: `str.split()` with no argument, which splits on every character for
  which `isspace()` is true, and `' '.join`.
- `Threads`:
  - the chunking loop and `post_quote_thread`;
  - the `Client` whose `create_tweet` either returns a tweet id or raises a
    `TweepyException`;
  - the `TweetThreadHandler` class.
- `TextCleaner`:
  - `str.replace` (left to right, non-overlapping);
  - `clean_text`;
  - the record-cleaning loop, in place over an array.
- `Dispatch`: `read_quote`, together with `DataFiles`, which holds both JSON
  files.
- `Migration`: `migrate_json_to_sqlite` over an abstract `Session`.

The platform is an oracle. `respond(n, call)` is the answer to the `n`-th
`create_tweet` call the client makes: a tweet id, or a rejection, which stands
for a raised `TweepyException`. The client keeps a log of the calls it made.
Each imperative operation is a method. Its postcondition ties the result and
the new state to a specification function:

| method | specification function |
|---|---|
| `SplitIntoTweets` | `Segments` |
| `PostQuoteThread` | `QuoteThread` |
| `PostChain` | `Chain` |
| `PostFirstUntweeted` | `DispatchLoop` |
| `ReadQuote` | `ReadQuoteRun` |
| `CleanRecordsInPlace` | `CleanRecords` |
| `Migrate` | `Rows` |

The lemmas state what the source promises about those functions.

### Where the code and its description differ

The model follows the code in each case.

- **Chunk sizes.** A text of at most 280 characters is one chunk, which can
  have exactly 280 characters. For a text over the limit, every chunk is
  shorter than the limit or is a single word of at least 280 characters,
  which may exceed the limit: the loop counts one space per word, the last
  word included.
- **Empty first chunk.** When the text is over the limit and its first word
  has at least 280 characters, the first chunk is the empty string. The code
  closes the still-empty current chunk before it starts the long word's chunk.
  `Threads.SegmentsEmptyChunk` states exactly when this happens.
- **Text with no words.** A text over the limit that is all whitespace splits
  into no chunks. `chunks[0]` then raises `IndexError`, which `read_quote`
  reports as its error.
- **The citation.** The citation `"  - The Letters of a Stoic, page:"`
  (two leading spaces) is added for every page that is not the integer 0,
  `None` included: the text then ends in `page:None`.
- **Posting failures.** A quote whose thread fails to post is passed over.
  When no quote posts, the result is `"All quotes have been tweeted"`, even if
  untweeted quotes remain and merely failed. `Dispatch.DispatchExhausted` and
  `Dispatch.ReadQuoteAllTweeted` state this.
- **Two ways of counting a quote as tweeted.** `read_quote` compares whole
  records (`quote not in tweeted`). `migrate.py` compares only `Quote` and
  `Page`. `Migration.TweetedWithoutMembership` shows a quote that the
  migration marks tweeted but `read_quote` would post again.
- **No lock.** A guard against two concurrent runs of `read_quote` is
  described but does not exist in the code, and is not modelled.

## Model

| member | source | states |
|---|---|---|
| Words.IsSpace | main.py:73 | the characters `str.isspace()` accepts, the separators of `text.split()`; `Words.Split` and `Words.SplitEmptyIff` use it |
| Words.Join | main.py:82-87 | `' '.join(ws)`; `Words.SplitJoin` shows it is undone by `Split`, and `Threads.PackFromKeepsWords` relies on this |
| Words.Split | main.py:73 | `text.split()` yields only non-empty words free of whitespace |
| Words.SplitJoin | main.py:73-87 | splitting words joined by single spaces gives back exactly those words |
| Words.SplitEmptyIff | main.py:73 | `text.split()` is empty exactly when the text is all whitespace |
| Words.SplitAroundSpace | main.py:73 | splitting around a space splits each side on its own and concatenates the results |
| Threads.TweetThreadHandler.constructor | main.py:36-38 | the handler keeps its client and a tweet limit of 280 |
| Threads.PackFrom | main.py:77-87 | the greedy packing loop resumed from any state; characterised by `Threads.PackFromKeepsWords`, `Threads.PackFromFits` and `Threads.PackFromNonEmpty` |
| Threads.Segments | main.py:68-89 | the chunks of `_split_into_tweets`; characterised by `Threads.ShortTextIsOneChunk`, `Threads.SegmentsKeepWords`, `Threads.SegmentsFit`, `Threads.SegmentsEmptyChunk` and `Threads.SegmentsEmptyIff` |
| Threads.TweetThreadHandler.SplitIntoTweets | main.py:68-89 | the loop's chunks are `Segments(text, tweetLimit)`, the greedy packing of `text.split()`; a text within the limit is returned as the single chunk `[text]` |
| Threads.ShortTextIsOneChunk | main.py:69-70 | text within the limit is one chunk, unchanged, whitespace included |
| Threads.SegmentsKeepWords | main.py:72-89 | across the chunks, in order, the words are exactly `text.split()`, none lost, repeated or moved |
| Threads.SegmentsFit | main.py:77-87 | for text over the limit, every chunk is shorter than the limit or is a single word |
| Threads.SegmentsEmptyChunk | main.py:77-84 | chunk `k` is empty exactly when `k` is 0 and the first word has at least `limit` characters |
| Threads.SegmentsEmptyIff | main.py:69-89 | there are no chunks exactly when the text is over the limit and all whitespace |
| Threads.PackFromKeepsWords | main.py:77-87 | from any loop state, the words of the final chunks are the closed chunks' words, the open chunk's words and the words still to read |
| Threads.PackFromFits | main.py:77-87 | from a loop state whose length count tracks the open chunk, every final chunk is shorter than the limit or a single word |
| Threads.PackFromNonEmpty | main.py:77-87 | with a non-empty open chunk, the loop keeps the closed chunks as a prefix and adds at least one chunk after them, none of them empty |
| Threads.FullText | main.py:42-44 | the text posted for a quote: the quote alone for page 0, otherwise the quote, the citation and `str(page)`; `Threads.ThreadWords` gives the words it carries |
| JsonValues.PyStr | main.py:44 | how the f-string formats a value: a string as itself, an integer in decimal, `None` as `None`; used by `Threads.FullText` |
| Threads.ThreadWords | main.py:42-46 | the thread carries the quote's words, then the citation's words unless the page is 0 |
| Threads.Client.CreateTweet | main.py:50-59 | a `create_tweet` call is logged and answered by the platform according to its position in the log |
| Threads.Chain | main.py:50-63 | the posting of the chunks, first as a new tweet and then as replies, up to the first rejection; characterised by `Threads.ChainCalls`, `Threads.ChainOutcome`, `Threads.ChainTweets` and `Threads.ChainSpec` |
| Threads.QuoteThread | main.py:41-66 | `post_quote_thread` as a function of the platform's answers; characterised by `Threads.QuoteThreadSpec` |
| Threads.ChainCalls | main.py:50-61 | the posts carry the chunks in order; the first replies to nothing, and each later post replies to the id returned for the post before it |
| Threads.ChainOutcome | main.py:47-66 | the thread is posted exactly when every chunk's post was accepted; on failure, the last call made is the rejected one, and no call follows it |
| Threads.ChainTweets | main.py:50-63 | a posted thread returns one id per chunk, in order, each the one returned for that chunk's post |
| Threads.QuoteThreadSpec | main.py:41-66 | `post_quote_thread`: `IndexError` exactly when there are no chunks, with no call made; otherwise a reply chain that posts exactly when every chunk is accepted |
| Threads.ChainSpec | main.py:50-63 | a chain of at least one chunk never raises, and it posts exactly when every call was accepted, returning the ids of those calls |
| Threads.TweetThreadHandler.PostChain | main.py:50-63 | the first post and the reply loop make the calls of `Chain` and return its result: the ids when every chunk was accepted, failure at the first rejection |
| Threads.TweetThreadHandler.PostQuoteThread | main.py:41-66 | the loop's result and the calls it makes are those of `QuoteThread`, counted from the client's current call number |
| TextCleaner.ReplaceAll | text_cleaner.py:10-16 | `str.replace` with a non-empty pattern; characterised by `TextCleaner.ReplaceAbsent`, `TextCleaner.ReplaceShortens`, `TextCleaner.ReplaceRemoves` and `TextCleaner.ReplaceChar` |
| TextCleaner.ReplaceAbsent | text_cleaner.py:10-16 | `replace` of a pattern the text does not contain returns the text unchanged |
| TextCleaner.ReplaceShortens | text_cleaner.py:10-16 | `replace` with a replacement no longer than the pattern never lengthens the text |
| TextCleaner.ReplaceRemoves | text_cleaner.py:10-16 | when the replacement is non-empty and has no character of the pattern, the pattern no longer occurs in the result |
| TextCleaner.ReplaceChar | text_cleaner.py:13-16 | replacing one character by another maps the text character by character |
| TextCleaner.ReplaceCharKeepsAbsent | text_cleaner.py:13-16 | a character replacement that involves none of a pattern's characters cannot create that pattern |
| TextCleaner.CleanText | text_cleaner.py:5-17 | the seven replacements of `clean_text`, in the source's order; characterised by `TextCleaner.CleanTextRemovesPatterns`, `TextCleaner.CleanTextKeepsClean`, `TextCleaner.CleanTextIdempotent` and `TextCleaner.CleanTextShortens` |
| TextCleaner.CleanTextRemovesPatterns | text_cleaner.py:10-16 | the output of `clean_text` contains none of the seven patterns: the three mojibake forms and U+2018, U+2019, U+201C, U+201D |
| TextCleaner.CleanTextKeepsClean | text_cleaner.py:10-16 | a text containing none of the seven patterns is returned unchanged |
| TextCleaner.CleanTextIdempotent | text_cleaner.py:5-17 | `clean_text(clean_text(s)) == clean_text(s)` |
| TextCleaner.CleanTextShortens | text_cleaner.py:10-16 | `clean_text` never lengthens its input |
| TextCleaner.CleanField | text_cleaner.py:30-33 | cleaning one of `Quote` and `Author`: absent is left alone, a string is cleaned, any other value raises the `AttributeError` of `replace`; covered by `TextCleaner.CleanItemSpec` |
| TextCleaner.CleanItem | text_cleaner.py:30-33 | cleaning one record, `Quote` before `Author`; characterised by `TextCleaner.CleanItemSpec`, `TextCleaner.CleanItemWithoutText` and `TextCleaner.CleanItemIdempotent` |
| TextCleaner.CleanRecords | text_cleaner.py:28-33 | cleaning the list record by record, stopping at the first exception; characterised by `TextCleaner.CleanRecordsAll`, `TextCleaner.CleanRecordsFirstError` and `TextCleaner.CleanRecordsIdempotent` |
| TextCleaner.CleanItemSpec | text_cleaner.py:30-33 | cleaning a record succeeds exactly when its `Quote` and `Author` are strings or absent. Otherwise it fails with the `AttributeError` text of the first offending field. On success, only those two fields change, each to `clean_text` of its old value |
| TextCleaner.CleanItemWithoutText | text_cleaner.py:30-33 | a record with neither key passes through untouched |
| TextCleaner.CleanItemIdempotent | text_cleaner.py:29-33 | a cleaned record is a fixed point of cleaning |
| TextCleaner.CleanRecordsAll | text_cleaner.py:28-33 | the list is cleaned exactly when every record is; length and order are kept, record by record |
| TextCleaner.CleanRecordsFirstError | text_cleaner.py:29-33 | a failure is the exception of the first record that cannot be cleaned |
| TextCleaner.CleanRecordsIdempotent | text_cleaner.py:28-33 | cleaned records come back unchanged from a second cleaning, and their text fields are strings |
| TextCleaner.CleanRecordsInPlace | text_cleaner.py:29-33 | the in-place loop over the array succeeds exactly when `CleanRecords` does, leaves the array holding its value, and otherwise returns its error |
| TextCleaner.LoadRecords | text_cleaner.py:28-35 | loading a list of records returns `CleanRecords` of it |
| TextCleaner.ReadJsonFile | text_cleaner.py:28-35 | a document that is not a list is returned unchanged; a list comes back cleaned, or the cleaning error is reported |
| Dispatch.TryQuote | main.py:105-109 | one quote through the `try` body: `KeyError` of `Quote`, then of `Page`, the `len()` error of a non-string text when the page is 0 (main.py:69), else `post_quote_thread`; characterised by `Dispatch.TryQuoteRaises` |
| Dispatch.DispatchLoop | main.py:101-119 | the loop of `read_quote` for any way of trying a quote; characterised by `Dispatch.DispatchSucceeds`, `Dispatch.DispatchExhausted`, `Dispatch.DispatchWrites` and `Dispatch.DispatchNothingLeft` |
| Dispatch.DispatchSucceeds | main.py:101-116 | the loop returns quote `q` exactly when `q` is the first quote, in file order, that is untweeted and whose thread posts, and every untweeted quote before it failed to post |
| Dispatch.DispatchExhausted | main.py:101-119 | the loop ends with "All quotes have been tweeted" exactly when every quote is tweeted already or failed to post |
| Dispatch.DispatchWrites | main.py:111-116 | the tweeted list is written only on success, and then it is the old list plus exactly the posted quote, which was in the data and not yet tweeted |
| Dispatch.DispatchNothingLeft | main.py:101-119 | with every quote tweeted already, no call is made, nothing is written, and the result is "All quotes have been tweeted" |
| Dispatch.DispatchStep | main.py:101-116 | one turn of the loop: a quote skipped or failed hands over to the rest, any other quote ends the loop with its outcome |
| Dispatch.TryQuoteRaises | main.py:105-109 | the errors a quote can raise are the `KeyError` of `Quote` or `Page`, the `len()` error of a non-string text, or `IndexError`, and none of them is the "all tweeted" message |
| Dispatch.CleanRecordsFailure | main.py:97-98 | a file that fails to load reports a value without `replace`, never the "all tweeted" message |
| Dispatch.ReadQuoteRun | main.py:91-123 | `read_quote` as a function of the two files and the platform's answers: a load error is returned, otherwise the loop runs; characterised by `Dispatch.ReadQuoteSucceeds`, `Dispatch.ReadQuoteAllTweeted` and `Dispatch.NeverPostedTwice` |
| Dispatch.ReadQuoteSucceeds | main.py:91-116 | `read_quote` returns a quote exactly when both files load and it is the first untweeted quote, in file order, whose thread posts |
| Dispatch.ReadQuoteAllTweeted | main.py:91-123 | `read_quote` says "All quotes have been tweeted" exactly when both files load and every quote is tweeted or failed to post |
| Dispatch.NeverPostedTwice | main.py:101-116 | a quote `read_quote` posted is never returned by a later run on the files the first run left, whatever the platform answers |
| Dispatch.TryPost | main.py:105-109 | the `try` body for one quote returns what `TryQuote` gives and makes its calls |
| Dispatch.Turn | main.py:102-116 | one turn: a tweeted quote is skipped; otherwise the quote is tried, and the turn ends the loop unless its thread failed, appending a posted quote to the tweeted file |
| Dispatch.Visit | main.py:102-116 | one turn of the loop, measured against the run the whole loop produces: a turn that ends the loop has produced that run's result, calls and write; any other turn leaves the rest of the quotes to finish it |
| Dispatch.PostFirstUntweeted | main.py:101-119 | the loop's result, its calls and the tweeted file it leaves are those of `DispatchLoop`; the data file is unchanged |
| Dispatch.ReadQuote | main.py:91-123 | the result and calls of `read_quote` are those of `ReadQuoteRun`; the tweeted file is rewritten only on success, and the data file never |
| Migration.IsTweeted | migrate.py:17-21 | `is_tweeted` is true exactly when some record of the tweeted file has the same `Quote` and `Page` |
| Migration.Row | migrate.py:23-28 | the `Quote` row for one record: its text and page, the tweeted flag, and the clock's time only when tweeted; covered by `Migration.RowsSpec` |
| Migration.Rows | migrate.py:16-28 | the rows for the data file, or the `KeyError` of the first record missing a key; characterised by `Migration.RowsSpec` and `Migration.RowsFailure` |
| Migration.RowsSpec | migrate.py:16-28 | one row per quote, in order, exactly when every quote has both keys. Each row copies its quote's text and page, is tweeted when the content matches, and carries a time exactly when tweeted |
| Migration.RowsFailure | migrate.py:23-25 | a failure is the `KeyError` of the key missing from the first quote that lacks one |
| Migration.MemberIsTweeted | migrate.py:17-21 | a quote found whole in the tweeted file counts as tweeted by content |
| Migration.TweetedWithoutMembership | migrate.py:17-21 | a quote can count as tweeted by content without being in the tweeted file as a whole record |
| Migration.MissingMatchesNull | migrate.py:18-19 | a missing `Page` compares equal to a `Page` of `null` |
| Migration.TweetedByContent | migrate.py:17-21 | whether a quote counts as tweeted depends on its `Quote` and `Page` alone |
| Migration.Session.Add | migrate.py:29 | `db.session.add` appends a row to the pending rows |
| Migration.Session.Commit | migrate.py:31 | `commit` stores the pending rows after the table's rows |
| Migration.Session.Rollback | migrate.py:35 | `rollback` drops the pending rows and leaves the table alone |
| Migration.Migrate | migrate.py:16-35 | on success, the rows of `Rows` are committed after the session's existing pending rows. On a `KeyError` the session is rolled back, the table is as it was, and the message is returned |

## Left out

- The Flask app and its routes (main.py:12, main.py:146-189) are a web dashboard outside the posting path.
- Building the tweepy client from environment variables (main.py:24-34) is replaced by the `Client` class, whose platform answers are a parameter. The content of tweepy's response objects, beyond the id, is not modelled.
- Exceptions from `create_tweet` other than `TweepyException` are not modelled. A rejection always stands for a `TweepyException`.
- `daily_task` (main.py:125-133) only calls `read_quote` and logs its result, so it adds nothing beyond `Dispatch.ReadQuote`.
- `schedule`, `time.sleep`, the daemon thread and `app.run` (main.py:135-140, main.py:191-198) are scheduling and concurrency, and are not modelled.
- Logging is an output side effect, and is left out.
- File and encoding I/O is not modelled. This covers:
  - `codecs.open` and `json.load`/`json.dump`;
  - `write_json_file` (text_cleaner.py:49-54), which becomes an assignment to `DataFiles.tweeted`;
  - the latin-1 retry after a `UnicodeDecodeError` (text_cleaner.py:36-47), which repeats the same cleaning;
  - `clean_json_file` (text_cleaner.py:57-72);
  - clean_json.py, which is not part of this model.
- Write failures are not modelled.
- JSON values are limited to `null`, integers and strings. Booleans, floats, nested lists and objects, and list entries that are not objects are not modelled.
- Python equality of different value types is not modelled (for example `True == 1`, or `0.0` as a page).
- `read_quote` and `migrate.py` are modelled with both files holding lists. A top-level value that is not a list is modelled only by `TextCleaner.ReadJsonFile`, which returns it unchanged; such a value is an object of scalar fields or a scalar, and a top-level object with nested values is not modelled.
- `datetime.utcnow()` becomes a clock parameter, indexed by the quote's position in the data file.
- SQLAlchemy, the app context and the `Quote` model's column types are not modelled. The session is an abstract store with pending and committed rows.
- The traceback and the messages that `migrate.py` prints are not modelled. `Migration.Migrate` returns the message instead.
- The bodies of `str()` on integers (`JsonValues.NatToString`) and of `isspace()` (`Words.IsSpace`) are written out, not proved against Python's implementation.
- TextCleaner.CleanRecordsInPlace: does not state the array's contents after an error, because `read_quote` discards the data once the exception is raised.
