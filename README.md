# wiki-search core in Dafny

A Dafny model of the core of `wiki-search`, a full-text search service for a MediaWiki dump. It covers five parts:

- **Markup flattener** (`textify`). Page text passes through it before it is indexed.
- **Page metadata** (`page.rs`):
  - namespace codes and URL prefixes;
  - the title-date parser;
  - the fourteen-digit `page_touched` timestamp;
  - the conversion of both to Unix seconds.
- **Date bounds** (`util.rs`). Search queries may carry `YYYY-MM-DD` bounds, and this parses them.
- **Search index** (`search.rs`):
  - the document built for a page;
  - the batch indexing that commits once;
  - the assembly of query results from ranked hits.
- **Background reindexer** (`reindexer.rs`). Each cycle takes both locks, reads the wiki revision, asks the index whether that revision needs a reindex, and then reindexes. The loop keeps running after a cycle fails.

## Modules, one per file

- `wrappers.dfy` (`Wrappers`): `Option`.
- `chars.dfy` (`Chars`): whitespace and digit classes.
- `calendar.dfy` (`Calendar`):
  - proleptic Gregorian dates and date-times;
  - days from the civil date;
  - Unix seconds of a date's midnight in UTC.
- `strftime.dfy` (`Strftime`):
  - the part of chrono's strftime reader that the program's formats use: `parse_and_remainder`, `parse_from_str` and `to_naive_date[_time]`;
  - a zero-padding writer. Only the round-trip lemmas use it.
- `seqs.dfy` (`Seqs`): mapping and concatenation of sequences.
- `util.rs` → `util.dfy` (`Util`): the crate's `Error`, `Result`, `parse_date` and `deserialize_date`.
- `src/wiki/textify.rs` → `textify.dfy` (`Textify`).
  - The regex pass is written as a scan. At each position the four alternatives are tried in order, and the first that matches wins (leftmost-first).
  - `Flattened` is an independent reading of the same pass, run by run. It is proved equal to the scan.
- `src/page.rs` → `page.dfy` (`Page`).
  - `TitleDate::try_from` is the method `TitleDateFromString`. Its format loop is the method `FirstDateLoop`.
  - Both are proved against the function `FirstDate`.
- `src/search.rs` → `search.dfy` (`Search`).
  - `IndexWriter` and `Search` are classes.
  - `Search.committed` holds the documents of the commits made so far.
  - `make_doc`, `index_page`, `index_pages` and `query` are methods. Each is proved against a specification function.
- `src/reindexer.rs` → `reindexer.dfy` (`Reindexer`).
  - The class holds `interval` and `log`. The log is what the reindexer has done to the shared handles, in order: locks, calls and releases. It also holds the warnings and sleeps of `run`.
  - The answers of the wiki and of the index during a cycle are inputs (`CycleEnv`).

## Behaviour of the code worth knowing

The model follows the code.

- **`index_pages`.** It opens a writer, adds the pages and commits. It never deletes, so a batch is appended to what the index already holds, and pages indexed before stay. A reindex might be expected to replace the index contents; the code appends, and so does `IndexPages`.
- **`Namespace::from(i32)`.** Codes 4 and 10 both map to `Template`, and 5 and 11 both map to `TemplateTalk`. Code 6 maps to `File`. So no code gives a Project namespace, and code 10 is not told apart from code 4. The model keeps this table, and `TemplateCodesCollide` states the collision.
- **Title-date formats.** The second format (`%b %0d, %Y`) accepts exactly the titles the first one (`%b %-d, %Y`) accepts. Padding flags do not matter when reading (`PaddedDayFormatRedundant`).
- **`%b` reads three letters.** chrono reads `%b` as exactly the three letters of a month abbreviation, so a title that spells the month out, such as `January 5, 2023`, has no title date: the day item meets `uary` (`LongMonthNameRejected`). May is the only month whose full name is its abbreviation.
- **`textify`.** It does not merge whitespace.
  - A run of n newlines becomes n spaces.
  - A run of n ≥ 2 whitespace characters that is not led by a newline becomes n spaces.
  - A single whitespace character other than a newline, with no whitespace after it, is kept as it is, even right after newlines: `\n\t` gives ` \t`, while `\t\n` gives two spaces.
  - The close-tag alternative can never fire.

## Model

| member | source | states |
|---|---|---|
| Textify.Textify | src/wiki/textify.rs:25-39 | No newline survives the pass, and the output is never longer than the input. |
| Textify.Replacement | src/wiki/textify.rs:26-38 | Every replacement is a non-empty run of spaces, never longer than what it replaces. A newline run or whitespace run is replaced by exactly as many spaces as it is long. |
| Textify.CloseTagIsOpenTag | src/wiki/textify.rs:18-19 | Whatever `</[^>]+>` matches, `<[^>]+>` matches too, with the same length. |
| Textify.CloseTagUnreachable | src/wiki/textify.rs:33-36 | Alternatives are tried in order, so no match is ever a close tag. |
| Textify.TextifyIsFlattened | src/wiki/textify.rs:13-39 | The leftmost-first pass equals the run-by-run reading. The reading turns each maximal whitespace run into spaces, except that a run ending in exactly one non-newline character after its newlines, which may be none, keeps that character. It turns each tag into one space and copies every other character. |
| Textify.TagFreeBlanksWhitespaceOnly | src/wiki/textify.rs:25-39 | For input without `<`, the output is exactly as long as the input. Every other character is copied in place, each whitespace character stays or becomes a space, and every newline becomes a space. |
| Textify.PassThrough | src/wiki/textify.rs:25-39 | Text with no tag, no newline and no two adjacent whitespace characters comes out unchanged. |
| Textify.NewlinesBecomeSpaces | src/wiki/textify.rs:27-28 | A maximal run of k newlines becomes k spaces, and the rest is flattened on its own. |
| Textify.WhitespaceRunBecomesSpaces | src/wiki/textify.rs:29-30 | A maximal run of two or more whitespace characters, not led by a newline, becomes as many spaces. |
| Textify.LoneWhitespaceKept | src/wiki/textify.rs:16-17 | A single whitespace character other than a newline, not followed by whitespace, is copied. |
| Textify.TagBecomesOneSpace | src/wiki/textify.rs:31-32 | `<` + one or more non-`>` characters + `>` becomes exactly one space, newlines inside included. The text after it is kept. |
| Textify.TemplateVector | src/wiki/textify.rs:49 | `{{a\|b=c\|d=e}}` comes out unchanged. |
| Textify.PipeTemplateVector | src/wiki/textify.rs:50 | `{{a\|b\|c}}` comes out unchanged. |
| Textify.ItalicVector | src/wiki/textify.rs:51 | `''hello''` comes out unchanged. |
| Textify.BoldVector | src/wiki/textify.rs:52 | `'''hello'''` comes out unchanged. |
| Textify.QuoteVector | src/wiki/textify.rs:53-54 | `'''''hello'''''` comes out unchanged. |
| Textify.HeadingVector | src/wiki/textify.rs:58 | `= a =\nb\n\n= c =\nd` becomes `= a = b  = c = d`: each newline gets its own space. |
| Textify.LoneWhitespaceVectors | src/wiki/textify.rs:16-17 | `\n\t` becomes ` \t`, and `\t\n` becomes two spaces. |
| Page.NamespaceFromCode | src/page.rs:62-87 | The result is `Other(code)` exactly when the code is not one of the twenty listed codes. |
| Page.NamespaceFromCodeIff | src/page.rs:62-87 | A code is read as a namespace exactly when it is among that namespace's codes. This is the table read both ways. |
| Page.TemplateCodesCollide | src/page.rs:67-78 | Codes 4 and 10 both give `Template`, and codes 5 and 11 both give `TemplateTalk`. |
| Page.ToPrefix | src/page.rs:91-115 | The prefix is empty exactly for `Main`. It is `Unknown` for `Other`, and every other prefix ends in `:`. |
| Page.PrefixRoundTrip | src/page.rs:94-113 | Every named namespace can be read back from its prefix. |
| Page.PrefixInjective | src/page.rs:94-113 | Distinct named namespaces have distinct prefixes. |
| Page.NamespaceName | src/page.rs:5-26 | The display name is never empty. It starts with a digit or `-` exactly for `Other`. |
| Page.NamespaceNameInjective | src/page.rs:5-26 | Distinct namespaces have distinct display names, so the namespace field of a document tells them apart. |
| Page.OtherNameValue | src/page.rs:25 | The code of an `Other` namespace can be read back from its display name, sign included. |
| Page.ReplaceUnderscores | src/page.rs:140 | Same length, with each underscore replaced by a space and every other character kept. |
| Page.TryFormat | src/page.rs:145-165 | A format yields a date only in the 1678..2262 window, only when it read a prefix of the title, and only the date its fields give with month and day defaulting to 1. |
| Page.TryFormatIff | src/page.rs:148-165 | A format succeeds exactly when it reads a prefix whose fields give a windowed year and, with the defaults, a real date. |
| Page.FirstDate | src/page.rs:144-170 | No date exactly when every format fails. Any date found lies in the window. |
| Page.FirstDateIsFirstSuccess | src/page.rs:144-168 | A format that succeeds after only failures decides the result. |
| Page.FirstDateHasFirstSuccess | src/page.rs:144-168 | A date found comes from some format, and every format before it failed. |
| Page.FirstDateLoop | src/page.rs:144-170 | The loop over the formats returns what `FirstDate` says. It skips failures, defaults month and day, skips out-of-window years and invalid dates, and returns the first success. |
| Page.TitleDateFromString | src/page.rs:139-171 | Never `Err`. The result is `FirstDate` of the formats on the title with underscores replaced, and `None` when no format succeeds. |
| Page.PaddedDayFormatRedundant | src/page.rs:120-122 | `%b %0d, %Y` accepts exactly what `%b %-d, %Y` accepts, with the same date. |
| Page.MonthDayYearTitle | src/page.rs:120 | `Jan d, yyyy` followed by anything names January d of that year. |
| Page.IsoTitleDate | src/page.rs:124 | A title written as a `YYYY-MM-DD` date in the bound window is read as that date. |
| Page.YearMonthTitle | src/page.rs:128 | A `yyyy-mm` title in the window names the first of that month. |
| Page.YearTitle | src/page.rs:132 | A bare `yyyy` title in the window names the first of January. |
| Page.TitleDateTests | src/page.rs:220-224 | Each of the five test titles gives 2023-01-01. |
| Page.WikiTimestampFromString | src/page.rs:177-182 | Failure is `InvalidDate` carrying the original string. Success means the whole string read as `%Y%m%d%H%M%S`. |
| Page.WikiTimestampOfFormatted | src/page.rs:177-181 | Every date-time written as fourteen digits reads back as itself. |
| Page.WikiTimestampRejectsTrailing | src/page.rs:178-180 | Anything after the fourteen digits is `InvalidDate` of the whole string. |
| Page.WikiTimestampSeconds | src/page.rs:194-196 | The Unix seconds of a timestamp lie within the day it names. |
| Page.WikiTimestampSecondsOrdered | src/page.rs:194-196 | A later `page_touched` never has fewer seconds. It has the same seconds exactly when the two differ only in second 59 against the leap second 60 of the same minute. |
| Page.TitleDateTimestamp | src/page.rs:186-190 | `None` exactly when there is no date. Otherwise the Unix seconds of its midnight, a multiple of 86400. |
| Page.TitleDateTimestampOrdered | src/page.rs:186-190 | Earlier title dates have smaller timestamps. |
| Page.IsoTitleMatchesDateBound | src/page.rs:186-190 | A page titled by a date in the bound window carries the same seconds that the bound parses to. |
| Page.PageFromRow | src/page.rs:49-60 | A row converts exactly when `page_touched` parses. Otherwise the result is the decode error of the `page_touched` column, wrapping `InvalidDate` of the column's text. On success, id, title and text are copied, the title date comes from the title and the namespace from its code. |
| Page.LongMonthNameRejected | src/page.rs:118-170 | A title that starts with `January` has no title date. Both `%b` formats stop at `uary`, and the five formats that start with `%Y` stop at the `J`. |
| Page.LongMonthTitleVector | src/page.rs:139-170 | The title `January_5,_2023` is read as no date. |
| Strftime.ScanMonthName | src/page.rs:118-133 | `%b` succeeds exactly when the text starts with a month abbreviation, in any case. It gives that month's number and leaves everything after the three letters. |
| Page.ToUrl | src/page.rs:200-202 | The URL starts with the base, ends with the title, and is exactly as long as base, prefix and title together. For an `Other` namespace the part between base and title is `Unknown`, with no colon before the title. |
| Page.ToUrlRecoversNamespace | src/page.rs:200-202 | Between base and title sits the prefix. For a named namespace it names the page's namespace again; for an `Other` namespace it is `Unknown` and names no namespace, so the code is lost. |
| Util.ParseDate | src/util.rs:34-51 | `""` fails with `InvalidDate("empty date")`, and any other failure is `InvalidDate(s)`. Success exactly when `s` is a whole `%Y-%m-%d` date with a year in 1700..2200. The value is its midnight's Unix seconds, a multiple of 86400. |
| Util.DeserializeDate | src/util.rs:53-67 | `""` is exactly `Ok(None)`. Any other string gives `Some` of `parse_date` when that succeeds. Otherwise the error is serde's custom error holding only the displayed message of `parse_date`'s error, which is always `date parse error`: the input is not carried. |
| Util.ParseIsoDateOfFormatted | src/util.rs:41-42 | Every date written as `YYYY-MM-DD` reads back as itself. |
| Util.ParseDateOfFormatted | src/util.rs:41-50 | Every date in the window, written as `YYYY-MM-DD`, is accepted as the seconds of its midnight. |
| Util.ParseDateRejectsOutsideWindow | src/util.rs:43-45 | A valid date outside 1700..2200 fails with `InvalidDate` carrying the input. |
| Util.ParseDateOrdered | src/util.rs:47-48 | Accepted bounds are strictly increasing in the calendar date. |
| Search.GetFirst | src/search.rs:106-108 | `get_first` is the first value added for the field, and is absent exactly when the field has none. |
| Search.DocumentFields | src/search.rs:131-143 | id, title, text, page_touched and namespace are present once each, copied from the page. title_date is present exactly when the title date has a timestamp, and then it is that timestamp. |
| Search.StoredFieldsOfDocument | src/search.rs:106-108 | A page's document gives back the page's id as an i64, and its title and text as texts. So the `unwrap`s of `query` cannot fail on it. |
| Search.Search.MakeDoc | src/search.rs:125-146 | Never fails, and builds the page's document field by field. |
| Search.IndexWriter.AddDocument | src/search.rs:57 | Queues the document unless the writer fails. A failure becomes `Tantivy` and leaves the queue as it was. |
| Search.Search.IndexPage | src/search.rs:56-60 | Adds the page's document to the writer, or fails with the writer's error. |
| Search.IndexOutcome | src/search.rs:62-75 | A batch succeeds exactly when opening the writer, adding each page and committing all succeed. Every failure is `Tantivy`. |
| Search.Search.IndexPages | src/search.rs:62-75 | One document per page, in order, committed once after the last page. Any failure returns before the commit and leaves the index and the commit count as they were. |
| Search.Search.constructor | src/search.rs:40-54 | An index opened over the documents of pages indexed earlier, with no commit yet. |
| Search.TopDocs | src/search.rs:94 | At most `count` hits, a prefix of the ranking, and all hits when there are fewer than `count`. |
| Search.EntryOf | src/search.rs:105-119 | An entry carries its document's stored id, title and text, and the hit's score. |
| Search.EntryOfIndexedPage | src/search.rs:104-119 | A hit on a page's document reports that page's title, text and id. |
| Search.EntriesOf | src/search.rs:104-120 | One entry per hit, in hit order. |
| Search.Search.Query | src/search.rs:77-123 | The loop returns exactly what the specification function `QueryResult` gives. That function checks failures in order: reader, parser (`InvalidQuery`), search, snippet generators, then the document fetch of each top hit. Otherwise it gives one entry per top hit. |
| Search.ParseErrorBeforeSearch | src/search.rs:92-94 | A query the parser rejects fails with that error, whatever the search would have done. |
| Search.QueryEntries | src/search.rs:94-122 | A successful query holds at most `count` entries, one per top hit in hit order, each with that hit's score and its document's id, title and text. |
| Search.QueryFindsIndexedPage | src/search.rs:62-122 | After a batch is indexed, a top hit on its k-th document reports the k-th page of the batch. |
| Reindexer.Reindexer.constructor | src/reindexer.rs:18-24 | The interval is 3600 seconds, and nothing has been done yet. |
| Reindexer.Reindexer.WithInterval | src/reindexer.rs:27-30 | Changes the interval and nothing else. |
| Reindexer.Reindexer.ReleaseLocks | src/reindexer.rs:47-48 | The search guard is dropped first, then the wiki guard. |
| Reindexer.Reindexer.LockedCalls | src/reindexer.rs:49-60 | Makes the calls `CycleCalls` lists and returns `CycleResult`. Each `?` ends the body at the first failure. |
| Reindexer.Reindexer.Reindex | src/reindexer.rs:46-61 | Logs `CycleEvents`, which is both locks, the calls and the two releases, and returns `CycleResult`. |
| Reindexer.LocksHeldThroughCycle | src/reindexer.rs:47-49 | Both locks, wiki first, are taken before the revision is read. They are released only at the end, and no lock event happens in between. |
| Reindexer.ClosedGateSkipsReindex | src/reindexer.rs:50-53 | When the gate says no, the cycle is `Ok` and lists no pages, writes no index and counts no pages. |
| Reindexer.ReindexUsesCycleRevision | src/reindexer.rs:49-56 | Pages are reindexed only after the gate said yes to this cycle's revision. They are reindexed with that revision and the listed pages. |
| Reindexer.FailureEndsCycle | src/reindexer.rs:49-58 | A failing step ends the cycle with its error, and no later step runs. The cycle fails exactly when one of its steps does. |
| Reindexer.Reindexer.Turn | src/reindexer.rs:36-42 | One pass of the loop: a cycle, a warning exactly when it failed, then a sleep of the interval. |
| Reindexer.Reindexer.Run | src/reindexer.rs:32-44 | Logs the turns of all the cycles, in order. |
| Reindexer.CycleRunsInTurn | src/reindexer.rs:35-43 | Every cycle runs in its turn, whatever the earlier cycles returned. |
| Reindexer.RunSleepsOncePerCycle | src/reindexer.rs:35-43 | n cycles take the wiki lock n times and sleep n times: `run` never stops on a failed cycle. |

## Left out

- Unicode whitespace. `\s` and chrono's whitespace skipping are modelled by the ASCII whitespace characters only. The source pads with `" ".repeat(m.len())`, and `len` counts UTF-8 bytes. So a run of non-ASCII whitespace gives more spaces than it has characters: two U+3000 characters give six. The model counts characters, which agrees for ASCII only.
- Most of chrono. Only the items the program's formats use are modelled:
  - numbers of the six date-time fields;
  - `%b`, read as the three letters of a month abbreviation;
  - literals and spaces.
- Nanosecond time, time zones, `tantivy::DateTime` precision. Dates become whole Unix seconds.
- tantivy itself:
  - the schema builder;
  - the jieba tokenizer and its filters;
  - query syntax;
  - BM25 scoring;
  - snippet generation.
  The query parser's verdict and the ranked hits are inputs. A score is kept as the raw bits of the `f32`.
- Snippets. `Entry` has no `title_snippet` or `text_snippet`. The snippet generators appear only as their possible failures.
- `Search::new`'s directory handling. `MmapDirectory::open(..).unwrap()` can panic, and the tokenizer is registered. The model's constructor opens an index over documents of pages indexed earlier.
- Search.Search.constructor: cannot fail. The error that `Index::open_or_create(..)?` returns, for example on a corrupt index or a schema mismatch, is not modelled, because opening the directory is I/O the model leaves out.
- Search.Search.Query: requires `count > 0`. tantivy's `TopDocs::with_limit` panics on a limit of 0, and the model does not include that panic.
- The writer's memory budget (128 MB) and tantivy's threading.
- The `sqlx::FromRow` derivation:
  - sqlx's own errors, such as a missing column or a column of the wrong type, are not modelled;
  - PageFromRow: takes the row's columns as values, and its decode error is kept as the failing column's name and the conversion's error, not as sqlx's error value or its message.
- The wiki and the search index as seen by the reindexer: `latest_revision`, `requires_reindex`, `list_pages`, `reindex_pages`, `page_count`.
  - None of these is defined in the core files.
  - What they answer in a cycle is an input.
  - Their calls are recorded in the log.
  - Their effect on the index is not modelled.
  - `Revision` stands for the wiki's revision type, which is not part of this model, and is compared only for equality.
- tokio. `async`, the `Arc<Mutex>`/`Arc<RwLock>` handles, `spawn` in `start`, and real time are left out. Taking and dropping the guards are log events, and `sleep` is a log event carrying the interval in whole seconds.
- Reindexer.Reindexer.Run: models finitely many cycles. `run` loops forever; the model runs the cycles its input lists, and the lemmas state what holds for every such prefix.
- Util.DeserializeDate: starts from the string already read. The deserializer's own failure at `String::deserialize(deserializer)?`, on a value that is not a string, is not modelled.
- Logging (`debug!`, `info!`). The `warn!` of a failed cycle is kept as a log event carrying the error.
- Integer widths. `i64` ids and `i32` namespace codes are range-checked types. Timestamps are unbounded integers. They all fit in an `i64` anyway: title dates and date bounds lie in year windows, and a `page_touched` date is one chrono can hold, with a year from -262144 to 262143.
