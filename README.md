# bib2mp3 core in Dafny

bib2mp3 turns a bibliography file into spoken summaries, one audio file
per entry. Two parts of it are modelled here.

The **chunk packer** (`tokenizer.py`) keeps every piece of text handed to
the speech engine within `MAXCHARS` (100) characters:

- A base punctuation splitter produces tokens.
- Tokens longer than `MAXCHARS` are split on `':'`.
- Pieces that are still too long are split into words, tagged with parts
  of speech and chunked into phrase groups.
- `consolidate` collapses each phrase group into one `(text, tag)` unit.
- `reconstruct` packs the units greedily into chunks.

The **bibliography normaliser** (`bib2mp3.py`, class `BibtexLibrary`) works
on the parsed entries:

- It collects the citation keys and refuses repeated ones.
- It builds one table per field, keyed by citation key: author string,
  title, date, publication, keywords, abstract.
- It counts the entries missing a date, a publication, keywords or an
  abstract.
- It composes one description sentence per entry.

Modules:

- `Wrappers` (`wrappers.dfy`): `Option`, `Result`, and `MapAll`. `MapAll`
  is the "first exception wins" traversal that a Python loop shows when one
  of its steps raises.
- `Strings` (`strings.dfy`): Python's `sep.join`, `s.split(sep)` and
  `s.strip()`, with their laws. Examples: split then join is the identity;
  splitting on a character gives one more piece than it has occurrences.
- `Tokenizer` (`tokenizer.dfy`):
  - `consolidate` is an in-place method over an `array<Node>`.
  - `reconstruct` is a `while` loop proved against the greedy partition
    `Segments`/`Pack`.
  - `MyTokenizer` is nested loops proved equal to the function `Tokenize`.
  - The four libraries it calls are an `Externals` value of function
    parameters.
- `Bibtex` (`bibtex.dfy`):
  - Per-entry transforms are pure functions (`FirstLast`, `AuthorOf`,
    `DateOf`, `PublicationOf`, `KeywordList`, `Describe`).
  - The class `BibtexLibrary` has one `map` field per table.
  - Each `_process_bib_*` method is a method that fills its field through
    one shared loop, `Tabulate`.

Where Python raises, the model returns a `Fault`:

- `Tokenizer.Fault`:
  - `IndexError` is an empty phrase group, or an empty chunker output.
  - `NoProgress` is a unit of `MAXCHARS` or more characters, on which
    `reconstruct` loops forever.
- `Bibtex.Fault`:
  - `NotUnique` is the uniqueness assertion.
  - `TooManyCommas` is the two-part author assertion.
  - `MissingField` is a `KeyError`.
  - `MonthWithoutYear` is formatting a month with a `None` year.

### Quirks of the code that the model keeps

- The keyword list never takes its one- and two-keyword branches, because
  they compare the list with an integer. A single keyword is therefore
  read as `"and <keyword>"`.
- `"The abstract reads: "` follows the previous text with no space.
- Without a publication, the title's closing quote gets no period.
- A month without a year is an error.
- A month with a year gives `"month year"`, whatever the year's text is.

### Behaviour of the code that the model states

- A description is exactly `In <date>, ` (when the date is truthy) +
  `<author> published "<title>"` + ` in <pub>.` (when the publication is
  truthy) + ` This publication has the following keywords: <list>.` (when
  the keywords are truthy) + `The abstract reads: <abstract>` (when the
  abstract is truthy). There is no fallback text for a missing field and no
  closing sentence.
- Two missing fields are errors, not notes: an `article` without a
  `journal`, and a `month` without a `year`.
- Packed chunks have at most `MAXCHARS - 1` characters, because the last
  unit's `+1` is counted too. Tokens and pieces that pass through unchanged
  may have exactly `MAXCHARS`.

## Model

| member | source | states |
|---|---|---|
| Tokenizer.Consolidate | tokenizer.py:11-15 | The list keeps its length. Every `(word, tag)` entry is unchanged. Every phrase group becomes the pair of its words joined by single spaces and its last word's tag. |
| Tokenizer.ConsolidateKeepsWords | tokenizer.py:11-15 | Consolidation gives one unit per chunker node. The unit texts joined by spaces equal the chunker's words joined by spaces: nothing is lost or reordered. |
| Tokenizer.TakeIsLongestFit | tokenizer.py:23-24 | The source's N counts the running totals of `len+1` that are within `MAXCHARS`. It is the longest prefix that fits: those units fit, and one more would not. |
| Tokenizer.LongestFitUnique | tokenizer.py:23-24 | Only one prefix length is the longest fitting one, so the greedy step is determined. |
| Tokenizer.TakePositive | tokenizer.py:22-27 | When the first unit is shorter than `MAXCHARS`, a packing step takes at least one unit. This is why the loop makes progress. |
| Tokenizer.LongUnitNeverTaken | tokenizer.py:23-27 | A unit of `MAXCHARS` or more characters is never inside a packed chunk: a step stops before it. |
| Tokenizer.StepKeepsLongUnit | tokenizer.py:22-27 | A step over units that hold a long unit leaves a non-empty rest that still holds it. Once it is first, a step takes nothing and the rest is unchanged: the non-termination. |
| Tokenizer.SegmentsPartition | tokenizer.py:22-27 | `Segments`: the greedy chunks, concatenated, are exactly the units: whole and in order. Each chunk is non-empty and fits. Adding the next chunk's first unit to a chunk would exceed `MAXCHARS`. |
| Tokenizer.ChunkLength | tokenizer.py:24-25 | A chunk's text is exactly one character shorter than its units' cost. |
| Tokenizer.PackBound | tokenizer.py:23-26 | `Pack`: every packed chunk has fewer than `MAXCHARS` characters. |
| Tokenizer.PackJoin | tokenizer.py:22-27 | `Pack`: the packed chunks joined by spaces equal the unit texts joined by spaces. |
| Tokenizer.BodyJoin | tokenizer.py:20-21 | `Body`: dropping a final `"."` unit removes exactly `" ."` (or `"."` when it is the only unit) from the joined text. Otherwise nothing changes. |
| Tokenizer.Reconstruct | tokenizer.py:17-28 | For a non-empty list of short units, the output is the greedy packing of the units, less a final `"."`. Joined by spaces it is their texts joined by spaces. Each chunk is shorter than `MAXCHARS`. |
| Tokenizer.PackPiece | tokenizer.py:74-85 | The method returns `PieceOutput`, the output of one over-long piece after words, tags, chunker, consolidate and reconstruct. That is the packed chunks, `IndexError` for an empty phrase group or an empty chunker output, or `NoProgress` for a long unit. |
| Tokenizer.SplitLongToken | tokenizer.py:67-85 | The method returns `TokenOutput` of an over-long token: the outputs of its `':'`-pieces in order, with short pieces verbatim. The first failing piece's fault is the result. |
| Tokenizer.MyTokenizer | tokenizer.py:58-90 | The loop over base tokens returns `Tokenize`: short tokens verbatim, long ones split, outputs in base-token order, the first fault stopping everything. |
| Tokenizer.TokenizeBound | tokenizer.py:62-89 | `Tokenize`: whatever the libraries return, every string of a successful run has at most `MAXCHARS` characters. |
| Tokenizer.TokensOutputAppend | tokenizer.py:62-89 | `Tokenize`: the output for `xs + ys` is the output for `xs` followed by that for `ys`. The first fault is the one reported. |
| Tokenizer.ShortTokenInPlace | tokenizer.py:88-89 | `Tokenize`: a base token of at most `MAXCHARS` characters appears unchanged, between the outputs of the tokens around it. |
| Tokenizer.ShortTokensPassThrough | tokenizer.py:62-89 | `Tokenize`: when every base token is short, the output is exactly the base tokens. |
| Tokenizer.ColonPieces | tokenizer.py:68 | Splitting on `':'` loses only the colons: the pieces rejoined with `':'` give the token, and no piece holds a colon. |
| Tokenizer.ShortPiecesPassThrough | tokenizer.py:68-72 | `TokenOutput`: an over-long token whose pieces are all short is emitted as exactly those pieces, in order, empty pieces included. |
| Tokenizer.ShortPieceInPlace | tokenizer.py:68-72 | `TokenOutput`: within an over-long token, a `':'`-piece of at most `MAXCHARS` characters (an empty one included) is emitted unchanged, between the outputs of the pieces around it, whether or not those are packed. |
| Tokenizer.LongPieceWords | tokenizer.py:74-85 | `PieceOutput`: take a tagger that keeps the words and a chunker that only groups them. An over-long piece's chunks joined by spaces are its words joined by spaces, less a final `"."`. |
| Bibtex.FirstLastCases | bib2mp3.py:44-46 | `FirstLast`: a name without a comma is only stripped. `"Last, First"` becomes `"First Last"` (parts stripped). Two or more commas are `TooManyCommas`, and only they fail. |
| Bibtex.AllFirstLast | bib2mp3.py:42-47 | `FirstLast` over a name list: converting an author list succeeds exactly when no name holds two commas. Otherwise the error is `TooManyCommas`. |
| Bibtex.AuthorListCases | bib2mp3.py:49-56 | `AuthorList`: one name is itself; two are `"A and B"`; three are `"A, B, and C"`; four or more are the first name followed by `" et al"`. The list always starts with the first name. |
| Bibtex.AuthorOfJoin | bib2mp3.py:49-54 | `AuthorOf`: for one, two or three authors, the author string is `"A"`, `"A and B"` or `"A, B, and C"` over the authors' "First Last" forms, in order. |
| Bibtex.AuthorOfCases | bib2mp3.py:37-56 | `AuthorOf`: no `author` field is `MissingField("author")`. Otherwise the names are the field split on `" and "` and stripped (never none). The author string exists exactly when each name has at most one comma. It starts with the first author's "First Last", and is that plus `" et al"` from four authors on. |
| Bibtex.DateOf | bib2mp3.py:67-75 | A month without a year is `MonthWithoutYear`, the only failure. No year gives `None`. Otherwise the date ends with the year: the year alone, or `"month year"`. |
| Bibtex.PublicationOf | bib2mp3.py:86-90 | An `article` takes its `journal`, which must exist. Any other type takes its `booktitle` or `None`. A missing `ENTRYTYPE` or journal is the only failure. |
| Bibtex.DistinctIffSetSize | bib2mp3.py:24-26 | The source's check "as many distinct keys as keys" holds exactly when no key repeats. |
| Bibtex.CountNone | bib2mp3.py:76-78 | The missing count is the number of keys whose value is `None`, at most the table's size. |
| Bibtex.KeywordListShape | bib2mp3.py:139-146 | `KeywordList`: there are one more keyword than commas. The list is the stripped keywords but the last joined by `", "`, then `"and "` and the last keyword, even when it is the only one. |
| Bibtex.SingleKeyword | bib2mp3.py:139-146 | `KeywordList`: a keyword field without a comma is rendered as `"and "` followed by the stripped field. |
| Bibtex.DescribeOpening | bib2mp3.py:129-134 | `Describe`: the description starts with `"In <date>, "` exactly when the date is truthy. Then comes `<author> published "<title>"`. |
| Bibtex.DescribeEnding | bib2mp3.py:133-149 | `Describe`: before the abstract, the description ends in `'.'` when there is a publication or keywords, and otherwise in the title's closing quote (no period). A truthy abstract is appended as `"The abstract reads: "` plus the abstract, with no space before it. |
| Bibtex.DescribePublication | bib2mp3.py:133-136 | `Describe`: the clause `" in <pub>."` is inserted right after the title's closing quote exactly when the publication is truthy. Otherwise the description is the one without a publication. |
| Bibtex.DescribeKeywords | bib2mp3.py:137-147 | `Describe`: the sentence `" This publication has the following keywords: <list>."` is inserted after the publication clause (or the title) and right before the abstract exactly when the keywords are truthy. Otherwise the description is the one without keywords. |
| Bibtex.BibtexLibrary.constructor | bib2mp3.py:18 | The library holds the given parsed entries, with empty keys and tables. |
| Bibtex.BibtexLibrary.Tabulate | bib2mp3.py:62-63 | The loop over keys and entries in order yields, for each key, the value computed from its entry. The first failing entry's fault is the result. |
| Bibtex.BibtexLibrary.ProcessBibAuthors | bib2mp3.py:34-58 | The author table holds each key's author string. Otherwise the fault is the first entry's `MissingField("author")` or `TooManyCommas`. |
| Bibtex.BibtexLibrary.ProcessBibTitles | bib2mp3.py:60-63 | The title table holds each key's title. Otherwise the fault is the first entry's missing `title`. |
| Bibtex.BibtexLibrary.ProcessBibDates | bib2mp3.py:65-82 | The date table holds each key's date. The returned count is its `None` rows, which equals the number of entries without a year. A month without a year is the fault. |
| Bibtex.BibtexLibrary.ProcessBibPubnames | bib2mp3.py:84-97 | The publication table holds each key's publication. The returned count is its `None` rows, which equals the number of non-article entries without a `booktitle`. |
| Bibtex.BibtexLibrary.ProcessBibKeywords | bib2mp3.py:100-110 | The keyword table holds each key's keywords or `None`. The count equals the number of entries without keywords. |
| Bibtex.BibtexLibrary.ProcessBibAbstracts | bib2mp3.py:112-122 | The abstract table holds each key's abstract or `None`. The count equals the number of entries without an abstract. |
| Bibtex.BibtexLibrary.ProcessBibData | bib2mp3.py:23-32 | Keys are collected first, and then every table is built in the source's order. The result is the first fault (missing `ID`, repeated key, then the tables' faults) or the four missing counts per field. |
| Bibtex.BibtexLibrary.ProcessBibTables | bib2mp3.py:27-32 | Once the keys are known, the six tables are built in order. The result is the first fault or the four missing counts. |
| Bibtex.BibtexLibrary.ProcessBibNames | bib2mp3.py:27-28 | Authors, then titles. The fault is the author table's, else the title table's. |
| Bibtex.BibtexLibrary.ProcessBibCounts | bib2mp3.py:29-32 | Dates, publications, keywords, abstracts. The fault is the date table's, else the publication table's. The counts are the numbers of entries missing each field. |
| Bibtex.BibtexLibrary.RowsAreKeys | bib2mp3.py:62-63 | A built table has a row for exactly the citation keys. |
| Bibtex.BibtexLibrary.MissingCount | bib2mp3.py:91-93 | A built table's `None` rows are as many as the entries for which the field's value is absent. |
| Bibtex.BibtexLibrary.ProcessedCoversKeys | bib2mp3.py:128-149 | After processing, every key has a row in every table, so no lookup in `generate_descriptions` fails. |
| Bibtex.BibtexLibrary.GenerateDescriptions | bib2mp3.py:125-151 | There is one description per citation key. Each is the description composed from that key's rows. |
| Strings.SplitJoin | bib2mp3.py:39 | `split` with a non-empty separator loses nothing: joining the pieces with it gives the string back. |
| Strings.SplitChar | bib2mp3.py:44-45 | Splitting on a character gives one more piece than its occurrences, and no piece holds it. |
| Wrappers.MapAllSuccess | bib2mp3.py:36-58 | A loop over the entries completes exactly when every step does. It then holds every step's value, in order. |
| Wrappers.MapAllFailure | bib2mp3.py:36-58 | A loop that raises reports the error of its first failing step, after all earlier steps succeeded. |

## Left out

- File handling in `BibtexLibrary.__init__` is not modelled: opening the
  file, `bibtexparser` with `convert_to_unicode`, the `HOME`/`mp3dir`
  default and `os.makedirs`. The constructor takes the parsed entries.
  The caller then runs `ProcessBibData`, which `__init__` calls itself.
- The `print` diagnostics and the description echo are not modelled. The
  missing counts are returned instead (`Missing`). The `debug` prints of
  `MyTokenizer` are left out too.
- numpy's `cumsum` and `count_nonzero` are not modelled. Plain sequence
  functions (`Cost`, `CountWithin`, `CountNone`) take their place.
- The base splitter, `nltk.word_tokenize`, `nltk.pos_tag` and the
  `RegexpParser` grammar are not modelled. They are libraries outside this
  model. They appear as the opaque functions of `Externals`, and the
  grammar's meaning is not modelled.
- The chunker's output is an NLTK tree in the code. The model gives it as a
  sequence of `Node` values and drops the tree's labels.
- The `__main__` command-line entry is left out.
- Tokenizer.Reconstruct: requires a non-empty list of units, each shorter
  than `MAXCHARS`. On an empty list the source raises `IndexError`; with a
  longer unit it never returns. `MyTokenizer` reports these cases as the
  faults `IndexError` and `NoProgress`, and `StepKeepsLongUnit` shows why
  the loop cannot end.
- Bibtex.BibtexLibrary.ProcessBibAuthors: after a failure the model leaves
  the table empty. Python keeps the rows written before the failing entry.
  The same holds for ProcessBibTitles, ProcessBibDates and
  ProcessBibPubnames. The contracts say nothing about a table after a
  failure.
- Bibtex.BibtexLibrary.ProcessBibTables: together with ProcessBibNames and
  ProcessBibCounts, this only groups the six steps of `_process_bib_data`
  to keep proofs small. The steps still run one after another in the
  source's order.
- Python's exception classes and assertion messages are not modelled. Only
  which fault occurs is kept.
