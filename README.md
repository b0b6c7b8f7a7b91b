# kathekon core in Dafny

A model of two parts of kathekon, a small tool that serves Stoic quotes.

- **The importer** (`json2db`) loads a JSON object of quote records into SQLite. It uses two tables:
  - `quotes(id, text, author)`
  - `interpretations(id, quote_id, interpretation)`
- **The README updater** (`update_readme` with `replace_section`) rewrites the `quote-text`, `quote-author` and `quote-interpretation` sections of a template file. A section sits between `<!--START_SECTION:name-->` and `<!--END_SECTION:name-->` markers.

The model also covers `format_quote`, which formats a quote for the terminal.

The model has four modules:

- `Wrappers` holds `Option`, `Result` and `Outcome`.
- `Sections` models `replace_section`.
  - The source's DOTALL, non-greedy regular expression becomes an explicit left-to-right scanner, `ReplaceDelimited`.
  - At each position, if the start marker begins there and an end marker follows it, the match runs to the *first* such end marker. The match is rewritten as start marker, newline, replacement, newline, end marker, and scanning resumes after the match.
  - Otherwise one character is copied and scanning moves on by one.
  - The lemmas state what the regular expression promises: leftmost matches, non-greedy ends, markers kept, text outside the matches untouched, unchanged content when no section exists, and idempotence.
- `Cli` models `format_quote` and `update_readme`.
  - `format_quote` is a pure function. `ParseQuoteLines` is its inverse.
  - `update_readme` is a method with a loop over the three sections in the source's order.
  - A template document is modelled as a list of pieces: text and sections. When the document's text, old section bodies and quote values hold no `<`, one update fills every quote section and leaves everything else alone.
- `Importer` models `json2db`.
  - The database is a `Store` class. It holds the two tables as sequences, plus the two AUTOINCREMENT counters.
  - `Import` creates the tables, then runs the insert loop (`InsertRecords`, which has an inner loop over interpretations), then commits or rolls back.
  - The functions `QuoteRows` and `InterpretationRows` specify the rows an import appends. The lemmas state row counts, id assignment and referential integrity.

## Model

| member | source | states |
|---|---|---|
| Sections.ReplaceDelimited | kathekon/cli.py:143-145 | the `re.sub` scan itself; no contract of its own: Sections.LeftmostSection, Sections.ReplaceAtSection, Sections.ReplaceCopy, Sections.ReplaceUnchanged and Sections.ReplaceIdempotent specify it |
| Sections.ReplaceSection | kathekon/cli.py:141-145 | `replace_section`; no contract of its own: it is `ReplaceDelimited` on the name's two markers, specified by the lemmas above and by Sections.ReplaceSectionIdempotent |
| Sections.FindFrom | kathekon/cli.py:143 | the index found is the first occurrence of the end marker at or after the search start; `None` only when there is no occurrence there (the non-greedy `.*?`) |
| Sections.ReplaceUnchanged | kathekon/cli.py:141-145 | when no start marker is followed by an end marker, `replace_section` returns the content unchanged |
| Sections.ReplaceCopy | kathekon/cli.py:143-145 | text before the leftmost match is copied verbatim |
| Sections.LeftmostSection | kathekon/cli.py:143-145 | whenever some section exists, there is a leftmost one, and it ends at the first end marker after its start marker |
| Sections.ReplaceAtSection | kathekon/cli.py:143-145 | the leftmost match keeps both markers and gets newline + replacement + newline between them; text before it is preserved; the remaining matches are found after its end marker |
| Sections.ReplaceIdempotent | kathekon/cli.py:143-145 | rewriting twice gives the result of rewriting once, when the replacement holds no end marker |
| Sections.ReplaceSectionIdempotent | kathekon/cli.py:141-145 | `replace_section` with the same arguments twice equals once, when the replacement holds no end marker of that section |
| Sections.MarkerShape | kathekon/cli.py:143 | both markers begin with `<` and hold no other; the name sits at index 18 of the start marker; the end marker has no newline |
| Sections.ReplaceSingleSection | kathekon/cli.py:141-145 | a document that is one section becomes start marker, newline, replacement, newline, end marker, whatever its old body (`<` excepted) |
| Sections.ReplacePlain | kathekon/cli.py:143-145 | text without `<` can hold no marker and is copied unchanged |
| Sections.ReplaceOwnBlock | kathekon/cli.py:143-145 | a section of the searched name is rewritten, and scanning continues after it |
| Sections.ReplaceForeignBlock | kathekon/cli.py:143-145 | a section delimited by other markers is copied unchanged |
| Cli.FormatQuote | kathekon/cli.py:119-126 | three lines when the interpretation is truthy (present and non-empty), otherwise two |
| Cli.FormatQuoteRoundTrip | kathekon/cli.py:119-126 | the lines give back the text, the author and the interpretation as shown (a falsy one dropped) |
| Cli.ParseQuoteLinesInverse | kathekon/cli.py:119-126 | every block of lines that has the `format_quote` shape is the formatting of the quote read from it |
| Cli.ValueFor | kathekon/cli.py:107-111 | the value written into a section is one of the quote's fields; a missing interpretation is written as "" (`quote.interpretation or ""`); no backslash when the quote has none |
| Cli.Replacements | kathekon/cli.py:107-111 | the table has the three sections in the dict's order, text, author, interpretation, each paired with its `ValueFor` value |
| Cli.ReplacementsApplicable | kathekon/cli.py:107-111 | the three section names are literal in the regular expression; the values carry no backslash when the quote has none |
| Cli.UpdateReadme | kathekon/cli.py:99-116 | a missing file raises FileNotFound and nothing is written; otherwise the written content is the three replacements applied in table order, a missing interpretation written as "" |
| Cli.ApplySections | kathekon/cli.py:112-113 | the `for` loop over the table; no contract of its own: Cli.UpdateReadme's loop is proved against it, and Cli.ApplyReplacementsInOrder and Cli.ApplySectionsUnchanged state what it computes |
| Cli.ApplySectionsUnchanged | kathekon/cli.py:112-113 | content holding none of the table's sections is written back unchanged |
| Cli.ApplyReplacementsInOrder | kathekon/cli.py:107-113 | the update is `replace_section` for text, then author, then interpretation, each applied to the previous result |
| Cli.ReplaceText | kathekon/cli.py:141-145 | template text outside every section is copied unchanged |
| Cli.ReplaceOwnSection | kathekon/cli.py:141-145 | a section of the replaced name gets newline, value, newline as its body |
| Cli.ReplaceOtherSection | kathekon/cli.py:141-145 | a section of another quote name is left untouched |
| Cli.ReplaceRendered | kathekon/cli.py:141-145 | on a template document, one `replace_section` call fills exactly the sections of its name |
| Cli.UpdateRendered | kathekon/cli.py:99-116 | on a template document, the update gives every quote section newline, value, newline as its body, whatever the old body; all text outside is unchanged |
| Cli.UpdateRenderedIdempotent | kathekon/cli.py:99-116 | updating a template document twice with the same quote gives the result of updating once |
| Importer.RecordError | json2db.py:40 | a record raises a key error exactly when it lacks `text` or `author`; `text` is looked up first, so a record lacking both raises the `text` error |
| Importer.Interpretations | json2db.py:44 | `content.get('interpretations', [])`; no contract of its own: Importer.InterpretationRows and Importer.InterpretationsOfRecord state the rows it yields |
| Importer.FirstError | json2db.py:36-40 | no error exactly when every record has `text` and `author`; an error is always a missing `text` or `author` |
| Importer.FirstErrorAt | json2db.py:36-40 | the import raises the key error of the first record without `text` or `author`, looking up `text` before `author` |
| Importer.QuoteRows | json2db.py:36-41 | one quote row per record |
| Importer.QuoteRowsShape | json2db.py:36-41 | row k carries record k's text and author, with id `first + k` |
| Importer.InterpretationRows | json2db.py:44-47 | the number of interpretation rows is the total number of interpretation strings (none for a record without the key) |
| Importer.InterpretationRowsShape | json2db.py:41-47 | interpretation ids run on consecutively, and every row refers to one of the quotes of the same import |
| Importer.InterpretationsOfRecord | json2db.py:41-47 | the interpretations stored for record k's quote are exactly record k's strings, in list order |
| Importer.QuoteIdsAppend | json2db.py:14-20 | appending an import keeps quote ids positive, strictly increasing and below the next AUTOINCREMENT value |
| Importer.InterpretationIdsAppend | json2db.py:22-29 | the same for interpretation ids |
| Importer.ReferencesAppend | json2db.py:27 | after an import every interpretation refers to a stored quote |
| Importer.ImportKeepsConsistent | json2db.py:36-47 | an import keeps the tables consistent: fresh increasing ids, every reference resolved |
| Importer.ImportStep | json2db.py:36-47 | one more record extends the tables by that record's quote row and its interpretation rows |
| Importer.Store.constructor | json2db.py:10 | a new database file has no tables, no rows, and both counters at 1 |
| Importer.Store.CreateTables | json2db.py:14-29 | `CREATE TABLE IF NOT EXISTS`: the tables exist afterwards, and existing rows and counters are untouched |
| Importer.Store.InsertQuote | json2db.py:38-41 | appends one quote row with the next id and returns that id (`lastrowid`) |
| Importer.Store.InsertInterpretation | json2db.py:45-47 | appends one interpretation row with the next id, referring to the given quote |
| Importer.Store.InsertInterpretations | json2db.py:44-47 | appends one row per string, in list order, with consecutive ids |
| Importer.Store.InsertRecords | json2db.py:36-47 | inserts every record's quote and interpretations in order; on a key error it stops at the first record without `text` or `author`, with exactly the rows of the records before it inserted (uncommitted) |
| Importer.Store.Import | json2db.py:14-50 | on success the rows of `QuoteRows` and `InterpretationRows` are appended and committed; on a key error the tables exist but the rows and counters are as before; the store stays consistent |
| Importer.ImportTwice | json2db.py:36-50 | a second import of the same records appends their quote rows and their interpretation rows again, with new ids (no de-duplication) |
| Importer.ImportExample | json2db.py:36-47 | importing the one-record example into a new database gives quote 1 and one interpretation referring to it |

## Left out

- The command-line entry point and its handlers (kathekon/cli.py:16-96) are not modelled. They parse arguments and print.
- `print_centered_block` (kathekon/cli.py:129-138) is not modelled. It depends on the terminal width and on text wrapping.
- The `Quotes` repository class and the generative interpretation service are not part of this model.
- File and JSON I/O become parameters:
  - `UpdateReadme` receives whether the file exists and its content, and returns what it would write. The content is the decoded string: `read_text` decodes with the locale encoding and turns `\r\n` and `\r` into `\n`, and `write_text` writes each `\n` as the platform's line separator. So "text outside is unchanged" (Cli.UpdateRendered) holds for the string, not for the bytes on disk; a file with `\r\n` line endings has them rewritten on a platform whose separator is `\n`.
  - `Import` receives the records already parsed.
  - JSON `null` values, non-string fields and a non-list `interpretations` value are not modelled. A `Record` field is either present with a value of the expected type, or absent.
- SQLite is reduced to two tables and their AUTOINCREMENT counters:
  - The indexes (json2db.py:32-33) are not modelled. They do not change table contents.
  - Opening and closing the connection is not modelled.
  - `NOT NULL` is reflected only by the row fields being strings. A present but `null` `text` or `author`, which makes the insert fail with an integrity error, is not modelled (see the JSON line above).
  - The foreign key (json2db.py:27) is not enforced by an insert; it is stated as the `ReferencesResolve` part of the `Consistent` invariant, which every import keeps.
  - The id counters are unbounded integers: SQLite's 64-bit rowid ceiling, where AUTOINCREMENT fails with a full-database error, is not modelled.
- Importer.Store.Import: the transaction is modelled by restoring a snapshot of the rows and counters on a key error. The tables created before the loop stay, because they are outside the transaction.
- Sections.ReplaceSection: the section name must consist of letters, digits, `-` and `_`, and the replacement must hold no backslash. The source splices both into a regular expression and its template. The model does not cover regex metacharacters in the name, or template escapes (`\1`, `\g<…>`, `\n`, invalid escapes) in the replacement.
- Cli.UpdateReadme: requires a quote without backslashes, for the same reason.
- Cli.UpdateRendered: assumes that the template's text, old section bodies and quote values hold no `<`, and that its sections are quote sections. A template holding other HTML (any `<`) is outside this lemma; the general behaviour on arbitrary content is stated by Sections.ReplaceCopy, Sections.ReplaceAtSection, Sections.ReplaceUnchanged and Sections.ReplaceIdempotent.
- Cli.UpdateRenderedIdempotent: the same `<`-free, quote-sections-only restriction as Cli.UpdateRendered.
- Cli.ReplaceRendered: the same restriction, for one `replace_section` call.
- Cli.ReplacePiece: the same restriction, for one piece.
- Cli.ReplaceText: covers only text without `<`.
- Cli.ReplaceOwnSection: covers only an old body without `<`.
- Cli.ReplaceOtherSection: covers only an old body without `<`, and only names whose seventh characters differ (true of the three quote sections).
- Sections.ReplaceOwnBlock: covers only an old body without `<`.
- Sections.ReplaceForeignBlock: covers only a body without `<`, between markers that hold no other `<` and differ from the searched ones at a fixed index.
- The printing done by `update_readme` and `json2db` is not modelled.
