# Personal CLI tools: CSV reconciliation, Jira and Trello search, bank CSV transform

This project is a Dafny model of four command-line tools from a collection of small Python
utilities. Each tool is modelled with its file, network and terminal I/O turned into
parameters.

- **`csvimport.py` (module `CsvImport`)** merges CSV exports into a reporting sheet. It does
  this in three steps:
  - It resolves the input and output column formats. A format comes from the command line,
    else from the organization's section of the configuration. The Google Sheets settings
    come from the command line, then the configuration, then the environment.
  - It projects every row onto the output format. A missing column becomes `""`, and the
    spreadsheet rows get the organization's literal extra columns appended.
  - It removes the rows whose key tuple already occurs among the existing entries, keeping
    the order of the rest.
  
  The end of `main` is modelled as well: its exit statuses (2 for a missing format, 3 for a
  spreadsheet that cannot be fetched), the exceptions it lets escape, and where the rows end
  up.
- **`jira.py` (module `Jira`)** builds a JQL query from project, reporter and summary. It pages
  through the search endpoint (`startAt` advances by the number of issues fetched; the loop
  stops on an empty page or once the first reported total is reached), writes one line per
  issue, and maps failures to exit statuses.
- **`trello.py` (module `Trello`)** builds a query map and filters the board's cards on the
  client side by list, member and a case-insensitive name substring with `*` removed. It
  writes one line per card.
- **`RedactTokenFilter` (module `Redaction`)** is the logging filter that both search tools
  attach. It replaces every occurrence of the access token in a formatted log message by
  `[REDACTED]`.
- **`csvtransform.py` (module `CsvTransform`)** rewrites a bank statement. It splits the single
  `Amount` column into `Debit` and `Credit` according to the `Credit Debit Indicator` column.

The support modules model what the Python code relies on:
- `Strings`: truthiness, `strip`, `split(",")`, `join`, `in`, `replace`, `lower`.
- `Sequences`: a stable filter and subsequences.
- `TextIO`: a write-only text stream and newline-terminated line output.
- `Wrappers`: `Option` and `Result`.

Some behaviour of the code as written is preserved deliberately:

- **`remove_duplicates` with empty key columns.** With an empty key-column list and at least
  one existing entry, every row gets the empty key tuple `()`. That key is the key of every
  existing entry, so every row is removed (`CsvImport.DedupEmptyKeyColumns`). The documented
  "no keys, no deduplication" behaviour comes only from the callers' guards at
  csvimport.py:146 and csvimport.py:261, modelled separately as `CsvImport.DedupGuard`.
- **The summary quote "escape" in `build_jql`.** It is the identity, because in Python `'\"'`
  is the one-character string `"`. A quote in the summary therefore reaches the query
  unescaped (`Jira.BuildJqlQuoteExample`).
- **Carried amounts in `transform_csv`.** An indicator other than exactly `Debit` or `Credit`
  keeps the `debit` and `credit` values of the last row that assigned them. On the first row
  this raises `UnboundLocalError`, because the locals were never assigned. The model carries
  the amounts as an `Option` (None while unbound).

Where the documentation of these tools and the code disagree, the model follows the code.

## Model

| member | source | states |
|---|---|---|
| CsvImport.CommaList | csvimport.py:61 | the comma branch yields at least one column; every column is stripped and holds no comma; the columns are exactly the stripped pieces that the string is made of between commas |
| CsvImport.CommaListJoin | csvimport.py:61 | stripped, comma-free column names written comma-separated parse back to the same list |
| CsvImport.ParseFormat | csvimport.py:55-61 | "no format" exactly for a missing or empty string; a string starting with '[' gives the YAML loader's list as it is, or the loader's error; any other string gives its comma list |
| CsvImport.ParseFormatCommaExample | tests/test_csvimport.py:9-11 | "A,B,C" gives ["A", "B", "C"] |
| CsvImport.ParseFormatEmptyExample | tests/test_edge_cases.py:4-5 | "" and None give no format |
| CsvImport.GetFormat | csvimport.py:47-52 | a non-empty CLI format is returned unchanged; otherwise the found format is the named organization's non-empty entry, and a format is found exactly when that entry exists and is non-empty; the result is never an empty list |
| CsvImport.GetParam | csvimport.py:199-204 | a non-empty CLI value wins; otherwise a key present in the config dictionary wins even when its value is null; otherwise the environment variable, None when unset |
| CsvImport.SheetId | csvimport.py:211-212 | `--existing-sheet-id`, else the `google` section's `sheet_id` (even a null one), else `GOOGLE_SHEET_ID`, None when unset |
| CsvImport.OrgConfigOf | csvimport.py:214 | the named organization's section when it is named and listed, otherwise a section with no settings at all |
| CsvImport.SheetName | csvimport.py:213-215 | `--sheet-name`, else the organization's non-empty `sheet_name`, else the `get_param` lookup of `--existing-sheet-name`, `google.sheet_name` and `GOOGLE_SHEET_NAME` |
| CsvImport.CredsPath | csvimport.py:216 | `--google-creds`, else the `google` section's `creds` (even a null one), else `GOOGLE_CREDS`, None when unset |
| CsvImport.KeyColumns | csvimport.py:227-232 | a non-empty `--key-columns` gives its stripped comma list; otherwise the stripped `key_fields` exactly when the organization lists some; never an empty list |
| CsvImport.Project | csvimport.py:143 | the projected row has exactly the format's columns, each holding the row's value or `""` |
| CsvImport.ProjectIdempotent | csvimport.py:143 | projecting twice onto the same format is projecting once |
| CsvImport.ProjectThrough | csvimport.py:273-280 | projecting through a format that covers all of the row's columns and then onto the output format equals projecting directly |
| CsvImport.Projected | csvimport.py:141-144 | one projected row per row, in order |
| CsvImport.RowValues | csvimport.py:298 | the row's values (or `""`) in format order, one per column |
| CsvImport.RemoteRow | csvimport.py:298-299 | a spreadsheet row is the format's values followed by the extra columns; its length is their sum |
| CsvImport.RemoteRowOfProjection | csvimport.py:143 | building the spreadsheet row from the projected row gives the same row |
| CsvImport.RemoteRows | csvimport.py:296-300 | one spreadsheet row per deduplicated row, in order |
| CsvImport.RowsToInsert | csvimport.py:296-300 | the loop produces exactly `RemoteRows`, every row as wide as the format plus the extra columns |
| CsvImport.KeySet | csvimport.py:74-77 | a key is in the set exactly when some existing entry has it |
| CsvImport.RemoveDuplicates | csvimport.py:64-86 | the two loops return `Deduplicated`: the input rows, in order, whose key no existing entry has |
| CsvImport.DedupKeepsExactlyNewRows | csvimport.py:78-82 | a row is in the result exactly when it is an input row whose key is not among the existing keys |
| CsvImport.DedupPreservesOrder | csvimport.py:78-82 | the result is a subsequence of the input |
| CsvImport.DedupWithoutExisting | tests/test_edge_cases.py:11-19 | with no existing entries the result is the input |
| CsvImport.DedupAllKnown | tests/test_edge_cases.py:21-29 | when every row's key is known the result is empty |
| CsvImport.DedupIdempotent | csvimport.py:74-82 | deduplicating the result again against the same entries changes nothing |
| CsvImport.DedupRemovedCount | csvimport.py:85 | the logged count `len(rows) - len(result)` is the number of rows whose key is known |
| CsvImport.DedupEmptyKeyColumns | csvimport.py:76-81 | with no key columns and at least one existing entry, every row is removed |
| CsvImport.DedupBasicExample | tests/test_csvimport.py:19-31 | of rows with keys (1,x), (2,y), (1,x) against an entry (1,x), only (2,y) remains |
| CsvImport.DedupAllDuplicatesExample | tests/test_edge_cases.py:21-29 | two rows with A=1 against an entry with A=1 leave nothing |
| CsvImport.DedupGuard | csvimport.py:261-264 | duplicates are removed (the `Deduplicated` rows) exactly when both the existing entries and the key columns are present and non-empty; otherwise every row passes; the result is always a subsequence of the input. The same guard is at csvimport.py:146 |
| CsvImport.TransformCsv | csvimport.py:138-148 | the result is the rows projected onto the output format, deduplicated through the guard when a logger is given |
| CsvImport.ThroughTempFile | csvimport.py:273-280 | the temporary file refuses a row holding a column outside the input format; otherwise it gives the rows projected onto the input format |
| CsvImport.TempFileTransparent | csvimport.py:273-280 | when the temporary file accepts the rows, projecting its rows onto the output format equals projecting the original rows |
| CsvImport.Reconcile | csvimport.py:255-280 | the transform-and-deduplicate step fails only with the temporary file's refusal |
| CsvImport.ReconcileResult | csvimport.py:255-280 | with equal formats, the result is the guarded deduplication of the merged rows; with different formats and an accepting temporary file, the guarded deduplication of the merged rows projected straight onto the output format; with a refusing temporary file, the refusal. Hence a subsequence of the merged rows or of their projection, rows with exactly the output columns when the formats differ, and the whole projection without both existing entries and key columns |
| CsvImport.ExistingEntries | csvimport.py:234-252 | no existing entries without key columns; `--existing-csv` is read when given; otherwise the fetched spreadsheet rows when id, worksheet and credentials are all set, the fetch failure (exit 3) exactly when that fetch fails, and no entries when a spreadsheet setting is missing |
| CsvImport.ReadInputs | csvimport.py:257-260 | on success, one row list per path, each that file's rows; a failure names a listed path that does not exist |
| CsvImport.Emit | csvimport.py:283-321 | with id, worksheet and credentials set, the spreadsheet sink receives exactly `RemoteRows` of the deduplicated rows (one per row, as wide as the format plus the extra columns); else, with `--output` set, the CSV is written when every row's columns are in the output format, with the output format as header and each row's values, and it raises exactly when some row has another column; else nothing is written |
| CsvImport.RunWithFormats | csvimport.py:225-321 | once the formats are known, the only exit status is 3, exactly when the existing entries' spreadsheet cannot be fetched; escaping exceptions are a missing file or an unexpected column; it completes only when the reconciled rows exist, and whenever they do the output step receives exactly them |
| CsvImport.RunWithParsed | csvimport.py:195-321 | exit status 2 exactly when the input or the output format resolves to nothing; with both resolved, exit 3 exactly when the spreadsheet of existing entries cannot be fetched; it completes only with both formats resolved and the rows reconciled, and then the output step receives the reconciled rows in the resolved output format |
| CsvImport.Run | csvimport.py:170-322 | exit 2 exactly when both format strings parse but a format is missing; with both formats resolved, exit 3 exactly when the spreadsheet of existing entries cannot be fetched, which needs key columns and no `--existing-csv`; no other exit status; a format parse error only from an unparsable string; inserted rows as wide as the output format plus the extra columns; a completed run is the output step applied to the rows reconciled under the resolved formats, and such rows always complete the run |
| Redaction.Redact | jira.py:53-56 | a message without the token, or with an empty token, is returned unchanged; otherwise the result contains the marker |
| Redaction.RedactKeepsSurroundings | jira.py:53-56 | with a non-empty token the message is its token-free pieces joined by the token, cut leftmost (the token starts nowhere inside the first piece, occurs right after it, and the rest is the split of what follows), and the redacted text is the same pieces joined by `[REDACTED]`: all text around the token is kept, in order |
| Redaction.RedactOverlappingToken | jira.py:56 | overlapping occurrences are cut leftmost: "aaa" with token "aa" becomes `[REDACTED]a`, not `a[REDACTED]` |
| Redaction.RedactRemovesToken | jira.py:56 | after redaction the token no longer occurs, for a token without brackets that is not part of the marker |
| Redaction.RedactIdempotent | jira.py:53-57 | redacting a redacted message changes nothing more |
| Redaction.RedactExample | trello.py:43-44 | a token occurring twice in a message is gone afterwards |
| Redaction.RedactTokenFilter.Filter | jira.py:46-58 | the record is always emitted; with a non-empty token and a formattable message containing it, the message becomes the redacted text and the arguments are cleared; otherwise the record is untouched |
| Jira.EscapeSummary | jira.py:121 | the escape returns the summary unchanged |
| Jira.BuildJql | jira.py:114-126 | the query is empty exactly when no criterion is given; it starts with the project clause (or the reporter clause when there is no project) and ends with the summary clause holding the summary verbatim (or the reporter clause when there is no summary) |
| Jira.BuildJqlAllCriteria | jira.py:115-126 | with all three criteria the query is the three clauses in order joined by " AND " |
| Jira.BuildJqlProjectOnly | jira.py:115-126 | only a project gives exactly its clause |
| Jira.BuildJqlReporterOnly | jira.py:115-126 | only a reporter gives exactly its clause |
| Jira.BuildJqlSummaryOnly | jira.py:115-126 | only a summary gives exactly its clause |
| Jira.BuildJqlProjectReporter | jira.py:115-126 | project and reporter give the project clause, " AND ", the reporter clause |
| Jira.BuildJqlProjectSummary | jira.py:115-126 | project and summary give the project clause, " AND ", the summary clause |
| Jira.BuildJqlReporterSummary | jira.py:115-126 | reporter and summary give the reporter clause, " AND ", the summary clause |
| Jira.BuildJqlQuoteExample | jira.py:121-123 | a summary holding a double quote is placed in the clause unescaped |
| Jira.SearchJira | jira.py:131-194 | the `while True` loop returns exactly what `SearchSpec` describes |
| Jira.PaginateCharacterized | jira.py:150-191 | request j is sent at the offset equal to the issues fetched before it; a successful result is all fetched pages' issues in order, ending at the first empty page or once the collected count reaches the first reported total; a failure is the first HTTP error |
| Jira.PaginateOffsets | jira.py:150-191 | from request k on, request j is sent at the offset equal to the issues fetched before it, and no page before the last request meets the stop condition |
| Jira.PaginateOutcome | jira.py:150-191 | from request k on, a success returns exactly the issues up to the page it stopped after; a failure is the last response's HTTP error or the responses running out |
| Jira.SearchCharacterized | jira.py:150-194 | the same facts for the whole search, starting at offset 0 |
| Jira.EmptyJqlSendsNothing | jira.py:137-138 | an empty query fails before any request |
| Jira.PaginateExample | jira.py:176-191 | pages of two and one issues with total 3 give two requests, at offsets 0 and 2, and three issues |
| Jira.IssueLines | jira.py:201-204 | one line per issue, in order, `key — summary` |
| Jira.WriteTextLines | jira.py:199-204 | the stream's text becomes the old text followed by one newline-terminated line per issue |
| Jira.IssueOutputLines | jira.py:201-204 | when no key or summary holds a newline, cutting the output at newlines gives back the issue lines |
| Jira.MainJql | jira.py:252-256 | the query is empty (so no search is made) exactly when there is no project from the flag or the configuration, no reporter and no summary; a given `--project` is the first clause |
| Jira.DefaultProjectFallback | jira.py:252 | without `--project` the configured default project is the first clause |
| Jira.Run | jira.py:235-298 | status 2 exactly for an unreadable configuration, a missing url or token, or an empty query; with all of those present, status 0 with the lines of the found issues exactly when the search succeeds, status 3 exactly when a request raises (an HTTP error status, or a timeout, connection error or non-JSON body, all modelled as `HttpError`), and the exhausted-responses outcome exactly when the responses run out; no other status |
| Trello.BuildQuery | trello.py:82-92 | each key is present exactly when its argument is non-empty, and then holds it; there are no other keys |
| Trello.NamePattern | trello.py:121 | the pattern keeps no `*` and no upper-case ASCII letter; a pattern of stars only becomes empty; a pattern without stars is only lower-cased |
| Trello.SearchTrello | trello.py:94-125 | the filter loop with `continue` returns exactly `SearchSpec`: a missing board fails, an HTTP error fails, otherwise the filtered cards |
| Trello.SearchKeepsMatching | trello.py:115-124 | the result is a subsequence of the fetched cards, and a card is in it exactly when it passes the list, member and name checks |
| Trello.NoFiltersKeepsAll | trello.py:115-124 | with no list, member or name criterion every card is returned |
| Trello.StarsOnlyMatchesAll | trello.py:121-122 | a name pattern made only of `*` matches every card |
| Trello.NameMatchExample | trello.py:121-122 | "*De*" matches the card named "Deploy" |
| Trello.CardLines | trello.py:128-129 | one line per card, in order, `id — name` |
| Trello.WriteTextLines | trello.py:127-129 | the stream's text becomes the old text followed by one newline-terminated line per card |
| Trello.CardOutputLines | trello.py:127-129 | when no id or name holds a newline, cutting the output at newlines gives back the card lines |
| Trello.MainQuery | trello.py:168-172 | a board is queried exactly when `--board` or the configured default board is non-empty, and the flag wins over the configuration |
| Trello.Run | trello.py:155-207 | status 2 exactly for an unreadable configuration, a missing key or token, or no board; status 3 exactly for a request that raises (an HTTP error status, a timeout, a connection error or a non-JSON body, all modelled as `HttpError`); status 0 writes the lines of the matching cards; no other status |
| CsvTransform.Cells | csvtransform.py:85-94 | every written row has one cell per header column |
| CsvTransform.StepAmounts | csvtransform.py:74-81 | the indicator step fails exactly for a missing indicator column or a Debit/Credit row without `Amount`, naming that column; Debit puts the amount in debit only, Credit in credit only, any other indicator carries the previous amounts |
| CsvTransform.BuildRow | csvtransform.py:85-92 | the output row is built exactly when the amounts are bound and the four copied columns exist; its cells are date, serial number, description, debit, credit, category; a failure is the first missing column in reading order, or the unbound `debit` read before `Category` |
| CsvTransform.Step | csvtransform.py:74-92 | one loop pass is the indicator step followed by building the row, failing with the first failure; the amounts carried on are exactly the ones written |
| CsvTransform.TransformCsv | csvtransform.py:18-97 | the loop writes the header and then the rows `Transform` describes, and reports the exception that ended it; the header is always the first row, and a first row with another indicator leaves only the header and raises UnboundLocalError |
| CsvTransform.TransformFromCharacterized | csvtransform.py:71-94 | from any row on, with the amounts of the last assigning row carried in, each written row is the expected row for its input row; output stops exactly at the first row that raises |
| CsvTransform.TransformCharacterized | csvtransform.py:71-94 | output row j is input row j with the amounts of the last row up to j whose indicator is exactly Debit or Credit; without an exception every input row is written |
| CsvTransform.OneRowPerRow | csvtransform.py:71-94 | without an exception there is exactly one output row per input row |
| CsvTransform.DebitCreditSplit | csvtransform.py:74-92 | a Debit row puts its amount in Debit and leaves Credit empty; a Credit row the reverse; date, serial number, description and category are copied unchanged |
| CsvTransform.OtherIndicatorRepeatsAmounts | csvtransform.py:74-81 | any other indicator, including another case of Debit, repeats the previous output row's amounts and never occurs on the first written row |
| CsvTransform.FirstRowOtherIndicatorRaises | csvtransform.py:74-89 | a first row with any other indicator raises UnboundLocalError before anything is written |
| Strings.Split | csvimport.py:61 | `split` gives at least one piece, none holding the separator, and joining the pieces by the separator gives back the string |
| Strings.SplitJoin | csvimport.py:61 | splitting a join of separator-free pieces gives the pieces back |
| Strings.Strip | csvimport.py:61 | the stripped text has no leading or trailing whitespace and is a slice of the original |
| Strings.SplitOnPieces | jira.py:56 | no piece of `s.split(pat)` contains `pat` |
| Strings.SplitOnFirstLeftmost | jira.py:56 | `s.split(pat)` cuts at the leftmost occurrence: `pat` starts nowhere before the end of the first piece |
| Strings.SplitOnRest | jira.py:56 | with more than one piece, `pat` occurs right after the first piece and the other pieces are the split of the text after it |
| Strings.ReplaceAll | jira.py:56 | `s.replace(pat, rep)` is `rep.join(s.split(pat))`: the text between the leftmost non-overlapping occurrences is kept, in order, with `rep` in place of each occurrence |
| Strings.ReplaceInserts | jira.py:56 | when the pattern occurs, the replacement occurs in the result |
| Strings.ReplaceRemovesAll | jira.py:56 | after replacing every occurrence, the pattern no longer occurs, provided it cannot be rebuilt across the replacement |
| Strings.RemoveChar | trello.py:121 | removing `*` is joining, in order, the pieces between the stars; it leaves no `*`, keeps every other character and adds none, never lengthens the text, and empties a text made only of `*` |
| Strings.Lower | trello.py:121-122 | lower-casing keeps the length and lower-cases each character |
| TextIO.TextStream.Write | jira.py:204 | writing appends the text to the stream |
| TextIO.LinesSplit | jira.py:201-204 | when no line holds a newline, the written text cut at newlines is the lines followed by an empty piece |

## Left out

- Network calls (`requests.post`, `requests.get`, gspread authorize, open, worksheet, `get_all_records`, `insert_rows` and `sort`) are not modelled. The answers that matter are parameters instead: the Jira responses in request order, the Trello card listing, and the outcome of fetching the existing spreadsheet rows.
- The spreadsheet insertion, the descending sort and the exit status 4 that csvimport.py:283-313 gives when either fails are left out; the model records only the rows that would be inserted.
- CSV parsing and writing (`csv.DictReader`, `csv.DictWriter`, byte-order marks, quoting, short or long lines) are left out. Rows are string maps, and files are maps from path to rows.
- The spreadsheet backup file with its timestamp (csvimport.py:121-134) is left out, because it depends on the clock and only writes a copy.
- `load_config` and the YAML branch of `parse_format` are not modelled. The configuration is an input value, and the loader for a string starting with '[' is an opaque function that may fail.
- Configurations that are not the expected shape are not modelled: a non-string `key_fields` entry (converted with `str`), or a null or empty configuration where `config.get` would fail.
- `read_config` of the Jira and Trello tools is left out; its result or failure is the `config` parameter of `Run`.
- Logging is left out: setup, handlers, log files and every log call. The filter method takes the already %-formatted message (None when formatting raises) instead of calling `record.getMessage()`.
- Only ASCII case folding is modelled; Unicode `str.lower()` is approximated by it.
- `write_json` and the JSON output format are left out; `Run` models text output.
- Opening an output file, and the status 4 for a failed output write, are left out.
- `argparse` is left out; the parsed flags are datatypes.
- `print` to standard output and standard error is left out, except where the printed lines are the tool's result. These are `write_text_lines` and the CSV written by the row loops.
- Environment variables are a map.
- `maxResults`/`page_size` and the request headers do not affect which issues are collected, so they are left out.
- Jira.Response: a request that raises something other than `requests.HTTPError` (a timeout after 30 seconds, a connection error, a body that is not JSON; jira.py:164-172, trello.py:107-113) is not a separate case. `HttpError` stands for it, because `main` turns every exception of the search into status 3 just like an HTTP error (jira.py:264-274, trello.py:178-188); Trello.CardsResponse is modelled the same way.
- The filters assume the server's JSON holds strings (or is absent) where the code expects strings; JSON null values and other types are not modelled.
- Jira.SearchError.OutOfResponses: the finite sequence of responses can run out before the loop stops; the model reports that as a separate outcome that the real server never produces, and `Jira.Run` turns it into `ResponsesExhausted` rather than an exit status.
- Jira.PaginateCharacterized: `total` is modelled as an integer or None; a `total` that `int()` cannot convert is not modelled.
- CsvImport.Emit: when a row has a column outside the output format, `csv.DictWriter` raises after the header and the earlier rows are already in the `--output` file; the model reports only the exception, not that partly written file.
- CsvImport.Emit: an empty list of rows to insert still yields a spreadsheet sink; the model does not distinguish "insert nothing" from "insert no rows".
- CsvImport.Run: when the existing CSV is missing, the model reports the missing path; the real program raises `FileNotFoundError` from `open`.
