# Books MCP server: a verified model

The repository is a Model Context Protocol server that serves a books catalogue
and a currency converter as tools, behind a login. Its core is modelled here:

- **Session tools** (`mcp_server/server.py`, `handle_call_tool`):
  - `authenticate` creates a session and a signed token, and makes it the current session.
  - `logout` deletes the current session.
  - `session_status` reports the current session's age and time left.
- **The gate.** Two tools, `books_query` and `exchange_convert`, run only when a
  session is current and at most one hour old. An older session is deleted when
  the gate sees it.
- **The token codec** (`create_jwt_token`, `validate_jwt_token`): HS256 tokens of
  the form `header.payload.signature`, valid for one hour.
- **The books repository** (`mcp_server/books.py`):
  - it loads the catalogue once, strips keys and values, and numbers the rows
    `id` = 1, 2, … when there is no id column;
  - it finds a book by id;
  - it filters by genre, year, author and title, then applies Python-style
    `offset` and `limit` slicing.
- **The currency converter** (`mcp_server/exchange.py`): converts through the
  base currency with the default rate table.
- **The spreadsheet reader** (`mcp_server/util/xlsx_to_csv.py`):
  - it finds the first sheet's path and reads the shared strings;
  - it turns each row's cells into a list of values placed by column letter,
    with the trailing blanks dropped.

Modules (one file each):

- `Wrappers`: `Option` and `Result`.
- `PyStr`: the Python `str` behaviour the code relies on: `strip`, `lower`,
  `upper`, `in`, `split`, `join`, `str(n)` and `int(s)`.
- `Token`: the token codec.
- `Books`: the repository.
- `Exchange`: the converter.
- `XlsxToCsv`: the spreadsheet reader.
- `Server`: the tool dispatcher, in two forms.
  - `Server.Call` is a pure transition function over the two module globals
    (the session store and the current-session id).
  - The class `Server.McpServer` holds those globals as fields. Its method
    `HandleCallTool` is proved to make exactly the transition `Call` describes.

Everything outside the program is a parameter:

- the clock and Python's salted `hash()` (`Server.Env`);
- the parsed CSV file (`Option<seq<seq<Field>>>`, where `None` means the file is missing);
- the parsed XML parts;
- base64, HMAC-SHA256 and JSON, which are function-valued fields of
  `Token.Primitives`. The predicate `Token.Lawful` states the base64 laws the
  round-trip lemmas need: decoding the re-padded encoding gives the bytes
  back, and encodings contain no `.`. The JSON law is required only of the
  value a lemma is about (`Token.JsonRoundTrips`: `loads` reads back what
  `dumps` wrote). No law is needed of HMAC. `Token.LawfulSatisfiable` shows a
  codec that meets both for any given value.

## Model

| member | source | states |
|---|---|---|
| PyStr.Strip | mcp_server/books.py:20 | the result has no whitespace at either end, and a string without whitespace at its ends is returned unchanged |
| PyStr.StripDropsOnlySpace | mcp_server/books.py:20 | the strip is a slice of the string, and everything cut off on either side is whitespace |
| PyStr.RStripChar | mcp_server/server.py:195-196 | drops exactly the trailing run of the given character: the result is a prefix, it does not end in the character, and everything dropped is that character |
| PyStr.Repeat | mcp_server/server.py:256 | `c * n` has length n, and every character is c |
| PyStr.LowerMeaning | mcp_server/books.py:88 | `lower()` leaves no capital letter, keeps every other character, maps each capital to its small letter, and is idempotent |
| PyStr.UpperMeaning | mcp_server/exchange.py:11-12 | `upper()` leaves no small letter, keeps every other character, maps each small letter to its capital, and is idempotent |
| PyStr.ContainsAt | mcp_server/books.py:65 | `sub in s` holds exactly when `sub` is the slice of `s` at some position |
| PyStr.Split | mcp_server/server.py:238 | `split` yields at least one piece, and no piece contains the separator |
| PyStr.SplitCount | mcp_server/server.py:238-240 | the number of pieces is the number of separators plus one |
| PyStr.JoinSplit | mcp_server/server.py:238 | joining the pieces with the separator gives back the string |
| PyStr.SplitJoin | mcp_server/server.py:204 | splitting a join of separator-free pieces gives back the pieces |
| PyStr.NatToString | mcp_server/books.py:26 | `str(n)` is a non-empty string of digits, longer than one digit exactly when n >= 10 |
| PyStr.ParseNatToString | mcp_server/util/xlsx_to_csv.py:105 | `int(str(n)) == n` |
| PyStr.ParseNegatedNatToString | mcp_server/util/xlsx_to_csv.py:105 | `int("-" + str(n)) == -n` |
| PyStr.NatToStringInjective | mcp_server/books.py:24-26 | distinct numbers have distinct decimal strings |
| PyStr.StripNatToString | mcp_server/books.py:46 | stripping `str(n)` changes nothing |
| Token.Pad | mcp_server/server.py:256 | the padding appends between 1 and 4 `=` characters and keeps the segment as a prefix |
| Token.Validate | mcp_server/server.py:207-267 | a token that does not split into three parts is rejected; an accepted token's signature equals the HMAC recomputed over its first two parts; an accepted payload has a numeric `exp` no earlier than now |
| Token.Segments | mcp_server/server.py:204 | a token assembled from three dot-free segments splits back into exactly those segments |
| Token.ValidateAssembled | mcp_server/server.py:236-263 | with a codec that meets the base64 laws and round-trips the payload through JSON, a token the server signed is accepted exactly when its payload is an object whose `exp` is a number not earlier than now; it then yields that payload |
| Token.CreateThenValidate | mcp_server/server.py:154-204 | with a codec that meets the base64 laws and round-trips the claims, a created token validates to its claims exactly when now is at most issue time + 3600, and is rejected after that |
| Token.ValidatedClaims | mcp_server/server.py:187-192 | a fresh token's claims are exactly `user_id`, `username`, `exp` = issue time + 3600 and `iat` = issue time |
| Token.ForgedSignatureRejected | mcp_server/server.py:245-252 | a three-part token whose signature is not the HMAC of its first two parts is rejected |
| Token.AcceptedHasTwoDots | mcp_server/server.py:238-240 | every accepted token contains exactly two dots |
| Token.LawfulSatisfiable | mcp_server/server.py:256-259 | for every JSON value there is a codec that meets the base64 laws and reads that value back, so the round-trip hypotheses can all hold at once |
| Token.MissingExpiryIsZero | mcp_server/server.py:260-261 | a signed payload without `exp` counts as expiring at time 0 |
| Books.GetPut | mcp_server/books.py:26 | after `r[key] = value`, `r.get(key)` is that value and every other key reads as before |
| Books.KeysPutPresent | mcp_server/books.py:20 | assigning a key the row already has keeps the keys in their order |
| Books.KeysPutNew | mcp_server/books.py:26 | assigning a new key appends it to the end of the row's keys |
| Books.CleanRows | mcp_server/books.py:19-20 | one cleaned row per CSV record, in order |
| Books.WithIdsReads | mcp_server/books.py:24-26 | row i (counted from 0) reads `str(i + 1)` under `id`, reads every other key as before, and gains `id` as its last key when it had none |
| Books.Load | mcp_server/books.py:11-27 | loading keeps one row per record |
| Books.LoadSynthesises | mcp_server/books.py:21-27 | without an `id`/`book_id` header, the loaded rows are the cleaned rows numbered from 1 |
| Books.FirstLowerInMeaning | mcp_server/books.py:87-89 | returns the first header whose lower-case form is among the names; every earlier header is not |
| Books.FindCol | mcp_server/books.py:85-101 | the loop returns the column `ColumnFor` selects: the first exact case-insensitive match, else the first alias, else the target itself |
| Books.EqCiEquivalence | mcp_server/books.py:104-105 | `_eq_ci` is reflexive, symmetric and transitive |
| Books.ClampIndex | mcp_server/books.py:78-81 | a Python slice bound, including a negative one, lands within 0..n |
| Books.SelectedMembers | mcp_server/books.py:60-77 | a row is kept by the comprehension exactly when it is in the data and matches every given criterion |
| Books.SelectedAppend | mcp_server/books.py:77 | the comprehension distributes over concatenation, so order is kept |
| Books.SelectedAll | mcp_server/books.py:60-75 | with no criterion, every row matches |
| Books.QuerySound | mcp_server/books.py:50-82 | every row `filter` returns is a loaded row matching every given criterion |
| Books.QueryWindow | mcp_server/books.py:77-82 | `filter` returns a contiguous run of the matching rows, in order; with a non-negative limit it holds `limit` rows or all that remain after the offset, whichever is fewer; a negative limit drops that many rows from the end; with no limit it runs to the last match |
| Books.QueryNoArguments | mcp_server/books.py:50-82 | `filter()` with no arguments returns all the rows |
| Books.FirstIndexMeaning | mcp_server/books.py:45-47 | the search stops at a cell equal to the wanted id, or past the end when there is none; no earlier cell equals it |
| Books.FirstIndexAt | mcp_server/books.py:45-47 | a matching cell with no earlier match is where the search stops |
| Books.FirstMatchRow | mcp_server/books.py:45-48 | the row where the search stops is none exactly when no cell matches, and otherwise the row of the first match |
| Books.FindByIdMeaning | mcp_server/books.py:40-48 | with the key column found, `get_by_id` returns None exactly when no row's stripped key cell equals the stripped id, and otherwise the first row whose cell does |
| Books.FindByIdEmpty | mcp_server/books.py:43 | on an empty catalogue `get_by_id` fails with IndexError, since there is no first header |
| Books.SynthesisedKeyColumn | mcp_server/books.py:22-26 | after id synthesis, `get_by_id` keys on the `id` column |
| Books.SynthesisedIdCell | mcp_server/books.py:24-26 | after synthesis, row j's stripped `id` cell is `str(j + 1)` |
| Books.IdStringsEqual | mcp_server/books.py:26 | two decimal strings are equal exactly when the numbers are |
| Books.SynthesisedIdsDistinct | mcp_server/books.py:24-26 | after synthesis, row j's stripped `id` cell is `str(i + 1)` exactly when j == i |
| Books.SynthesisedIdFound | mcp_server/books.py:22-27 | on a catalogue without an id column, looking up `str(i + 1)` finds row i |
| Books.ScanForId | mcp_server/books.py:45-48 | the loop stops at the first row whose stripped key cell is the wanted id, or past the end when there is none |
| Books.BooksRepository.constructor | mcp_server/books.py:7-9 | a repository over the given file, not yet loaded |
| Books.BooksRepository.EnsureLoaded | mcp_server/books.py:11-27 | fails exactly when the file is missing; loads at most once; the cache then holds the cleaned, numbered rows |
| Books.BooksRepository.GetById | mcp_server/books.py:40-48 | FileNotFound when the file is missing, otherwise the first row carrying the id (or none), after loading once |
| Books.BooksRepository.Filter | mcp_server/books.py:50-82 | FileNotFound when the file is missing, otherwise the filtered, offset and limited rows |
| Exchange.Convert | mcp_server/exchange.py:10-14 | codes equal up to case give the amount back; an unknown-currency error names one of the two upper-cased codes |
| Exchange.Route | mcp_server/exchange.py:13-29 | equal codes give the amount back; an unknown-currency error names one of the two codes |
| Exchange.DefaultRatesConsistent | mcp_server/exchange.py:32-48 | the default table lists the base at rate 1, and every rate is positive |
| Exchange.RouteFromBase | mcp_server/exchange.py:17-20 | from the base currency, the amount is multiplied by the target's rate |
| Exchange.RouteToBase | mcp_server/exchange.py:21-24 | to the base currency, the amount is divided by the source's rate |
| Exchange.RouteByReference | mcp_server/exchange.py:17-29 | on a consistent table, all three routes agree with the single rule "divide by the source rate, multiply by the target rate" |
| Exchange.ConvertByReference | mcp_server/exchange.py:10-29 | the same for `convert`, after upper-casing |
| Exchange.ConvertFailsOnlyOnUnknown | mcp_server/exchange.py:17-27 | on a consistent table, a conversion fails exactly when the codes differ and one is unlisted; the source code is named first |
| Exchange.ConvertRoundTrip | mcp_server/exchange.py:10-29 | converting there and back returns the amount |
| Exchange.ConvertKeepsSign | mcp_server/exchange.py:17-29 | with positive rates, a successful conversion keeps the amount's sign |
| Exchange.SameCodeUnlisted | mcp_server/exchange.py:11-14 | `convert(a, "xyz", "XYZ")` returns a even though XYZ is not listed |
| Exchange.HundredDollarsInEuros | mcp_server/exchange.py:32-38 | with the default table, 100 usd is 92 eur |
| XlsxToCsv.ColToIndex | mcp_server/util/xlsx_to_csv.py:75-80 | the loop computes the bijective base-26 column number of the letters, minus one |
| XlsxToCsv.ColumnExamples | mcp_server/util/xlsx_to_csv.py:76 | A is 0, B is 1, Z is 25, AA is 26, AZ is 51, BA is 52 |
| XlsxToCsv.ColumnNumberPositive | mcp_server/util/xlsx_to_csv.py:75-80 | a non-empty run of capitals gives an index of at least 0 |
| XlsxToCsv.ColumnLetters | mcp_server/util/xlsx_to_csv.py:75-80 | the inverse numbering yields a non-empty run of capitals |
| XlsxToCsv.NumberOfLetters | mcp_server/util/xlsx_to_csv.py:75-80 | letters to number inverts number to letters |
| XlsxToCsv.LettersOfNumber | mcp_server/util/xlsx_to_csv.py:75-80 | number to letters inverts letters to number |
| XlsxToCsv.ColumnIndexInjective | mcp_server/util/xlsx_to_csv.py:75-80 | distinct column letters give distinct indices |
| XlsxToCsv.RefLetters | mcp_server/util/xlsx_to_csv.py:91-92 | the column part of a reference is always a non-empty run of capitals |
| XlsxToCsv.RefLettersOfReference | mcp_server/util/xlsx_to_csv.py:72 | for a reference of capitals followed by a digit, the match takes exactly the capitals |
| XlsxToCsv.RefLettersFallback | mcp_server/util/xlsx_to_csv.py:91-92 | a reference the pattern does not match falls back to column A |
| XlsxToCsv.ColumnOf | mcp_server/util/xlsx_to_csv.py:90-93 | every cell lands at a non-negative index |
| XlsxToCsv.MissingReferenceIsFirstColumn | mcp_server/util/xlsx_to_csv.py:90 | a cell without `r` counts as `A1`, the first column |
| XlsxToCsv.CellWithoutValue | mcp_server/util/xlsx_to_csv.py:99-100 | a cell without a value is empty |
| XlsxToCsv.SharedStringCell | mcp_server/util/xlsx_to_csv.py:103-105 | a shared-string cell holding index i reads entry i of the shared strings |
| XlsxToCsv.SharedStringFromEnd | mcp_server/util/xlsx_to_csv.py:103-105 | a shared-string index `-n`, with 1 <= n <= the table's size, reads entry n from the end |
| XlsxToCsv.SharedStringFallback | mcp_server/util/xlsx_to_csv.py:103-107 | a shared-string cell whose text is not an integer, or is an index outside the table at either end, keeps its raw text |
| XlsxToCsv.SharedStringPastEnd | mcp_server/util/xlsx_to_csv.py:103-107 | example: the index equal to the table's size keeps its raw text |
| XlsxToCsv.ColumnBelowWidth | mcp_server/util/xlsx_to_csv.py:95-96 | the row is extended far enough to hold every cell's index |
| XlsxToCsv.LastValueBeyondWidth | mcp_server/util/xlsx_to_csv.py:95-96 | past the widest index, no column carries a value |
| XlsxToCsv.Blanks | mcp_server/util/xlsx_to_csv.py:96 | `[""] * n` is n empty strings |
| XlsxToCsv.Place | mcp_server/util/xlsx_to_csv.py:95-96 | growing the row and assigning one slot sets that slot and keeps or blanks every other |
| XlsxToCsv.TrimEmpty | mcp_server/util/xlsx_to_csv.py:111-113 | trimming keeps a prefix that does not end in "" and drops only empty strings |
| XlsxToCsv.PlacedMeaning | mcp_server/util/xlsx_to_csv.py:88-110 | before trimming, the row is as wide as the widest index, and column k holds the value of the last cell at k, or "" if none |
| XlsxToCsv.RowValuesMeaning | mcp_server/util/xlsx_to_csv.py:88-114 | a yielded row does not end in ""; each column holds its last cell's value; no column beyond it has a value |
| XlsxToCsv.AssembleRow | mcp_server/util/xlsx_to_csv.py:88-114 | the loop over a row's cells yields the row `RowValues` describes |
| XlsxToCsv.PopBlanks | mcp_server/util/xlsx_to_csv.py:112-113 | the pop loop computes `TrimEmpty` |
| XlsxToCsv.SheetRowsMeaning | mcp_server/util/xlsx_to_csv.py:87-114 | one output row per sheet row, in order, each as `RowValues` describes |
| XlsxToCsv.IterRows | mcp_server/util/xlsx_to_csv.py:83-114 | the generator's loop yields `SheetRows` |
| XlsxToCsv.ConcatAppend | mcp_server/util/xlsx_to_csv.py:68 | `"".join` distributes over concatenation |
| XlsxToCsv.ItemTextAppend | mcp_server/util/xlsx_to_csv.py:65-68 | an item's text is the texts of its parts concatenated, a missing text counting as "" |
| XlsxToCsv.ItemTextSingle | mcp_server/util/xlsx_to_csv.py:67 | a single text is itself; a missing text is "" |
| XlsxToCsv.ParseSharedStrings | mcp_server/util/xlsx_to_csv.py:55-69 | no shared-strings part gives []; otherwise one string per item, in order, each the join of its texts |
| XlsxToCsv.InArchive | mcp_server/util/xlsx_to_csv.py:47-48 | a relationship target is kept as it is when it already starts with `xl/`, and is otherwise prefixed with `xl/`; either way it lies under `xl/` |
| XlsxToCsv.InArchiveIdempotent | mcp_server/util/xlsx_to_csv.py:47-48 | resolving twice is resolving once |
| XlsxToCsv.FirstTarget | mcp_server/util/xlsx_to_csv.py:43-50 | a path is found exactly when some relationship has the id and a non-empty target; the path is under `xl/` |
| XlsxToCsv.FirstTargetIsFirst | mcp_server/util/xlsx_to_csv.py:43-49 | the path found is that of the first such relationship |
| XlsxToCsv.FindFirstSheetPath | mcp_server/util/xlsx_to_csv.py:26-52 | any path found is under `xl/` |
| XlsxToCsv.SheetPath | mcp_server/util/xlsx_to_csv.py:15-18 | the sheet read is under `xl/`, and it is `xl/worksheets/sheet1.xml` when no path is found |
| XlsxToCsv.FirstSheetResolved | mcp_server/util/xlsx_to_csv.py:34-49 | the first sheet's id resolves through its relationship, with `xl/` prefixed |
| Server.Truncate | mcp_server/server.py:582 | `int(x)` on a float truncates toward zero |
| Server.Purged | mcp_server/server.py:616-617 | deleting the current session removes exactly its key, keeps every other entry, and clears the current-session id |
| Server.Call | mcp_server/server.py:444-749 | only `authenticate`, `logout` and the purge of an expired session change the state; a raising call changes nothing; no call except `authenticate` adds or alters a stored session |
| Server.UnknownToolRejected | mcp_server/server.py:492-494 | an unknown tool name is rejected, and nothing changes |
| Server.AuthenticateStores | mcp_server/server.py:500-539 | `authenticate` stores a session created now under the new id, with the issued token, the given user (default `demo_user`) and the hashed user id; it points at it, keeps every other session, and announces 3600 seconds |
| Server.IdShapes | mcp_server/server.py:513-519 | user ids are `user_N` with N = hash mod 10000, and session ids are `session_N` with N = hash mod 100000 |
| Server.AuthenticateThenStatus | mcp_server/server.py:567-591 | right after `authenticate`, `session_status` reports that user, 0 seconds old, with 3600 left |
| Server.LogoutEffect | mcp_server/server.py:541-565 | with an active session, `logout` deletes exactly that session and clears the current-session id; otherwise it changes nothing |
| Server.LogoutTwice | mcp_server/server.py:552-564 | a second `logout` finds no session |
| Server.StatusReadOnly | mcp_server/server.py:567-597 | `session_status` changes nothing; it reports a session exactly when one is active, with `session_age` = `int(now - created_at)` and `expires_in` = `max(0, 3600 - session_age)`; `expires_in` is never negative, at most 3600 when the session is not from the future, and 0 once an hour has passed |
| Server.GateRequiresSession | mcp_server/server.py:604-610 | without an active session, a protected tool is refused and nothing changes |
| Server.GateExpires | mcp_server/server.py:612-623 | a session older than 3600 s is deleted, the current-session id is cleared, and the call is refused |
| Server.ExpiredThenRefused | mcp_server/server.py:604-623 | after that purge, protected calls ask for authentication and `session_status` reports no session |
| Server.ProtectedRunsAsCurrentUser | mcp_server/server.py:626-745 | past the gate, a call changes nothing, and every reply is labelled with the current session's user |
| Server.GateBoundary | mcp_server/server.py:614 | a session exactly 3600 s old still passes the gate |
| Server.PastGate | mcp_server/server.py:626-749 | past the gate, the call is the protected tool's result for the current user |
| Server.ConvertMissingArgument | mcp_server/server.py:717-719 | the first missing key among `from_currency`, `to_currency`, `amount` is reported, and nothing changes |
| Server.ConvertDollarsToEuros | mcp_server/server.py:721-735 | converting 100 usd to eur replies with the upper-cased codes, 100, 92 and the time |
| Server.ConvertReply | mcp_server/server.py:717-745 | with all three arguments given, `exchange_convert` always replies: a conversion error becomes `conversion_failed` carrying it, a value becomes the reply with upper-cased codes, the amount and the time |
| Server.ConvertFailsOnUnknownCode | mcp_server/server.py:737-745 | on a consistent table the reply is `conversion_failed` exactly when the upper-cased codes differ and one is unlisted, naming the source code first |
| Server.ConvertUnknownCurrency | mcp_server/server.py:737-745 | example: XXX to USD on the default table is answered with `conversion_failed` naming XXX, not an exception |
| Server.QueryFound | mcp_server/server.py:655-671 | a non-empty id that the repository finds is answered with that row |
| Server.QuerySynthesisedId | mcp_server/server.py:655-671 | on a catalogue without an id column, `books_query` for id `str(i + 1)` returns row i |
| Server.QueryFilters | mcp_server/server.py:674-698 | without a non-empty id, `books_query` returns the repository filter for the given criteria |
| Server.CallKeepsTidy | mcp_server/server.py:279-284 | the server starts with no dangling current-session id, and no call leaves one behind |
| Server.CallKeepsTokensIssued | mcp_server/server.py:516-525 | every stored token stays the one issued for its session's user at its creation time |
| Server.GateAgreesWithToken | mcp_server/server.py:612-623 | with a codec that meets the base64 laws and round-trips the session's claims, the gate refuses a session as expired exactly when its stored token no longer validates at that time |
| Server.McpServer.constructor | mcp_server/server.py:279-296 | the server starts with no sessions, no current session, the repository over the file and the default rates |
| Server.McpServer.HandleCallTool | mcp_server/server.py:444-749 | the handler's in-place updates of the two globals, and its reply, are exactly `Call`'s transition |

## Left out

- Input and output:
  - the CSV reader;
  - the zip archive and the XML parser, including `ParseError`;
  - the CSV writer, and the file handling of `xlsx_first_sheet_to_csv`.

  These are replaced by their parsed contents as parameters. The model starts
  from the records, cells, texts and relationships they would yield.
- The transport layer, `list_tools` and the preparation of the books file at
  start-up are not part of this model.
- `headers` and `list_all` are not modelled as separate operations. Both only
  call `ensure_loaded` and read the cache; `Books.HeadersOf` is the header
  list that `get_by_id` and `filter` use.
- Reply texts (`str(result)`, messages, hints) are not modelled. Replies are
  datatypes carrying the same fields.
- Floating point is modelled by exact reals:
  - the clock and conversion amounts are reals;
  - rounding is not modelled;
  - the reals are unbounded.
- Each call reads the clock once (`Env.now`). The source reads it separately
  for `exp`, `iat` and `created_at`; those readings can differ by a fraction
  of a second.
- Python's `hash()` is salted per process, so its values are parameters. Two
  sessions whose hashes collide share a session id. The later one overwrites
  the earlier entry, as in the source.
- Case mapping and digits:
  - `lower` and `upper` map ASCII letters only;
  - `int()` accepts ASCII digits only, without underscores;
  - the pattern `\d` is read as an ASCII digit.
- Tool arguments are typed as the advertised input schemas type them. Values
  of other JSON types are not modelled, and `null` counts as absent.
- CSV rows with missing or extra fields are not modelled. Python's `csv` fills
  these with `None` or a list.
- Token.Lawful: the base64 laws, and the JSON round trip of the value at hand
  (`Token.JsonRoundTrips`), are hypotheses of the round-trip lemmas. They are
  not proved of Python's library, which is external. Only values that
  `json.dumps` writes and `json.loads` reads back unchanged are covered:
  a float that does not survive the trip is not.
- The signature comparison uses `!=`, as in the source; its timing is not modelled.
- The server's class invariant is only that of the repository. The properties
  of the session state are proved about `Call` (`Server.CallKeepsTidy`,
  `Server.CallKeepsTokensIssued`), which `HandleCallTool` follows exactly.
- `session_status` does not delete an expired session; only the gate does.
  The model follows the code here.
