# StatsPlus client core, modelled in Dafny

This project models the client of the StatsPlus league API (`StatsPlusClient`
in `src/client.ts`): the CSV decoder behind every CSV endpoint, the client-side
filters some endpoints apply, and the background ratings export. The ratings
export has three steps. A request starts the job. The poll URL is read from
the server's free-text reply. That URL is then polled at most twenty times,
until the export is ready, fails, or the client gives up.

Modules, one per file:

- `Wrappers`: `Option` and `Result`.
- `Text`: string operations with the JavaScript meaning the client relies on:
  - the `\s` / `trim()` whitespace set;
  - `includes`, `startsWith` and `indexOf`;
  - `split` on one character;
  - `trim()`;
  - ASCII `toLowerCase()`.
- `Seqs`: `Array.prototype.filter` and its facts: the result is an ordered
  subsequence with the same multiplicities, two filters make one, and so on.
- `CsvRow`: `parseCsvRow`. It has a recursive description of the fields, the
  loop as written (shown to compute it), and the quoting that the lexer
  inverts.
- `Csv`: `parseCsv`. This covers line-break normalisation, the header line,
  skipping blank lines, zipping headers with cells, and `Number()` coercion.
- `Filters`: the four client-side filters: ratings by `ID`, players by
  organisation, contracts by team and player, and the name search.
- `Client`: the constructor (league slug, headers), `fetch` (query
  parameters, HTTP status check), `getCsv`, `getPlayers`, `findPlayer` and
  `getContracts`.
- `Ratings`: `initiateRatingsJob` (poll-URL extraction) and `getRatings`.

The network is not modelled. The reply to each request is a parameter: one
`Response` for a plain request, and a function from attempt number to
`Response` for the poll loop. Waits are counted, not timed.

Three behaviours of the code are easy to misread, and the model keeps them:

- `Number(" ")` is 0, so a whitespace-only cell becomes the number 0, not a
  string.
- Every data line that trims to nothing is skipped, wherever it stands, not
  only at the end of the text.
- `if (params.poll_url)` tests truthiness, so an empty `poll_url` starts a
  new job, like an absent one.

## Model

| member | source | states |
|---|---|---|
| `CsvRow.ParseCsvRow` | src/client.ts:54-87 | The loop as written (forward index, inner quoted loop, `indexOf` for unquoted fields) returns exactly the fields of the recursive description `ParseFields`. |
| `CsvRow.ReadQuoted` | src/client.ts:60-72 | The inner loop returns the quoted text (`""` read as `"`) and the position after the closing quote, or the end of the line when the quote is never closed. |
| `CsvRow.ReadField` | src/client.ts:58-84 | One outer step reads one field and moves strictly forward. The fields from `i` are that field followed by the fields from the next position. After an unquoted field with no comma after it, nothing more is read. |
| `CsvRow.NextCommaIsIndexOf` | src/client.ts:77-83 | Where an unquoted field ends agrees with `indexOf(",", i)`: the end of the line stands for -1, and no comma lies inside the field. |
| `CsvRow.UnquotedFields` | src/client.ts:76-84 | A line without `"` lexes to its comma-separated pieces in order, with the empty piece after a final comma dropped. |
| `CsvRow.QuotedEscape` | src/client.ts:62-72 | The quoted-field reader undoes quote doubling and stops at the first lone quote. |
| `CsvRow.EncodeRowRoundTrip` | src/client.ts:54-87 | Round trip: a line of quoted, quote-doubled fields joined by commas lexes back to exactly those fields, commas and quotes inside them included. |
| `CsvRow.QuotedAlone` | src/client.ts:58-74 | A single quoted value lexes back to that value. |
| `Csv.Normalize` | src/client.ts:31 | No `\r` survives the two replacements, and text without `\r` is left unchanged. |
| `Csv.NormalizeCrLf` | src/client.ts:31 | `\r\n` becomes one `\n` between the normalised text on either side. |
| `Csv.NormalizeCr` | src/client.ts:31 | A lone `\r` becomes one `\n` between the normalised text on either side. |
| `Csv.NormalizeLf` | src/client.ts:31 | A `\n` not preceded by `\r` stays one `\n` between the normalised text on either side. |
| `Csv.LineBreaksAgree` | src/client.ts:31 | A document with `\r\n` or a lone `\r` decodes to the same rows as the same document with `\n`. |
| `Csv.ToNumber` | src/client.ts:44 | `Number(raw)` gives 0 for a whitespace-only string. |
| `Csv.Coerce` | src/client.ts:43-45 | The empty cell stays the empty string. A cell becomes a number exactly when it is non-empty and `Number()` accepts it, and then it is that number. Otherwise its text is kept unchanged. |
| `Csv.DigitsNumber` | src/client.ts:44 | A non-empty string of digits is the number it spells. |
| `Csv.DecimalCoerces` | src/client.ts:44-45 | A cell holding the decimal digits of `n` is coerced to the number `n`. |
| `Csv.Assign` | src/client.ts:41-46 | Assigning cells to header keys in order gives one key per distinct header. A repeated header keeps the value of its last position, and every value comes from the cells. |
| `Csv.MakeRow` | src/client.ts:41-46 | A row has exactly the header fields as keys. The key at each header's last position holds that position's coerced cell, with a missing cell read as `""`. Every numeric cell remembers the non-empty text it came from. |
| `Csv.SurplusValuesIgnored` | src/client.ts:42-45 | Cells beyond the last header do not affect the row. |
| `Csv.DecodeRows` | src/client.ts:37-48 | Data lines that trim to nothing are skipped. Every other line gives one row, in order, decoded from its trimmed text. |
| `Csv.ParseCsv` | src/client.ts:30-51 | Fewer than two lines give no rows. Otherwise there is one row per non-blank data line. Each row's keys are the header fields, and every numeric cell is a valid coercion of its text. |
| `Csv.SingleLineIsEmpty` | src/client.ts:31-32 | Text without a line break (a header alone) decodes to no rows. |
| `Csv.ParseCsvJoined` | src/client.ts:30-51 | Lines joined by `\n` decode line by line: the first line gives the header fields, and each later non-blank line gives one row, in order. |
| `Text.Trim` | src/client.ts:38 | `trim()` returns the middle of the string between a whitespace prefix and a whitespace suffix. The result neither starts nor ends with whitespace, and it is empty exactly when the string is all whitespace. |
| `Text.TrimUnpadded` | src/client.ts:38 | A string that neither starts nor ends with whitespace is its own trim. |
| `Text.ContainsIff` | src/client.ts:201 | `includes` holds exactly when the query occurs at some position. |
| `Text.IndexOfFrom` | src/client.ts:77 | `indexOf(c, from)` finds `c` at or after `from` exactly when it is there, and returns its first position. |
| `Text.SplitJoin` | src/client.ts:31 | Splitting on `\n` gives back the separator-free lines that were joined. |
| `Text.JoinSplit` | src/client.ts:31 | Splitting loses nothing: joining the pieces gives back the text. |
| `Text.Lower` | src/client.ts:197-200 | `toLowerCase()` keeps the length, turns each of `A`-`Z` into the letter 32 code points later (`a`-`z`), and changes no other character. |
| `Seqs.FilterIsSubseq` | src/client.ts:188-190 | `filter` keeps a subsequence of its input, in the original order. |
| `Seqs.FilterMultiset` | src/client.ts:188-190 | `filter` keeps each passing element exactly as often as it occurs, and drops the others. |
| `Seqs.FilterFilter` | src/client.ts:276-281 | Two filters in a row equal one filter that tests both predicates. |
| `Filters.RatingsFilter` | src/client.ts:255-259 | With no identifiers every row is returned. Otherwise only rows whose `ID` is a listed number remain. |
| `Filters.RatingsFilterSpec` | src/client.ts:255-257 | With identifiers, exactly the rows with a listed `ID` are kept, in their original order and with their multiplicities. |
| `Filters.DecodedIdListed` | src/client.ts:255-257 | A decoded row whose `ID` cell holds the digits of a listed identifier passes the ratings filter. |
| `Filters.PlayersByOrg` | src/client.ts:187-192 | Without `org_id` every player is returned. Otherwise every returned player has that number as its parent team or its team. |
| `Filters.PlayersByOrgSpec` | src/client.ts:187-190 | A player is kept exactly when its `Parent Team ID` or `Team ID` is the organisation, each as often as it occurs in the input, and the kept players stay in order. |
| `Filters.Display` | src/client.ts:199-200 | `String(cell)`: a string cell shows its text, and a missing cell shows `undefined`. |
| `Filters.FindPlayer` | src/client.ts:195-202 | Every returned player matches the lower-cased query in the first name, the last name or "first last". |
| `Filters.FindPlayerSpec` | src/client.ts:198-202 | A player is kept exactly when the lower-cased query occurs in the lower-cased first name, last name or "first last", each as often as it occurs in the input, in order. |
| `Filters.FindPlayerIgnoresCase` | src/client.ts:197 | The search result does not depend on the case of the query. |
| `Filters.FindPlayerEmpty` | src/client.ts:197-201 | The empty query returns every player. |
| `Filters.FullNameFound` | src/client.ts:199-201 | A player is found by their full name "first last" in any ASCII case. |
| `Filters.ContractsFilter` | src/client.ts:274-283 | Without criteria every contract is returned. Otherwise every returned contract matches each given criterion. |
| `Filters.ContractsOnePass` | src/client.ts:276-281 | Filtering by team and then by player equals one order-preserving pass that keeps contracts meeting both criteria. |
| `Client.TrimSlashes` | src/client.ts:94 | Exactly one leading `/` (if the slug has one) and one trailing `/` (if it has one and is longer than one character) are removed, and nothing else: putting them back gives the slug. |
| `Client.TrimSlashesOnce` | src/client.ts:94 | Only one slash goes at each end: `/` + x + `/` trims to x for every x, so `//a//` trims to `/a/`. |
| `Client.TrimSlashesRoundTrip` | src/client.ts:94 | A slug written with or without a leading or trailing `/` trims back to the bare slug. |
| `Client.BaseUrl` | src/client.ts:94 | The base URL is `https://statsplus.net/`, then the slug without its one leading and one trailing `/`, then `/api`. |
| `Client.BaseUrlIgnoresSlashes` | src/client.ts:94 | Leading and trailing slashes on the slug do not change the base URL. |
| `Client.Headers` | src/client.ts:95-101 | Accept and Content-Type are always JSON. A Cookie header is present exactly when the configured cookie is a non-empty string, and it carries that cookie. There are no other headers. |
| `Client.QuerySpec` | src/client.ts:106-110 | The query holds exactly the defined parameters with their values, in order. Each undefined parameter is left out. |
| `Client.MakeRequest` | src/client.ts:104-115 | The request goes to the base URL plus the path, carries exactly the defined parameters, and sends the client's headers. |
| `Client.CheckResponse` | src/client.ts:105-121 | A non-ok status raises an error with the status, its text and the URL followed by the query that was set on it. An ok response yields its body. |
| `Client.GetCsv` | src/client.ts:104-133 | An ok reply decodes to `parseCsv` of its body. Any other reply raises the HTTP error naming the path and the defined parameters. |
| `Client.PlayersErrorUrl` | src/client.ts:105-118 | A failing `getPlayers({team_id})` names `…/players/?team_id=` and the team in its error. |
| `Client.GetPlayers` | src/client.ts:183-193 | Success exactly when the reply is ok. The players returned are an ordered subsequence of the decoded rows, and a decoded row is returned, as often as it was decoded, exactly when no `org_id` is given or it is in that organisation. |
| `Client.FindPlayers` | src/client.ts:195-203 | Success exactly when the reply is ok. The players returned are an ordered subsequence of the decoded rows, and they are exactly the decoded rows matching the name, each as often as it was decoded. |
| `Client.GetContracts` | src/client.ts:274-283 | Success exactly when the reply is ok. The contracts returned are exactly the decoded rows meeting both criteria, in order. |
| `Ratings.FindMatch` | src/client.ts:210 | The regular expression search finds the leftmost position where `http://` or `https://` is followed by a non-whitespace character, or reports that there is none. |
| `Ratings.MatchText` | src/client.ts:210 | The matched text starts with the scheme, contains no whitespace, is a prefix of the text from the match position, and runs up to the next whitespace or the end of the text (greedy `[^\s]+`). |
| `Ratings.StripTrailingPunct` | src/client.ts:214 | The result is a prefix that does not end in `.` or `)`, and everything removed is `.` or `)`. |
| `Ratings.ExtractPollUrl` | src/client.ts:210-214 | Failure exactly when no URL-shaped substring exists, and then the error carries the reply. On success the URL starts with `http(s)://`, contains no whitespace, does not end in `.` or `)`, and is the whole whitespace-free run at the leftmost match less a trailing run of `.` and `)`. |
| `Ratings.StripAppended` | src/client.ts:214 | Stripping removes exactly the `.`/`)` run appended to a URL that does not end in one. |
| `Ratings.ExtractWrittenUrl` | src/client.ts:210-214 | A URL written into a reply with no match before it, followed by `.`/`)` characters and then whitespace or the end of the reply, is extracted exactly. |
| `Ratings.SentenceUrl` | src/client.ts:210-214 | In "Check https://x.y/z." the `h` of "Check" starts no match and the URL is `https://x.y/z`. |
| `Ratings.InitiateRatingsJob` | src/client.ts:207-215 | A non-ok reply to `/ratings/` raises the HTTP error for that path. An ok reply gives the URL extracted from its body. |
| `Ratings.Settle` | src/client.ts:246-259 | A poll reply that ends the loop yields the poll error exactly when it is not ok, and otherwise its decoded rows filtered by the identifiers. |
| `Ratings.PollLoop` | src/client.ts:240-265 | At most 20 polls. Every reply before the last is pending, and there is one wait between each two polls and none after the last. The loop stops at the first reply that is not pending. It runs out of attempts only when all remaining replies are pending. |
| `Ratings.PollLoopSettles` | src/client.ts:240-260 | With the first non-pending reply at attempt `k`, the loop stops there after `k + 1` polls and `k` waits. |
| `Ratings.PollLoopTimesOut` | src/client.ts:240-265 | The loop runs out of attempts exactly when every remaining reply is pending, and then it polls once per remaining attempt. |
| `Ratings.Finish` | src/client.ts:253-267 | Running out of attempts raises the timeout error. Otherwise the stopping reply is settled. |
| `Ratings.GetRatings` | src/client.ts:225-268 | At most 20 polls, and at most 30 s + 19 × 15 s of waiting. A given poll URL means no job request and no initial wait, and that URL is polled. Without one, the job is started exactly once. A successful start is followed by the 30 s wait and the extracted URL is polled. A failed start is the outcome, and nothing is polled. |
| `Ratings.RatingsTimeOut` | src/client.ts:240-267 | Twenty pending replies end in the timeout error after exactly 20 polls and 19 waits. |
| `Ratings.RatingsSettle` | src/client.ts:240-260 | The first non-pending reply decides the result: the poll error, or its decoded rows filtered by the identifiers. It comes after `k + 1` polls and `k` waits. |
| `Ratings.EmptyPollUrlStartsJob` | src/client.ts:231-238 | An empty `poll_url` behaves exactly as an absent one: a new job is started. |
| `Ratings.ProgressNoticePending` | src/client.ts:252-253 | A reply that mentions "still in progress" anywhere is pending. |

## Left out

- HTTP and the network are not modelled. Replies are parameters. A rejected `fetch` (a network error) and a failing `response.text()` are left out.
- `new URL(...)` and `searchParams` are not modelled, and neither is percent-encoding. A request carries its URL and its query as a list of name/value pairs, and the URL in an error message joins them as `?name=value&…` without encoding. `String(value)` for a numeric parameter is taken as already done.
- Timers are counted, not timed: `setTimeout` is a counted wait of a known length.
- The poll request itself (URL and headers) is not modelled. The reply to the k-th poll is given as a function of k.
- The CSV endpoint wrappers that only pass a fixed path and parameters to `getCsv`, and the JSON endpoints (`getJson`, `getExports`), are out of scope. `Client.GetCsv` covers the CSV ones.
- `startRatingsJob` is out of scope. It only wraps the URL returned by `initiateRatingsJob` in an object, and `Ratings.InitiateRatingsJob` models that.
- Csv.ToNumber: only the decimal notation of `Number()` is modelled: optional sign, digits, optional point and digits. Exponents, `0x`/`0b`/`0o` prefixes and `Infinity` are read as not-a-number, so such cells stay text. Values are exact rationals, not IEEE doubles.
- Filters.Display: a numeric cell is shown by its source text, not by JavaScript's number-to-string conversion (`"007"` shows as `007`, not `7`).
- Text.Lower: only ASCII letters are lower-cased. Unicode case mapping is left out.
- Strings are sequences of Unicode characters, while JavaScript indexes UTF-16 code units (`line.length`, `line[i]`). The positions differ for characters outside the Basic Multilingual Plane. The lexer only looks for the ASCII `"` and `,`, so the fields it returns are the same.
- Csv.Assign: a header named `__proto__` is treated as an ordinary key. JavaScript's object-prototype behaviour is left out.
- The ratings filter tests only the `ID` field, as the code does. No other identifier field is considered.
