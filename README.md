# Broken-link checker for spreadsheets, modelled in Dafny

The system is a small web service. A user uploads an Excel or CSV file and the server reads
the file's first worksheet. It walks every cell of the sheet's range, row by row. Each cell
value that starts with `http://` or `https://`, after trimming, is probed: first with an
HTTP HEAD request, then with GET if HEAD throws. The server answers with the URL counts,
one record `{cell, url, reason}` per broken URL, and a summary message. The browser script
accepts only `.xlsx`, `.xls` and `.csv` file names, and shortens long URLs for display.

The model has five modules:

- `JsText` (`jstext.dfy`): the JavaScript string built-ins the code relies on. These are
  `trim`, the case folding of ASCII letters by a regular expression with the `i` flag, `includes`,
  and the decimal text of a number in a template literal.
- `Classifier` (`classifier.dfy`): `isUrl`, the regular expression `^https?://` with the
  `i` flag, read atom by atom.
- `Prober` (`prober.dfy`): `checkUrl` with the network taken out. Each request is given by
  what the network did with it (an HTTP status, or a failure with an error code and a
  message). `Settle` applies the `validateStatus: status < 500` option of axios.
- `Scanner` (`scanner.dfy`): the nested loops of the upload handler, as a `method` with
  loop invariants. It is proved against specification functions (`Visited`, `Candidates`,
  `Flagged`, `Summary`), and lemmas about those functions state what the report promises.
  A worked example with three cells ends the module.
- `ClientScript` (`client_script.dfy`): the file-name test and `truncateUrl` of the
  browser script, with JavaScript's `substring` clamping.

The probe is a parameter of `Scanner.Scan`, a function from URL to verdict, so the scan is
deterministic and can be stated exactly. `Prober.Probe` is that function for a given network.

Details where the code decides and a plain reading of the tool's purpose might differ:

- A server that answers HEAD with 405 but serves GET is reported as `HTTP 405`. A 405 is
  below 500, so axios returns it normally, the `catch` is not entered, and GET is never
  tried (`Prober.MethodNotAllowedNotRetried`). GET is tried only when HEAD throws: on a
  transport failure or a status of 500 or more.
- A HEAD timeout does not yield `Request timeout` by itself. It falls back to GET, and only
  GET's own error is classified (`Prober.HeadErrorDiscarded`).
- When both requests get a status of 500 or more, the reason is `HTTP <GET status>`. The
  error axios throws carries the response, and its message never mentions a timeout
  (`Prober.AnsweredVerdict`).
- Statuses below 200 from a request that completes count as broken (`HTTP 1xx`); only
  200-399 work.

## Model

| member | source | states |
|---|---|---|
| JsText.TrimStart | server.js:49 | dropping the leading whitespace never lengthens the value; what it drops and keeps is `JsText.TrimStartSpec` |
| JsText.TrimEnd | server.js:49 | dropping the trailing whitespace never lengthens the value; what it drops and keeps is `JsText.TrimEndSpec` |
| JsText.Trim | server.js:49 | `trim()` never lengthens the value; the exact result is `JsText.TrimSpec` |
| JsText.TrimStartSpec | server.js:49 | dropping the leading whitespace keeps the longest suffix that does not start with whitespace, and drops only whitespace |
| JsText.TrimEndSpec | server.js:49 | dropping the trailing whitespace keeps the longest prefix that does not end with whitespace, and drops only whitespace |
| JsText.TrimSpec | server.js:49 | `trim()` returns a slice of its argument with only whitespace before and after it, and the slice neither starts nor ends with whitespace |
| JsText.TrimEmptyIff | server.js:49 | trimming leaves the empty string exactly when the value is all whitespace |
| JsText.TrimIdempotent | server.js:49 | trimming a trimmed value changes nothing |
| JsText.TrimStartPadded | server.js:49 | leading whitespace before a value that starts with a non-blank is removed exactly |
| JsText.TrimEndPadded | server.js:49 | trailing whitespace after a value that ends with a non-blank is removed exactly |
| JsText.TrimPadded | server.js:49 | whitespace on both sides of a value without blank ends is exactly what `trim` removes |
| JsText.LowerAsciiSame | server.js:102 | two characters fold alike exactly when they are equal or are the two cases of one ASCII letter; for the ASCII characters of the source's two patterns this is how the `i` flag matches |
| JsText.Contains | server.js:149 | `includes`: the empty part is in every string, and a part longer than the string is in none |
| JsText.MissingCharNotContained | server.js:149 | `includes` fails when the searched text lacks a character of the part |
| JsText.Decimal | server.js:125 | the template-literal text of a number is a non-empty run of digits without a leading zero, except for `0` itself |
| JsText.ParseDecimalOfDecimal | server.js:125 | reading the digits back gives the number |
| JsText.DecimalInjective | server.js:84 | distinct counts are rendered as distinct numerals |
| JsText.DigitRunSplit | server.js:84 | a numeral followed by text that starts with a non-digit splits only one way |
| Classifier.IsUrl | server.js:100-107 | an accepted string is at least as long as `http://` and begins with `h` or `H`, so the empty string is refused |
| Classifier.IsUrlIff | server.js:100-107 | a string is a URL exactly when it begins with `http://` or `https://`, in any letter case |
| Classifier.IsUrlPrefixClosed | server.js:102-103 | only the scheme is examined: anything may follow it |
| Classifier.IsUrlIgnoresCase | server.js:102-103 | strings that agree up to ASCII case are classified alike |
| Classifier.IsUrlAcceptsSchemes | server.js:102-103 | `http://`, `https://` and `HTTPS://` followed by anything are accepted |
| Classifier.IsUrlRejectsOthers | server.js:102-103 | `ftp://x.com`, `www.example.com`, ` http://x`, `http:/x` and `httpx://x` are refused |
| Prober.StatusReasonRoundTrip | server.js:122-126 | the reason of a broken response is `HTTP ` followed by a numeral that reads back as the response's status |
| Prober.RejectionReportsStatus | server.js:130-153 | a GET status of 500 or more is thrown by `validateStatus`, and the `catch` reports it as `HTTP <status>` |
| Prober.ErrorReason | server.js:145-155 | the reason for a GET error is never empty and is one of the fixed reasons, the error's message, or `HTTP <status>` of an attached response |
| Prober.CheckUrl | server.js:110-158 | every broken verdict carries a non-empty reason |
| Prober.Probe | server.js:110-158 | a URL works only if one of its two requests got a 2xx or 3xx answer, and a broken URL always has a non-empty reason |
| Prober.ProbeWorkingIff | server.js:110-142 | a URL works exactly when HEAD answers 200-399, or HEAD throws and GET answers 200-399 |
| Prober.ProbeTruthyIffBroken | server.js:56 | the verdict is truthy exactly when it is broken, so `if (isBroken)` sees every broken URL |
| Prober.HeadAnswerDecides | server.js:113-126 | a HEAD status below 500 decides the verdict alone, whatever GET would do |
| Prober.HeadErrorDiscarded | server.js:127-136 | once HEAD throws, its error plays no part: only GET matters |
| Prober.RejectionNotTimeout | server.js:149 | the message of a status rejection never contains `timeout` |
| Prober.AnsweredVerdict | server.js:113-152 | with two HTTP answers, the verdict is that of the HEAD status if below 500, and otherwise that of the GET status |
| Prober.FaultVerdict | server.js:143-155 | a GET failure without a response yields, in priority order, `Domain not found`, `Connection refused`, `Request timeout` (by code or message), the message, or `Unknown error` |
| Prober.MethodNotAllowedNotRetried | server.js:116-126 | HEAD 405 then GET 200 is reported as `HTTP 405` |
| Scanner.CellUrlIff | server.js:47-52 | a cell yields a URL exactly when its value is truthy and its trimmed text begins with `http://` or `https://` in any letter case; the URL is that trimmed text |
| Scanner.PaddedUrlFound | server.js:49-52 | a URL with whitespace around it is found, without the whitespace |
| Scanner.BlankOrFalsyNotFound | server.js:47-52 | falsy values and all-whitespace values are skipped |
| Scanner.RowCellsMembers | server.js:43 | the inner loop visits exactly the columns `lo` to `hi - 1` of its row, left to right |
| Scanner.RowsBelowMembers | server.js:42-43 | the rows walked so far hold exactly the cells of the range above the current row, in row-major order |
| Scanner.VisitedIsRange | server.js:42-43 | the walk visits every cell of the range and no other |
| Scanner.VisitedRowMajor | server.js:42-43 | the walk is in row-major order, so each cell is visited once |
| Scanner.CandidatesSound | server.js:45-53 | every URL found comes from a visited URL cell and is that cell's trimmed value |
| Scanner.CandidatesComplete | server.js:45-53 | every visited URL cell is found |
| Scanner.CandidatesInOrder | server.js:42-53 | URLs are found in the order of the walk |
| Scanner.CandidatesCount | server.js:53 | the number found is the number of distinct URL cells visited |
| Scanner.FlaggedSound | server.js:56-64 | there are no more records than URLs, and each record is a URL found with its truthy verdict as reason |
| Scanner.FlaggedComplete | server.js:56-64 | every URL found with a truthy verdict has its record |
| Scanner.FlaggedInOrder | server.js:56-64 | records keep the order in which the URLs were found |
| Scanner.Summary | server.js:73-89 | the message is never empty, and it begins with `A` (of `All`) exactly when no link is broken, otherwise with the `F` of `Found` |
| Scanner.AllWorkingInjective | server.js:76 | the all-working message determines `urlsFound` |
| Scanner.SomeBrokenInjective | server.js:84 | the broken-links message determines both the number of records and `urlsFound` |
| Scanner.SummaryInjective | server.js:73-89 | the message determines both counts, and which of the two forms it takes says whether any link is broken |
| Scanner.Scan | server.js:36-89 | `urlsFound` and `urlsChecked` both equal the number of URL cells visited, `brokenLinks` are the flagged URL cells in walking order, and the message is the summary of these counts |
| Scanner.UrlsFoundCountsUrlCells | server.js:39-66 | `urlsFound` is the number of URL cells in the range |
| Scanner.BrokenLinksSound | server.js:54-64 | there are no more records than URLs found, and each names a URL cell of the range, its trimmed value, and the probe's non-empty reason |
| Scanner.BrokenLinksComplete | server.js:54-64 | every URL cell of the range with a truthy verdict has its record |
| Scanner.BrokenLinksRowMajor | server.js:42-64 | records appear in row-major order of their cells |
| Scanner.NetworkBrokenRecorded | server.js:54-64 | with `checkUrl` over a network, every URL cell with a broken verdict is recorded |
| Scanner.NoUrlsAllWorking | server.js:73-80 | a range without URL cells yields no records and `All 0 URLs are working correctly!` |
| Scanner.ExampleVisited | server.js:42-43 | a 3 by 3 range is walked A1, B1, C1, A2, and so on |
| Scanner.ExampleCandidates | server.js:45-53 | in the example sheet, the two URL cells are found and the plain-text cell is not |
| Scanner.ExampleProbes | server.js:110-155 | a host answering 200 works; an unknown host is `Domain not found` |
| Scanner.ExampleReport | server.js:36-89 | the example reports 2 URLs, one record for the unknown host, and `Found 1 broken link(s) out of 2 URLs` |
| ClientScript.Substring | public/script.js:132 | `substring` with in-range indices is the slice, and from 0 it is the clamped prefix |
| ClientScript.SubstringSymmetric | public/script.js:132 | `substring` does not depend on the order of its two indices |
| ClientScript.TruncateUrl | public/script.js:128-133 | a URL that fits is unchanged; a longer one becomes its first `maxLength - 3` characters plus `...`, exactly `maxLength` long; below 3 it becomes `...` |
| ClientScript.TruncateUrlDefault | public/script.js:128-133 | by default the display is at most 60 characters: the URL itself, or its first 57 characters and `...` |
| ClientScript.TruncateUrlBounded | public/script.js:128-133 | with a bound of at least 3 the result never exceeds the bound |
| ClientScript.TruncateUrlShape | public/script.js:128-133 | the result is the URL or a beginning of it followed by `...` |
| ClientScript.TruncateUrlKeepsMost | public/script.js:128-133 | no shortened form that fits the bound keeps a longer beginning |
| ClientScript.TruncateUrlIdempotent | public/script.js:128-133 | truncating twice with the same bound is truncating once, for every bound |
| ClientScript.IsSpreadsheetName | public/script.js:15 | an accepted name has at least four characters and a dot; the exact set of accepted names is `ClientScript.IsSpreadsheetNameIff` |
| ClientScript.LastDot | public/script.js:15 | the reference position of the extension: the last dot of the name, or none |
| ClientScript.LastDotAt | public/script.js:15 | a dot with no dot after it is the last dot |
| ClientScript.EndsWithExtensionIff | public/script.js:15 | a name ends with `.ext`, ignoring case, exactly when the text after its last dot is `ext` in lower case |
| ClientScript.IsSpreadsheetNameIff | public/script.js:15 | a file name is accepted exactly when its extension, in lower case, is `xlsx`, `xls` or `csv` |
| ClientScript.IsSpreadsheetNameAccepts | public/script.js:15 | `links.xlsx`, `LINKS.XLS` and `a.b.Csv` are accepted |
| ClientScript.IsSpreadsheetNameRejects | public/script.js:15 | `links.pdf`, `links.xlsx.pdf` and `links.csv.` are refused |

Some definitions have contracts that only spell out their own cases. They have no row of
their own; the rows above state their properties:

- `JsText.LowerAscii` (server.js:102, public/script.js:15): the case folding of the `i`
  flag on ASCII letters; see `JsText.LowerAsciiSame` and `Classifier.IsUrlIgnoresCase`.
- `Prober.Settle` (server.js:116-118, 133-135): `validateStatus: status < 500`; see
  `Prober.ProbeWorkingIff`, `Prober.HeadAnswerDecides` and `Prober.RejectionReportsStatus`.
- `Prober.StatusVerdict` (server.js:122-126, 138-142): see `Prober.ProbeWorkingIff`,
  `Prober.AnsweredVerdict` and `Prober.StatusReasonRoundTrip`.
- `Scanner.CellUrl` (server.js:47-52): see `Scanner.CellUrlIff`, `Scanner.PaddedUrlFound`
  and `Scanner.BlankOrFalsyNotFound`.
- `ClientScript.ClampIndex` (public/script.js:132): the index clamping of `substring`; see
  `ClientScript.Substring` and `ClientScript.TruncateUrl`.

## Left out

- The HTTP server, its routes, the upload handling and the deletion of the uploaded file
  (server.js:1-33, 70-71, 90-97, 160-164): I/O with no logic of its own. The `error`
  answer with status 500 is not modelled.
- Reading the workbook (server.js:27-34): the first worksheet is given as a map from
  (row, column) to cell value, with the inclusive range `decode_range` reads from `!ref`.
  The file format is not modelled.
- `encode_cell` (server.js:44, 58): a cell address stays the (row, column) pair. The
  `A1`-style text is not modelled.
- `String(cell.v)` for numbers, booleans and dates: a non-string value is given by its
  rendering and by whether it is falsy (`Scanner.CellValue.Scalar`).
- The network, timeouts and redirects of axios (server.js:113-119, 130-136): each request
  is given by its outcome, an HTTP status or a failure with a code and message. What
  makes a failure a timeout, or how redirects are followed, is not modelled.
- `await`: the scan probes one URL at a time, in order. `Scan` takes the probe as a pure
  function, so a network that answers differently on repeated requests is not modelled.
- The `status: 'success'` field of the answer (server.js:75, 83) is a constant and is not
  part of `ScanReport`.
- The `catch` branch of `isUrl` (server.js:104-106): `test` on a string cannot throw.
- Prober.ErrorReason: its own contract only bounds the reason to the possible values;
  the priority order is stated by `Prober.FaultVerdict` and `Prober.AnsweredVerdict`.
- JavaScript strings are sequences of UTF-16 code units; here a code unit is one `char`,
  which holds only outside the surrogate range (a Dafny `char` is a Unicode scalar value).
  Strings holding characters above U+FFFF, or lone surrogates, are not modelled: `length`
  and `substring` count a character above U+FFFF as two code units, so on such a URL
  `ClientScript.TruncateUrl` can differ from the script (which may also split a surrogate
  pair). `trim` and the two regular expressions are unaffected: none of the characters
  they look for lies above U+FFFF.
- Case folding covers the ASCII letters only. Without the `u` flag the `i` flag also folds
  non-ASCII letters onto each other (`/é/i` matches `É`), but never a non-ASCII character
  onto an ASCII one. Both patterns (server.js:102, public/script.js:15) are pure ASCII, so
  for them the ASCII folding decides exactly the same matches.
- `maxLength` is an integer; non-integer and non-numeric arguments of `truncateUrl` are
  not modelled.
- The browser script's DOM handling, `fetch`, result rendering and `escapeHtml`
  (public/script.js:1-14, 16-127, 135-140): user-interface code with no logic to prove.
