# Loyalty points admin dashboard — a Dafny model

The admin page of this loyalty-points web app lets an administrator do three things:

- **Adjust one customer's balance.** The administrator types an amount. It is added to the current points. A positive amount also credits the lifetime total `total_earned`.
- **Reset one customer's balance.** The current points go to zero and the lifetime total stays.
- **Bulk-import a CSV file.** Each line has the columns Email, Full Name, Mobile Number and Points. A line whose email matches exactly one profile has its name and mobile overwritten. When its points cell holds a number, both `points` and `total_earned` are set to that number: the import replaces balances, where the editor accumulates. Success and failure are counted per row.

This project models that logic. The hosted backend becomes an in-memory `Store` of two maps:

- `profiles`: the profile row of each user id;
- `balances`: the `customer_points` row of each user id.

Each remote call gets a `CallOutcome` chosen by the caller:

- `Done`: the call completed;
- `Rejected`: the backend answered with an error;
- `Thrown`: the awaited promise rejected.

The modules are:

- `Wrappers`: `Option`.
- `JsText`: JavaScript's `trim`, `split` and `join` on strings.
- `JsParseInt`: JavaScript's `parseInt`, including leading whitespace, a sign, the `0x` prefix and ignored trailing characters. It also renders integers in decimal, for the round trips.
- `Backend`: the store, the `CustomerData` view, lookup by email and the three kinds of update the page issues.
- `PointsEditor`: `handleUpdatePoints` and `handleResetPoints`.
- `CsvImport`: the CSV parsing of `handleCsvUpload` and its import loop. The loop is modelled as a fold that threads the store and the two counters. `Attempts` pairs each parsed row with the outcomes of its remote calls, which the caller of the model chooses. Rows beyond the given outcomes meet a backend whose calls all complete. The method `ProcessRow` follows the loop body statement by statement, with the store and both counters as mutable variables and a flag for the `catch`. The method `RunImport` calls it once per row and is proved to compute the fold.

## Model

| member | source | states |
|---|---|---|
| Backend.CustomerView | src/pages/Admin.tsx:99-106 | A customer is shown exactly when both its profile row and its points row exist. The view carries the profile's email, full name and mobile number, and the balance's points and lifetime total. |
| Backend.FindByEmail | src/pages/Admin.tsx:201-207 | The lookup finds `id` if and only if `id` is the one profile with that email. With no match or several matches there is no data. |
| Backend.FindByEmailSameEmails | src/pages/Admin.tsx:201-205 | The result of a lookup depends only on the emails, so updates that keep every email keep every lookup. |
| Backend.SetBalance | src/pages/Admin.tsx:128-134 | An update filtered on `user_id` replaces only that customer's balance. It creates no row and leaves profiles alone. |
| Backend.SetPoints | src/pages/Admin.tsx:154-157 | Writing only `points` keeps the row's lifetime total and touches no other row. |
| Backend.SetContact | src/pages/Admin.tsx:209-215 | The profile update replaces name and mobile, keeps the email and touches no other row. |
| PointsEditor.Credit | src/pages/Admin.tsx:126 | The credit to the lifetime total is the amount when it is positive and 0 otherwise. It is never below the amount. |
| PointsEditor.UpdatePoints | src/pages/Admin.tsx:112-151 | No customer selected or empty input: nothing happens. Input that `parseInt` reads as NaN is rejected with the store unchanged. The update is saved exactly when a number was read and the write completed. Only the edited customer's balance can change. A saved balance is the snapshot's points plus `d`, and the snapshot's total plus the credit. |
| PointsEditor.WriteAdjusted | src/pages/Admin.tsx:125-141 | The write reports success exactly when it completed. A failed write leaves the store as it was. |
| PointsEditor.ResetPoints | src/pages/Admin.tsx:153-172 | The reset succeeds exactly when the write completes. It sets the target's points to 0 and keeps its lifetime total. No other row changes. |
| PointsEditor.AdjustFromCurrentSnapshot | src/pages/Admin.tsx:125-134 | From a current snapshot, saving `d` moves the stored points by exactly `d` and the total by `max(d, 0)`. A non-positive `d` leaves the total unchanged. |
| PointsEditor.AdjustNeverLowersTotalEarned | src/pages/Admin.tsx:126-132 | From a current snapshot, whatever is typed and however the write ends, the lifetime total never falls. A stale snapshot can lower it, as `StaleSnapshotLosesUpdate` shows. |
| PointsEditor.AdjustHasNoLowerBound | src/pages/Admin.tsx:125-131 | No lower bound is enforced: subtracting one more than the balance leaves -1 points. |
| PointsEditor.StaleSnapshotLosesUpdate | src/pages/Admin.tsx:125-134 | Two saves from the same dialog snapshot: the second overwrites the first, and a credited total can fall back. |
| PointsEditor.ResetIdempotent | src/pages/Admin.tsx:153-157 | Resetting twice is the same as resetting once. |
| PointsEditor.ResetThenAdjust | src/pages/Admin.tsx:153-157 | After a reset and a re-fetch, adding `d` leaves `d` points. The total keeps its pre-reset value plus the credit. |
| JsText.TrimStartSpec | src/pages/Admin.tsx:195 | Trimming the start drops exactly the leading whitespace. |
| JsText.TrimEnd | src/pages/Admin.tsx:195 | Trimming the end keeps a prefix and drops only trailing whitespace. A non-empty result ends in a non-whitespace character. |
| JsText.Trim | src/pages/Admin.tsx:195 | A trimmed cell has whitespace at neither end. It is empty exactly when the cell was all whitespace. |
| JsText.TrimIsInfix | src/pages/Admin.tsx:195 | A trimmed cell is a slice of the cell, with only whitespace before it and only whitespace after it. |
| JsText.TrimAvoids | src/pages/Admin.tsx:195 | Trimming adds no character. |
| JsText.TrimOfTrimmed | src/pages/Admin.tsx:195 | Trimming a trimmed cell changes nothing. |
| JsText.TrimIgnoresPadding | src/pages/Admin.tsx:195 | Whitespace padding around a cell does not change its trimmed value. |
| JsText.Split | src/pages/Admin.tsx:186 | `split` yields one more part than there are separators. |
| JsText.SplitAvoids | src/pages/Admin.tsx:186 | No part contains the separator. |
| JsText.JoinSplit | src/pages/Admin.tsx:186 | Joining the parts back with the separator restores the text. |
| JsText.SplitJoin | src/pages/Admin.tsx:186 | Splitting undoes joining for parts without the separator. |
| JsText.SplitAround | src/pages/Admin.tsx:186 | Splitting around one separator splits each side independently. |
| JsParseInt.DigitPrefix | src/pages/Admin.tsx:115 | `parseInt` reads the longest run of digits: the run is a prefix, all digits, and stops before a non-digit. |
| JsParseInt.ParseInt | src/pages/Admin.tsx:115-116 | Blank input is NaN. |
| JsParseInt.ParseIntDecimal | src/pages/Admin.tsx:115-116 | Round trip: `parseInt` reads back the decimal rendering of any integer, followed by any text that does not start with a digit. After the rendering of 0, that text must also not start with `x` or `X`, because `0x` begins a hexadecimal number and `parseInt("0xq")` is NaN. |
| JsParseInt.ParseIntHex | src/pages/Admin.tsx:115-116 | `parseInt` also reads a `0x`-prefixed hexadecimal number. |
| JsParseInt.ParseIntSkipsWhitespace | src/pages/Admin.tsx:115-116 | Leading whitespace does not change what is read. |
| JsParseInt.ParseIntNeedsDigit | src/pages/Admin.tsx:115-116 | Text without any decimal digit is NaN. |
| JsParseInt.DigitsValueOfNatToDigits | src/pages/Admin.tsx:115 | The digit value of a rendering of `n`, in base 10 or 16, is `n`. |
| CsvImport.ParseCsv | src/pages/Admin.tsx:186-189 | There are at most as many data rows as lines after the header. |
| CsvImport.ParseCsvClean | src/pages/Admin.tsx:186-195 | Every parsed cell is trimmed and holds no comma or newline. |
| CsvImport.HeaderIsDiscarded | src/pages/Admin.tsx:188-189 | The first line never yields a row, whatever it holds. |
| CsvImport.ShortLineIsDropped | src/pages/Admin.tsx:189 | A line with fewer than four cells, between two line breaks, contributes nothing, wherever it sits after the header. |
| CsvImport.ShortLastLineIsDropped | src/pages/Admin.tsx:186-189 | A short last line contributes nothing either. This covers the empty line that `split` yields after a final newline. |
| CsvImport.ExtraCellsIgnored | src/pages/Admin.tsx:195 | Cells after the fourth are ignored. |
| CsvImport.ParseLinesAppend | src/pages/Admin.tsx:186-189 | Lines are parsed independently of one another. |
| CsvImport.ParseRender | src/pages/Admin.tsx:186-195 | Round trip: parsing a file with a header and one line per clean row gives back the rows. |
| CsvImport.ParseRenderTrailingNewline | src/pages/Admin.tsx:186-189 | The round trip also holds when the file ends in a newline. |
| CsvImport.NullIfEmpty | src/pages/Admin.tsx:212-213 | A cell becomes null exactly when it is empty. Any other cell is kept as it is. |
| CsvImport.PointsCell | src/pages/Admin.tsx:217-219 | The amount written is what `parseInt` reads from the cell, and an empty cell writes nothing. So the `if (points)` guard changes nothing. |
| CsvImport.ImportRow | src/pages/Admin.tsx:194-236 | A row with an empty email touches neither counter nor the store. Any other row adds exactly one to one counter. A row without a unique match leaves the store alone and is not a success. A row changes at most the matched customer, and never an email. |
| CsvImport.ImportRowMatched | src/pages/Admin.tsx:207-229 | A matched row with completed calls is a success. Its name and mobile are replaced, with empty cells becoming null. Both balances become the parsed points, or stay as they were when the cell does not parse. |
| CsvImport.RejectedWritesStillCountAsSuccess | src/pages/Admin.tsx:209-229 | The write results are never inspected: a matched row whose two updates both return an error changes nothing and is still a success. |
| CsvImport.ThrowAfterProfileUpdate | src/pages/Admin.tsx:209-235 | A row that throws on its points write keeps its profile update, writes no balance and counts as an error. |
| CsvImport.ThrownLookupDoesNotStopLaterRows | src/pages/Admin.tsx:194-236 | A row whose lookup throws is one error, and the rows after it run from the same store. |
| CsvImport.ImportAll | src/pages/Admin.tsx:191-237 | Over the whole loop, the two counters together grow by exactly the number of rows with an email. Both are monotone, and every email is kept. |
| CsvImport.ImportAllAppend | src/pages/Admin.tsx:194-237 | Importing `a + b` is importing `a` and then `b`: a failing row does not stop later rows. |
| CsvImport.ImportLeavesOthersAlone | src/pages/Admin.tsx:201-226 | A customer whose email no row names comes out of the import unchanged. |
| CsvImport.ImportAllMatched | src/pages/Admin.tsx:207-229 | When every row matches one profile and every call completes, every row is a success and no error is counted. |
| CsvImport.ImportCsv | src/pages/Admin.tsx:179-237 | The two counters together never exceed the number of filtered data rows, and no email changes. |
| CsvImport.ProcessRow | src/pages/Admin.tsx:195-236 | The loop body, with in-place updates of the store and both counters and a flag for the `catch`, does exactly what one fold step `ImportRow` does. |
| CsvImport.RunImport | src/pages/Admin.tsx:191-237 | The loop over the data rows, with counters starting at zero, computes the fold `ImportCsv`. Its counters are bounded by the number of data rows. |
| CsvImport.ImportWellFormedFile | src/pages/Admin.tsx:186-229 | A file with a header and N clean rows, each matching one profile, with all calls completing, reports N successes and no error, whether or not it ends in a newline. |
| CsvImport.ReplaceVersusAccumulate | src/pages/Admin.tsx:217-226 | The same amount is added by the editor but overwrites both balances in the import. |
| CsvImport.ImportCanLowerTotalEarned | src/pages/Admin.tsx:222-224 | Unlike the editor, an import can lower the lifetime total. |

## Left out

- Authentication, the `user_roles` admin check, sign-out and navigation (`checkAdminStatus`, `handleSignOut`, `src/pages/AdminLogin.tsx`). They only talk to the hosted service and move between pages.
- `fetchCustomers` beyond the inner-join view of one customer. The ordering by `total_earned` and the re-fetch after each save are display concerns. A re-fetch is modelled as taking a current snapshot with `CustomerView`.
- React state, dialogs, toasts, console logging and rendering of the page, and the components `SharePanel`, `AppSidebar` and `LoadingScreen`. These are browser and UI library calls with no logic of their own.
- `scripts/generate-favicons.js`: image resizing and file I/O.
- The `FileReader` and the `async` interleaving of the handlers. Each handler runs to completion in the model. Concurrent admins are not modelled. The effect of a stale dialog snapshot is modelled, in `StaleSnapshotLosesUpdate`.
- The backend's behaviour is a parameter: a `CallOutcome` per call, chosen by the caller. `Rejected` means the call answered with an error and wrote nothing. `Thrown` means the awaited promise rejected, also without a write.
- JsParseInt.ParseInt: integers are unbounded. JavaScript numbers lose precision above 2^53 and overflow to Infinity, and neither is modelled.
- PointsEditor.UpdatePoints: the sums `points + d` and `total_earned + max(d, 0)` are unbounded integers. The backend's column width and JavaScript's floating-point addition are not modelled.
- JsText.Trim: strings are sequences of code points. JavaScript strings are UTF-16 code units, which differs only for characters outside the Basic Multilingual Plane. None of them is whitespace, a comma or a newline.
- The `customer_points` row of a matched profile may be missing. The points write then changes nothing, as an update filtered on a missing key does in the backend.
