# School meal service: model and proofs

A client and a server exchange `//`-separated text over TCP. The server keeps users and child links in SQLite, looks
schools and menus up at NEIS, and formats menus into fixed buffers. This project models the parts that carry loops,
shared state or arithmetic, and proves what they keep over every input, run or interleaving.

Modules, in dependency order:

- `CStrings`: one Dafny `char` per C `char` (UTF-8 written byte by byte). `Tokens` is the pure meaning of splitting at
  a *set* of delimiter bytes; the class `Strtok` is the library call with its saved position and its NUL writes, proved
  to hand out exactly those tokens.
- `MenuFormat`: the in-place tokenise, cut, trim and append loops, proved equal to a pure split, clean, filter and
  print pipeline, with exact length bounds for the fixed buffers.
- `Calendar`, `Gates`: date validation, day numbers against successor counting, and where the client's 365/30 day
  count and the server's exact count part ways.
- `LineInput`: validators and the readers over standard input, those that drain a long line and those that do not.
- `ConnectionTable`, `Connections`: the accept loop and handler threads as a step system over the shared slot array, one lock and the
  operating system's table of handles, which may reuse closed values.
- `Accounts`, `Schema`: the tables as a map of users and a set of child links, and the rows beneath them, where a
  statement takes its raw effect and is rolled back when a declared key is violated.
- `Protocol`, `Service`, `Requests`, `Dispatcher`: the wire format, what one request does, the answer to each request in
  terms of its words on the wire, and the handler's loop, which parses in place in its receive buffer and executes on
  the database's rows.
- `Race`: registrations, logins and child-link requests of several handler threads interleaved at their database steps.
- `Streams`: the partial-send loop and the delimiter-terminated receive, over a script of socket outcomes.
- `Sessions`, `TokenPrefixes`, `Delivery`, `Pieces`, `Client`, `Meals`: whole runs, from a registration to the client's
  session and its next meal query, with the stream cut anywhere in either direction.

What the proofs show about the code that its documentation does not say:

- The two 7-day checks disagree. The client accepts and the server refuses eight days over the end of a 31-day month
  other than December; the client refuses and the server would serve some ranges over the end of February or December.
  The refusal arrives as "meal not found", not as the `TOO_LONG_PERIOD` of `protocol.md`.
  For end dates the server's `mktime` does not know (before 1970, after 3000 on Windows) its check is void.
- A child-meal request, as the client's functions print it, is always answered "invalid request": the child's id arrives
  in the position the dispatcher reads as a password. (The built client never sends one: all of `client/menu_parent.c`
  is inside a comment.)
- A registration whose INSERT fails is never answered. Two threads registering one id at the same time reach it, and so
  does a single client that registers an id of 20 bytes or more twice in a row, without any fault.
- The server takes what one `recv` brings for a whole request. A login is therefore granted exactly when that `recv`
  ends where the stored password does: a right password cut short is refused, and a wrong one that only adds to the
  stored one is granted if it is cut just there ("12345" against a stored "1234").
- `receive_response` stops at the first `//`, which is the second and third byte of every reply. A granted login
  therefore works as meant exactly when the `recv` that brings these bytes ends where the reply does, and nothing an
  earlier reply left unread spoils the status before it. With less, `handle_login` can report failure and yet leave the
  user id set, which is what the client's main loop takes for being logged in; with more, the role takes in the next
  reply's status.
- A login reads the database twice. With an UPDATE of another thread in between, it is granted with codes that go with
  a password it did not give. ADD_CHILD looks before it inserts: a child deleted in between is reported as a database
  error instead of as missing.
- Nine-byte date buffers accept longer lines whose first eight bytes are a date.
- The login menu reads with plain `fgets`: one line too long for its buffer shifts every later read.
- A password is cut to 19 bytes when stored, but that of a LOGIN is compared whole: after an UPDATE with a longer one,
  a LOGIN that sends the same password is refused.
- Passwords are stored unhashed, ids hold at most 19 bytes and statuses are `1` and `0`, where `README.md` and
  `protocol.md` of the repository say SHA-256, 32 characters and `SUCCESS`/`ERROR`. The model follows the code.

`dafny verify dfyconfig.toml` checks the whole project.

## Model

| member | source | states |
|---|---|---|
| `CStrings.Strtok.Next` | server/neis_api.c:252-280 | One strtok call: it skips delimiters, hands out the first token of the rest, overwrites only the byte after that token, and leaves exactly the other tokens; false means none was left. |
| `CStrings.TakeTokens` | server/server.c:48-98 | `count` calls in a row return pointers to the first tokens of the text, each still NUL-terminated and intact after the later calls. |
| `CStrings.TokensSplit` | server/neis_api.c:252 | A delimiter byte separates: the tokens of `a d b` are those of `a` followed by those of `b`. With `TokensOfOne` this determines `Tokens`. |
| `CStrings.TokensOfOne` | server/neis_api.c:252 | A nonempty string without delimiters is its own only token. |
| `CStrings.TokensOfJoin` | client/handlers.c:36-37 | Splitting undoes joining with a separator made of delimiters, except that empty fields vanish. |
| `MenuFormat.CleanInPlace` | server/neis_api.c:256-270 | Cutting at `(` and trimming where the token lies leaves the cleaned token between the returned positions and changes no byte outside the token. |
| `MenuFormat.AppendItems` | server/neis_api.c:252-281 | The whole loop, NUL writes inside the current token included, appends exactly one bullet line for each kept item of the pure pipeline, in order. |
| `MenuFormat.FormatDaily` | server/neis_api.c:234-283 | Whenever that text fits 2000 bytes, the caller's buffer ends up holding exactly header, date line and the bullets of the pure pipeline. |
| `MenuFormat.FormatEntry` | server/neis_api.c:388-429 | One period entry is its date line followed by the pipeline's bullets, whenever that fits 512 bytes. |
| `MenuFormat.FormatPeriod` | server/neis_api.c:373-436 | Whenever no write leaves a buffer, the caller's buffer holds header and every entry in row order. |
| `MenuFormat.AppendedAtMost` | server/neis_api.c:252-281 | A menu of n bytes appends at most 3(n+1) bytes, 3n+1 when n is even and positive. |
| `MenuFormat.AppendedAttained` | server/neis_api.c:252-281 | For every n some menu of n bytes appends exactly that many. |
| `MenuFormat.DailyFits` | server/neis_api.c:234-283 | Every menu of n bytes gives a daily text that fits 2000 bytes if and only if n is at most 646. |
| `MenuFormat.EntryFits` | server/neis_api.c:391-426 | Every menu of n bytes gives an entry that fits 512 bytes if and only if n is at most 161. |
| `MenuFormat.ReportFitsExactly` | server/neis_api.c:373-436 | The report buffer is safe exactly when every entry fits 512 bytes and header plus entries plus one newline each fit 2000; it then holds all of them, so strncat never clips a report that is returned. |
| `MenuFormat.ItemsAreClean` | server/neis_api.c:252-281 | Kept items are nonempty, without delimiter, parenthesis or outer space. |
| `MenuFormat.CleanKeeps` | server/neis_api.c:255-270 | Whatever spaces stand around an item and whatever is parenthesised behind it, cleaning leaves exactly the item. |
| `MenuFormat.CleanCutsTail` | server/neis_api.c:255-260 | A parenthesis and everything behind it do not count. |
| `MenuFormat.CleanSkipsSpace` | server/neis_api.c:262-264 | Nor does a space in front. |
| `MenuFormat.CleanDropsSpace` | server/neis_api.c:265-270 | Nor does one behind, where there is no parenthesis. |
| `MenuFormat.ItemsSplit` | server/neis_api.c:252-280 | At every delimiter byte the items are those before it and then those behind it. |
| `MenuFormat.ItemKept` | server/neis_api.c:255-278 | Between delimiters an item with outer spaces and any parenthesised tail is kept as exactly that item. |
| `MenuFormat.RiceIsKept` | server/neis_api.c:255-278 | An input: "Rice(1.5)" is kept as "Rice". |
| `MenuFormat.BulletsSplit` | server/neis_api.c:275-277 | The lines of two lists of items are the lines of the one and then of the other; with `BulletLine` this determines them. |
| `MenuFormat.BulletLine` | server/neis_api.c:275-277 | One item's line is the bullet, a space, the item and a newline. |
| `MenuFormat.DailySpelled` | server/neis_api.c:241-249 | Header, calendar sign, then year, month and day each before its own mark, an empty line, the items. |
| `MenuFormat.EntrySpelled` | server/neis_api.c:393-426 | The same of a period entry. |
| `MenuFormat.ReportSplit` | server/neis_api.c:376-434 | A report's entries stand in row order behind its header. |
| `MenuFormat.FormattingIsStable` | server/neis_api.c:388-429 | Joining a menu's items with `<br/>` and formatting again gives the same items. |
| `Calendar.NextDayCountsOne` | server/neis_api.c:117-131 | The next calendar day is a date again and its day number is one more. |
| `Calendar.AfterCounts` | server/neis_api.c:117-131 | n successor steps add exactly n to the closed-form day number. |
| `Calendar.GregorianCycle` | server/neis_api.c:117-131 | Four hundred years have 146097 days and repeat their leap years. |
| `Calendar.KnownYears` | client/input_util.c:97-111 | Inputs: the leap years among 1900, 2000, 2023, 2024 and 2100, and the months of 2023. |
| `Calendar.DayNumberIncreases` | server/neis_api.c:126-131 | The day number is strictly increasing in the calendar order. |
| `Calendar.ValidateDateFormat` | client/input_util.c:71-114 | True exactly for the eight-digit numerals of dates reached by counting days from 1 January 1900, up to the year 9999. |
| `Calendar.ValidDateNames` | client/input_util.c:71-114 | The field checks (leap years, month lengths) and that description by counting agree, in both directions. |
| `Calendar.NumeralOfParse` | client/input_util.c:201-202 | Printing the three parsed numbers gives the string back. |
| `Calendar.ParseNumeral` | client/input_util.c:201-202 | Parsing a printed date gives the date back. |
| `Calendar.StrCmpIsDateOrder` | client/input_util.c:193 | On valid dates strcmp orders as the calendar does. |
| `Gates.DaysBetweenCounts` | server/neis_api.c:126-131 | Between dates mktime knows, the server's truncated seconds quotient is the number of elapsed days plus one. |
| `Gates.ServerRefusesExactly` | server/neis_api.c:117-131 | For all dates, known to mktime or not, exactly when the server's check refuses: never an end it does not know, and a start it does not know counts as the second before 1970. |
| `Gates.ElapsedNextMonth` | client/input_util.c:203-206 | Over one month end the exact count uses the month's length, the client's uses 30, or 35 in December. |
| `Gates.ApproximationError` | client/input_util.c:203-206 | On any two dates the client's count errs by the leap days it ignores and at most six days more. |
| `Gates.GatesDisagree` | client/input_util.c:203-211 | Both directions, all ordered dates: exactly which ranges one check passes and the other stops. |
| `Gates.ClientRange` | client/input_util.c:192-211 | Accepted ranges lie in one month or two adjoining ones and have at most 8 days, 8 exactly for difference 6 over the end of a 31-day month other than December. |
| `Gates.AcceptedThenRefused` | server/neis_api.c:303-308 | For the strings sent, in all accepted years: an accepted period is refused by the server exactly when mktime knows both dates and its eight days run over the end of a 31-day month other than December. |
| `Gates.RefusedButServable` | client/input_util.c:192-211 | Exactly which ordered valid dates the client turns away although the server's check passes, those mktime does not know included. |
| `Gates.AcceptedThenRefusedAt` | server/neis_api.c:303-308 | An input: 25 January to 1 February 2024 passes the client and is refused by the server. |
| `Gates.RefusedButServableAt` | client/input_util.c:207-211 | An input: 26 February to 3 March 2023 is refused by the client and would pass the server. |
| `Gates.RefusedOverNewYearAt` | client/input_util.c:207-211 | An input: the same of 30 December 2023 to 2 January 2024. |
| `Gates.UnknownYearsPassAt` | server/neis_api.c:117-131 | An input: the eight days from 25 January 1960 pass both checks. |
| `LineInput.IsValidId` | client/input_util.c:132-143 | True exactly for 4 to 16 letters and digits. |
| `LineInput.IsValidPassword` | client/input_util.c:117-129 | True exactly for four digits. |
| `LineInput.Stdin.Fgets` | client/input_util.c:56 | At most size - 1 bytes, up to and including a newline, NUL-terminated; what is not returned stays pending. |
| `LineInput.Stdin.ClearInputBuffer` | client/input_util.c:46-51 | Consumes the rest of the line and its newline. |
| `LineInput.Stdin.SafeInput` | client/input_util.c:54-68 | Consumes exactly one line and leaves its first size - 1 bytes in the buffer. |
| `LineInput.ReadsStayAligned` | client/input_util.c:54-68 | Over any lines and buffer sizes, call k reads line k, cut to its buffer. |
| `LineInput.Stdin.AskUntilValid` | client/input_util.c:236-301 | The asking loop returns the first valid reading and stops after its line. |
| `LineInput.ReaderTakesValidLines` | client/input_util.c:236-301 | When valid texts leave a byte to spare, that reading is the first line that is itself valid. |
| `LineInput.ReaderOverLines` | client/input_util.c:236-301 | Over typed lines, the first that is valid when cut to the buffer is taken, and every line after it is still to come. |
| `LineInput.CallSites` | client/input_util.c:236-301 | So it is at the buffer sizes of the id, password and office readers. |
| `LineInput.Stdin.GetDateInput` | client/input_util.c:146-160 | Consumes one line; succeeds exactly when its first eight bytes at most are a valid date, or, at end of input, when what the buffer already held is one. |
| `LineInput.DateReaderAccepts` | client/menu_general.c:19-34 | A nine-byte buffer accepts exactly the lines whose first eight bytes are a date, and names the longer ones among them. |
| `LineInput.NineDigitsAt` | client/menu_general.c:19-34 | An input: a nine-digit line taken for a date. |
| `LineInput.Stdin.GetPeriodInput` | client/input_util.c:163-214 | The second line is read only after a valid first date; success is exactly the client's gate on the two texts, those left in the buffers at end of input included. |
| `LineInput.Stdin.PlainInput` | client/menu.c:79-84 | fgets cut at its newline: what the menu stores and what it leaves pending; at end of input the old text, cut. |
| `LineInput.PlainReadsAligned` | client/menu.c:101-140 | Such reads leave exactly the later lines if and only if each line met so far fitted its buffer together with its newline. |
| `LineInput.LongLineAt` | client/menu.c:101-128 | An input: a line of 20 bytes in a buffer of 20, whose last byte the next read gets. |
| `ConnectionTable.StepKeepsInv` | server/server.c:614-644 | Every step of main or a handler keeps the invariant on slots, lock, open handles and owners. |
| `ConnectionTable.RunKeepsInv` | server/server.c:598-645 | So every run from the start does. |
| `ConnectionTable.SlotsHoldOpenHandles` | server/server.c:614-640 | Nonzero slots are pairwise distinct, and one holds an open handle exactly when it is not the slot main is about to zero after a failed thread start. |
| `ConnectionTable.HandlerReadsItsHandle` | server/server.c:31 | However late it starts, a handler reads through its pointer the handle accepted for it. |
| `ConnectionTable.HandlerReleasesItsSlot` | server/server.c:441-450 | A handler's search zeroes its own slot and changes no other. |
| `ConnectionTable.ConnectionsAccounted` | server/server.c:440-453 | No handle is closed twice; each accepted connection is closed, or in main's hands, or served by exactly one handler. |
| `ConnectionTable.TurnedAwayOnlyWhenFull` | server/server.c:615-631 | A connection is turned away only if at the end of the scan, under the lock, all ten slots were taken, each held by a handler. |
| `ConnectionTable.AtMostTen` | server/server.c:615-624 | At most ten handlers hold a slot. |
| `Connections.PlacedIsServed` | server/server.c:633-644 | A connection that found a slot and whose thread is created is served: nothing is closed, exactly one handler is added, for this connection and slot. |
| `Connections.FailedIsUndone` | server/server.c:635-640 | Without a thread, and only then, the placed connection is closed and its slot zeroed. |
| `Connections.FullIsClosed` | server/server.c:626-631 | A connection that found no slot is closed. |
| `Connections.MainGoesOn` | server/server.c:598-624 | Up to there main takes any new handle, waits for the lock only, and puts it in the first zero slot. |
| `Connections.HandlerGoesOn` | server/server.c:29-32 | From every reachable state a handler's next step: read the handle accepted for it, stop, lock, search up to its own slot, zero it, unlock, close its connection, exit. |
| `Connections.ClosedForAReason` | server/server.c:440-453 | In every run a closed connection was closed by its own handler, or turned away after a scan under the lock that found all ten slots taken, or given up after its thread could not be created. |
| `ConnectionTable.CloseFirstFails` | server/server.c:441-452 | Why clearing precedes closing: with the order swapped and a handle value reused, a run ends with a handler clearing a newer connection's slot and that one's handler reading 0. |
| `Schema.CommitMeans` | server/db_handler.c:16-51 | Raw effects on rows, rolled back when a declared primary or foreign key is violated, come to exactly the guarded operations on the map: an INSERT fails exactly for a stored id, a DELETE exactly for a linked user, a link exactly when an end is missing or the pair is there. |
| `Schema.MeaningIsSound` | server/db_handler.c:44-51 | Whatever file is opened, the declared keys put both ends of every child link in `users`. |
| `Schema.Database.Execute` | server/db_handler.c:128-136 | A statement in place on the rows, with its rollback, is the map operation and keeps every key. |
| `Schema.Database.AddUser` | server/db_handler.c:110-137 | Succeeds exactly for a new id, absent a fault; then only that row is added, otherwise nothing changes. |
| `Schema.Database.DeleteUser` | server/db_handler.c:246-273 | Refused exactly for a user some link names, absent a fault, with nothing changed; otherwise at most that user goes. |
| `Schema.Database.DbAddChild` | server/db_handler.c:359-383 | Succeeds exactly when both ends are users and the pair is new, though only the child is looked up first. |
| `Accounts.RoleLasts` | server/db_handler.c:212-244 | A user's row and role last until a statement removes the row. |
| `Protocol.DecodeOfPrint` | server/server.c:48-98 | The dispatcher recovers exactly the arguments the client printed, in order, for the command it printed. |
| `Requests.FieldsOfPrint` | server/server.c:48-98 | For each of the client's requests, each printed field in its own variable, written out, the others NULL. |
| `Requests.MessageOf` | client/handlers.c:36-197 | The bytes of each message: command word, then the fields in the client's order. |
| `Requests.CommandWords` | server/server.c:100-437 | The words themselves. |
| `Requests.ReplyOf` | server/server.c:495-511 | The bytes of each reply. |
| `Protocol.PeriodReturns` | server/server.c:393-394 | `start-end` splits back into its two eight-digit dates. |
| `Requests.SplitPeriodExactly` | server/server.c:393-394 | For all period texts: the split succeeds exactly when there are at most ten bytes before the first `-` and, white space skipped, some before the next, and gives these two halves, each cut at ten bytes. |
| `Protocol.PrintInjective` | client/handlers.c:148-165 | Distinct printable requests, of whatever commands, have distinct messages. |
| `Protocol.ChildIdNeverFilled` | client/handlers.c:176-197 | For all slash-free fields, empty ones too, the two child-meal messages leave `child_id` NULL. |
| `Protocol.PlainReplyTokens` | server/server.c:506 | A reply without data splits into status and message. |
| `Protocol.LoginReplyTokens` | server/server.c:109-111 | A granted login's reply splits into status, message, office, school and role. |
| `Service.OneReply` | server/server.c:47-437 | At most one reply per request, and none exactly for a registration that passed its checks and whose INSERT failed. |
| `Service.AnsweredWithoutFaults` | server/server.c:128-149 | Without database faults, and for ids of at most 19 bytes, every message gets exactly one reply. |
| `Requests.MissingArguments` | server/server.c:100-437 | Each command is answered "invalid request" exactly when it has too few arguments, and then changes nothing. |
| `Requests.UnknownWord` | server/server.c:434-437 | A word that names no command is answered so. |
| `Requests.NoWord` | server/server.c:48-55 | A message of slashes alone is answered "invalid request". |
| `Requests.LoginAnswered` | server/server.c:100-127 | On any tables, without faults: granted with the row's codes and role exactly when the id is stored with the password sent, else refused; nothing changes. |
| `Requests.RegisterAnswered` | server/server.c:128-149 | On any tables, without faults: the exact new row, or which refusal, or silence. |
| `Requests.UpdateAnswered` | server/server.c:150-194 | On any tables, without faults: exactly the row of the id (cut to 19 bytes) gets the password and the looked-up codes and keeps its role; an unknown school is refused. |
| `Requests.DeleteAnswered` | server/server.c:195-213 | On sound tables, without faults: an id no link names loses its row and success is told; a linked one stays, with the database error. |
| `Requests.PrintedUpdate` | client/handlers.c:310-317 | The same of the client's UPDATE of a stored id, in the fields it printed. |
| `Requests.PrintedDelete` | client/handlers.c:348-353 | The same of the client's DELETE, and that no LOGIN of the deleted id succeeds after it. |
| `Requests.PrintedLogin` | client/handlers.c:36-37 | The same of the client's LOGIN, on any tables. |
| `Requests.FailedStatement` | server/server.c:128-290 | A statement that meets a database fault changes nothing and is never told to have succeeded. |
| `Requests.FailedLogin` | server/server.c:104-121 | What a login is told when its password check or its row look-up fails to run. |
| `Requests.GetChildrenAnswered` | server/server.c:214-246 | Always the database error. |
| `Requests.AddChildAnswered` | server/server.c:247-268 | Parent from the first argument, child from the sixth; the exact new link or which refusal. |
| `Requests.DelChildAnswered` | server/server.c:269-290 | Removes exactly the pair, or refuses an unregistered one. |
| `Requests.ChildMealAnswered` | server/server.c:291-324 | For a registered child the cached meal at its codes and the date of the fifth argument. |
| `Requests.ChildMultiMealAnswered` | server/server.c:325-351 | Success without data for a registered child and a period that splits. |
| `Requests.MealAnswered` | server/server.c:352-388 | Which school and day is queried, and the answer. |
| `Requests.MultiMealAnswered` | server/server.c:389-433 | In which order period, school, day count and meals are checked, and the answer. |
| `Service.ChildRequestsRefused` | server/server.c:293-350 | Each child-meal request of the client is answered "invalid request" and the tables stay as they were. |
| `Service.PeriodQueryServed` | server/server.c:389-433 | A printed period query reaches the meal service with the client's own dates unless the server's day count stops it. |
| `Service.AcceptedPeriodRefused` | server/neis_api.c:303-308 | A period the client accepted and the service has data for is answered "meal not found" exactly when mktime knows both dates and its eight days cross a long month's end. |
| `Service.SilentWithoutFaults` | server/server.c:128-149 | Without faults a request goes unanswered exactly when it registers an id of 20 bytes or more whose first 19 are a stored id, the whole not being one, with a known school. |
| `Service.LongIdTwice` | server/server.c:456-493 | Any long id registered twice in a row: the first is accepted, the second never answered. |
| `Service.TwentyByteId` | server/server.c:456-493 | An input: one such id on the empty tables. |
| `Sessions.RowAfterAll` | server/server.c:150-194 | Over any run without a DELETE of the id, its row holds the latest registered or updated password and codes, role GENERAL. |
| `Sessions.RegisterStores` | server/server.c:456-493 | A registration answered REGISTER_OK was of a new id and stored its row. |
| `Sessions.LoginServed` | server/server.c:100-127 | For an id whose row holds these credentials, a login is granted with exactly these codes for the stored password and refused for any other (for any tables: `Requests.PrintedLogin`). |
| `Sessions.LoginUnderstood` | client/handlers.c:53-77 | The client fills its session exactly from a granted login's reply and leaves it alone on a refusal. |
| `Sessions.EndToEnd` | client/handlers.c:33-80 | After a successful registration and any run without a DELETE of the id, a LOGIN read whole with the latest password as stored (cut to 19 bytes) logs in with exactly that id, the latest codes and role GENERAL; one with any other leaves the session unchanged. |
| `Sessions.PrintedEvents` | server/server.c:150-213 | Of the printed requests only a DELETE of the id deletes it, and exactly an UPDATE of it with a known school sets the latest password (cut) and codes. |
| `Sessions.UpdatedPassword` | server/server.c:165-171 | The password printed in an UPDATE logs in exactly when it is shorter than 20 bytes. |
| `Sessions.TwentyBytePassword` | server/server.c:165-171 | An input: a password of 20 bytes is accepted by UPDATE and refused by the LOGIN that sends it. |
| `Sessions.RequestRunsKeepSound` | server/db_handler.c:44-51 | Every run of requests on sound tables keeps both ends of every child link in `users`. |
| `Dispatcher.Server.ParseRequest` | server/server.c:48-98 | The strtok calls over the receive buffer fill the variables exactly as the pure decoding says. |
| `Dispatcher.Server.HandleRequest` | server/server.c:45-437 | One received request, parsed in place and executed on the rows, turns the tables into, and appends the replies of, the pure `Serve`. |
| `Dispatcher.Server.HandleClient` | server/server.c:34-438 | The loop over one buffer serves any sequence of requests as `Serve` does one after the other; bytes of earlier requests are never read. |
| `Race.RunsStayBalanced` | server/db_handler.c:24-32 | In every interleaving, from any tables, rows present at the start and inserted balance those removed and still there, and every insertion is answered once or about to be. |
| `Race.AtMostOneSuccess` | server/server.c:132-142 | Registrations of an id answered with success outnumber its deletions by one at most, and not at all when the id had a row at the start. |
| `Race.DeletionBetween` | server/server.c:483-492 | From any tables, between two successful insertions of an id lies a deletion of it, whatever the existence checks saw. |
| `Race.BothPassTheCheck` | server/server.c:132-142 | The check does not decide: two threads pass it for one id, one is answered, the other never is. |
| `Race.UninterruptedIsServe` | server/server.c:128-149 | The steps taken without interruption give the tables and the answer of the sequential handler. |
| `Race.UninterruptedRuns` | server/server.c:128-149 | And those steps are a run of one thread of the interleaved system. |
| `Race.ExecuteIsServe` | server/server.c:150-213 | An UPDATE or DELETE in one step changes the tables as the sequential handler does. |
| `Race.InterleavedLogin` | server/server.c:104-117 | What a login with the right password is told whatever other threads do before its row is fetched: the row as it then is; granted with the role it had unless the id was deleted, and as if alone unless it was updated either. |
| `Race.LoginMixesStates` | server/server.c:104-117 | With an update in between, the answer is one that a login alone gets in neither the state before nor the state after. |
| `Race.InterleavedAddChild` | server/server.c:247-263 | What an ADD_CHILD whose child was found is told, whatever comes in between: success exactly when both ends then are users and the pair is new, else the database error; as if alone unless the ids or a link were touched. |
| `Race.AddChildMixesStates` | server/server.c:251-262 | With the child deleted in between, the answer is one that neither state gives to a request of its own. |
| `Race.InterleavedDelChild` | server/server.c:269-284 | A DEL_CHILD whose link was found succeeds and the link is gone, even if another thread had removed it first. |
| `Race.RunsKeepSound` | server/db_handler.c:44-51 | In every interleaving both ends of every child link stay users. |
| `Streams.PushCount` | client/network.c:43-73 | The send loop hands over as many bytes as the rounds before the first failure take, never more than there are. |
| `Streams.SteadySend` | client/network.c:43-73 | With a ready socket that takes at least a byte each time, all is sent, in however many pieces. |
| `Streams.BrokenSend` | client/network.c:59-69 | A failed select or send stops it there, and it fails unless everything had gone. |
| `Streams.Connection.SendData` | client/network.c:43-73 | The bytes sent are a prefix of the data, in order; true exactly when all of them were. |
| `Streams.GatherSound` | client/network.c:124-145 | The bytes read and those left make up the stream, and the stop is at a delimiter, a full buffer, the close or an error as reported. |
| `Streams.GatherEndedBy` | client/network.c:126-136 | A close or an error reported is that of the last recv made. |
| `Streams.ResponsesArePrefix` | client/network.c:102-155 | Under any chunking, successive responses concatenate to a prefix of the stream, and each holds `//`, fills the buffer or ends at the close. |
| `Streams.Connection.ReceiveResponse` | client/network.c:102-155 | The loop over its buffer returns that response and leaves the rest of the stream unread. |
| `Streams.StopsAt` | client/network.c:124-145 | Under every script, receive_response ends exactly with the recv that brings the end of the first `//` of the stream; without one it has read less than that. |
| `Streams.ReplyArrivesWhole` | client/network.c:124-145 | Under every script, the response is the reply exactly when that recv ends where the reply does. |
| `Streams.WithoutDelimiter` | client/network.c:128-154 | A stream without `//` that ends in a close is still the response; one that breaks off is none. |
| `Delivery.LoginWithPart` | client/handlers.c:53-79 | What each part of a granted login's reply does, behind whatever an earlier message left unread: nothing, a failure that has already stored the id, or success with part of the role. |
| `Delivery.LoginWithMore` | client/handlers.c:53-79 | With bytes of a further reply read as well, the role is too long. |
| `Delivery.FieldsClipped` | client/handlers.c:53-76 | Whatever fields a granted reply holds, each lands in its own buffer, cut to it. |
| `Delivery.RefusalWithPart` | client/handlers.c:53-79 | No part of a refusal, whatever stands before and behind it, changes the session. |
| `Delivery.LeftoverSpoils` | client/handlers.c:53-54 | An unread end of a message that starts with anything but white space or a plus sign spoils the status 1 behind it. |
| `Delivery.LoginNeedsAllBytes` | client/network.c:140-144 | Under every script, with an earlier message's end before the reply and further replies behind it: the intended session exactly when the leftover does not spoil the status and the recv that brings the first `//` ends where the reply does. |
| `Delivery.LoginByStop` | client/client.c:58-71 | For every script, leftover and further replies, the session a granted login leaves, among them the failed login with the id set. |
| `Delivery.ShortFirstPiece` | client/network.c:124-145 | A first piece of one or two bytes does no harm when all the rest comes next. |
| `Delivery.CutAtThirdByte` | client/network.c:140-144 | An input: a reply cut after its third byte fails the login and leaves the id set. |
| `Pieces.PieceServed` | server/server.c:42-127 | For every cut of a login's message, what its first piece is answered: granted exactly when it ends in the password sent and with a part of it equal to the stored one, refused otherwise, the tables unchanged. |
| `Pieces.StrangerServed` | server/server.c:42-127 | A login of an id without a row is refused wherever it is cut. |
| `Pieces.WrongPasswordGranted` | server/server.c:42-127 | An input: "12345" sent against a stored "1234", cut before the 5, is granted. |
| `Pieces.RightPasswordRefused` | server/server.c:42-127 | Any right password one byte short is refused. |
| `Client.Client.HandleLogin` | client/handlers.c:33-80 | Over the socket, strtok and the four buffers, the session becomes what the pure `LoginCall` says for every way the sockets behave; success means the whole request was sent. |
| `Client.Client.HandleLogout` | client/handlers.c:136-142 | All four buffers are empty afterwards. |
| `Client.LoginOverSockets` | client/handlers.c:33-80 | The end-to-end theorem over both ends of the connection, every cut of the request and every script of the client's sockets: not granted, the session is unchanged; granted, it is the intended one exactly when the request was taken whole, data came in time, the leftover spoils nothing and the stop is at the reply's end. |
| `Client.StrangerStaysOut` | client/handlers.c:33-80 | An id without a row cannot log in: whatever it sends, however it is cut and whatever the sockets do, the session is unchanged. |
| `Client.UnsentLeavesSession` | client/handlers.c:39-49 | A request not taken whole, or no data in time, leaves the session as it was. |
| `Client.WrongPasswordLogsIn` | client/handlers.c:33-80 | An input of it: the wrong password "12345" logs the client in. |
| `Meals.SessionQuery` | server/server.c:352-388 | The codes a login brought, sent back: a school code that starts with a digit is queried as it is, any other is looked up as a school's name. |
| `Meals.SessionMeal` | server/server.c:352-388 | For a school code that starts with a digit, the menu of exactly that school and day arrives as one field whatever it contains, provided the formatted text fits its 2000 bytes (any menu up to 646). |
| `Meals.ReportFramed` | server/neis_api.c:388-436 | Every report the formatter can produce is one field of its reply: `/` is a menu delimiter, so no menu brings one. |

## Left out

- MenuFormat.FormatDaily: for texts over its bound the source writes past its buffer; what happens then is not modelled. The same holds of MenuFormat.FormatEntry and MenuFormat.FormatPeriod, and rows with dates shorter than eight bytes, which the source would read past, are excluded.
- Calendar.ValidDate: the server itself never validates dates; a period text that is no valid pair of dates reaches the meal-service map unchecked by the day count, where the source would let mktime normalise it.
- Gates.MkTime: knows the times from 1970 UTC up to a parameter of the clock, with a fixed offset of whole minutes from UTC; both calls use `tm_isdst = 0`. Whether Windows draws its limits by UTC or local time to the hour is not modelled.
- Schema.Database.AddUser: SQL text is not modelled. The INSERT quotes its fields literally, so a registration whose id or password, cut to its field, holds a quote is outside the runs and requests considered (`Sessions.PlainInsert`); all other statements bind their parameters and are not restricted.
- Schema.Database.Execute: an opened file is assumed to satisfy its own declared keys; tables are rewritten as sequences of rows, and `update_user`, `db_delete_child` and the SELECTs are the corresponding statements and lookups.
- Service.Serve: NEIS, CURL and JSON are inputs, as arbitrary partial functions from school names to codes and from queries to texts; the codes are nonempty, slash-free, quote-free and fit `edu_code[10]` and `school_code[20]`. Database faults are inputs as well.
- Service.OnGetChildren: always a database error, because the statement selects a column the table lacks; the JSON printers behind it are not modelled.
- Sessions.EndToEnd: for passwords shorter than 4000 bytes, so that the request fits its buffer; the login itself meets no database fault. Requests are served one after the other; `Race.InterleavedLogin` says what other threads can do to a login.
- Protocol.Wire: the wording of messages is a parameter, any table of nonempty slash-free texts of at most 64 bytes, as the source's is. The client's comparison of the registration message with its own text, in `handle_register` and `handle_add_user`, is not modelled.
- Dispatcher.Server.HandleClient: takes the bytes each `recv` brings, however the stream was cut. `strtok` state is per thread, as in the Windows run-time.
- Client.LoginOverSockets: `leftover` is the unread end of a reply without data (no slash, no digit, as the source's messages); what follows an unread end of a login or meal reply is not characterised. The registration and the requests of the run are taken as the server received them, and the server has read all of them before the login.
- LineInput.Stdin.AskUntilValid: needs a valid line to come, since at end of input the source asks for ever. At end of input the other readers work on what the buffer held, which must then be a C string. The office table is any set of short names.
- ConnectionTable.MainStep: runs end before shutdown, where main closes slots while handlers may still run; `accept` never returns the value 0, and memory is sequentially consistent.
- Race.Execute: UPDATE and DELETE are one statement each; the row that UPDATE fetches first has no effect. The several look-ups of a child-meal request are not split.
- Streams.Connection.Send: socket outcomes are a script; an exhausted script reads as a close, and a failed `select` as an error.
- `server_handler.c`, `client_main.c`, `main.c` and `server_main.c` are not reached by the programs the Makefiles build; menus, printing, the name column and the unused meal cache are not modelled either.
