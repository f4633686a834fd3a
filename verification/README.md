# mailrs: a verified model of its scanners, protocols and data sets

Twenty Dafny modules model the parts of mailrs whose guarantees hold for whole inputs or whole
runs, and prove those guarantees. Where a promise of the code or of its comments does not hold
on every input, the model keeps the code as it is and the exact condition is proved instead.

- `RustLexer`, `RustLexerLaws`, `RustTokens`: `blank` of `scripts/fn-size.py`, the scanner that
  blanks comments and literals out of Rust source. `RustLexer.Blank` is the scanner;
  `RustTokens` says with no scanning in it what a token is (a grammar of nested comments,
  the parity of backslashes before a quote, the first matching fence), and the two agree.
- `RustTexts`: how literal pieces of Rust are blanked, whatever comes after them.
- `RustItems`: brace and attribute matching, test spans, and the functions over the limit.
- `RustPatterns`, `RustReports`: the script's regular expressions as expressions with a meaning of
  their own, and the report of a source by matching them and counting characters; `RustItems`
  finds exactly that by scanning.
- `ImapPool`: the one-connection-per-account pool. An actor releases its isolation at every
  `await`, so the model is a state machine over the pieces of code between two awaits, run in
  any order by any number of calls; the class `ImapPool` is the actor with one method a piece.
- `DotStuffing`: the streaming stuffer, the DATA block built with it, and POP3's reading back.
- `MessageBytes`: the same with the message sent as UTF-8 and read one character for each byte.
- `Decimal`, `UidRanges`: uids as a sequence-set of section 9 of RFC 3501.
- `UndoReinsert`: rows going back into a list after an undo or a refusal.
- `RowCap`: the rows an account keeps, in the order of the query that caps them.
- `EarlierPlan`: reaching back for older mail by uid span, one pass and whole runs of the device.
- `BenchStats`, `ContractSeeder`, `LatencySeed`, `ApiSeed`: the benchmark tooling.
- `Basics`: missing values, and lists put together.

## Where the code and its promise differ

- Blanking keeps every newline (fn-size.py:24) exactly when no char literal token holds a raw
  newline (`NewlinesKept`): a quote, a newline and a quote become three spaces (`QuoteNewlineQuote`).
- A dropped account "does not come back" (ImapPool.swift:95-98) exactly when the drop does not
  come while a call probes, closes a stale connection or signs in (`DroppedComesBackIff`); a
  dropped connection is handed to an action exactly when its probe was in flight
  (`DroppedHandedOutIff`). `DropDuringSignIn` and `DropDuringProbe` are the two runs.
- A message that ended on a line break "must not gain a blank line" (SMTPSession.swift:161-163),
  but does so exactly when the last piece is the line feed alone (`SplitAnywhereIff`).
- A stuffed message is read back as it was exactly when no bare line feed stands before a dot
  and no line is a dot after blanks, since the stuffer counts a bare line feed as a line break,
  POP3 lines end at CRLF, and `readUntilDot` trims blanks before it compares (`RoundTripIff` for
  a message of bytes). For a message of code points the blanks that matter are spaces and tabs
  (`RoundTripBytesIff`, `NoBreakSpace`).
- Rows go back "to the exact positions they left" (Session+Triage.swift:286-289) after an undo;
  after a refusal of some of them, exactly when no row that returns has a row gone for good
  before it and a remaining row after it (`RefusalRestoresIff`).
- The percentile is called nearest-rank (bench-stats.py:30); it rounds down, and is the nearest
  rank exactly when the fraction of the length is whole or below one (`NearestRankIff`; of thirty
  samples the 95th percentile is not, `ThirtySamples`).
- Reach-back is refused only when the device is full already (EarlierPlan.swift:34-49), and the
  cap drops in the same pass what does not fit. A pass can lose no mail exactly when the rows
  held and the uids of the range not held are together within the cap (`NothingLostIff`); what
  it loses is never asked for again (`NeverAskedAgain`), as for a device that holds 4,999 rows
  (`LostForGood`).
- The seeder retries a lost reply once and goes on after a refusal. The server ends with every
  effect a request had, in order (`ServerHasEffects`), or with each record that took effect once
  when a repeated record is a no-op there (`ServerHasTaken`). On a server that ignores what it
  has, as deliver.rs:19-45 does, that begins the input exactly when no new record took effect
  after one that neither took effect nor was there (`PrefixIff`, `RefusedThenAccepted`); on one
  that takes repeats, exactly when besides no record took effect twice (`LogPrefixIff`,
  `TwiceIff`). A record that is on the server is reported as failed exactly when its first reply
  was lost and its second request refused (`DeliveredYetReportedIff`, `FalseAlarmIff`).

## Assumptions

- Text is a sequence of code points. The classes of `\s`, `\b` and `\w` in fn-size.py are their
  ASCII part, and blanks in `readUntilDot` are those of Latin-1, which is what it decodes. In
  `DotStuffing` what is sent is what is read, so a text is the bytes of the message, each as the
  character of its number; `MessageBytes` takes a message of code points.
- A call that finds its account busy is queued, a release wakes the first of the queue, and a
  woken call that finds the account busy again queues at the end, as ImapPool.swift:139-152 says.
  The server, the network and the clock are free: a probe, a sign-in or an action may end either
  way at any time, and the clock may jump.
- A percentile is an exact fraction of an exact length; the scripts multiply in floating point.
- A network attempt of the seeder takes effect or not, and is answered or not, in any combination.
  The server is any function of its state and the record. Where a result needs more it says so:
  a repeated record is a no-op (`ServerHasTaken`), an accepted record stands on the server
  (`ZeroMeansAll`), a refused request has no effect (`DeliveredYetReportedIff`, `FalseAlarmIff`),
  or no two records of the input are the same (`PrefixIff`, `LogPrefixIff`).
- Between two passes of reach-back the rows of the account may change in any way, and ordinary
  passes may write its marks. Results about what is asked twice hold until the folder is
  renumbered, when its uids come to mean other messages.
- How Python orders a list with a value that is not a number is a parameter of the reducers.
- Random draws of the data sets are arbitrary values.

## Model

| member | source | states |
|---|---|---|
| RustLexer.Blank | scripts/fn-size.py:23-87 | the index-driven scanner computes the token-wise blanking of the whole source |
| RustLexer.ScanToken | scripts/fn-size.py:32-86 | one turn of the loop stops where the token ends and appends that token's mask |
| RustLexer.ScanQuote | scripts/fn-size.py:71-86 | a quote is an escaped char literal, a plain one, or the mark of a lifetime |
| RustLexer.SkipBlockComment | scripts/fn-size.py:39-49 | the depth loop stops where the comment, with all comments in it, ends |
| RustLexer.SkipString | scripts/fn-size.py:63-67 | the escape-skipping loop stops past the closing quote or past the end |
| RustTokens.LexemeIff | scripts/fn-size.py:33-84 | the scanner's token is the one and only token a text begins with, by a definition without scanning |
| RustTokens.BlockIff | scripts/fn-size.py:39-51 | a block comment is a well-formed nesting of comments, or runs to the end if no prefix is one |
| RustTokens.BodyIsRead | scripts/fn-size.py:40-49 | the depth count reads one well-formed comment body and leaves the rest one level up |
| RustTokens.ReadIsBodies | scripts/fn-size.py:40-49 | whatever the depth count calls closed parses into one comment body per open comment |
| RustTokens.StringIff | scripts/fn-size.py:63-69 | a string ends at the first quote with an even number of backslashes before it |
| RustTokens.FenceIff | scripts/fn-size.py:57-61 | a raw string ends at the first quote followed by the same number of hashes, or at the end |
| RustTokens.RawOpeningIff | scripts/fn-size.py:54-56 | a raw string opens with r, br or cr, hashes and a quote, and in one way only |
| RustTokens.EscapedIff | scripts/fn-size.py:73-80 | an escaped char literal runs to the next quote, with the escaped quote taken as it stands |
| RustTokens.SplitExists | scripts/fn-size.py:31-87 | every source, well-formed or not, can be cut into tokens |
| RustTokens.SplitUnique | scripts/fn-size.py:31-87 | there is only one way to cut a source into tokens |
| RustTokens.BlankedIsMasked | scripts/fn-size.py:31-87 | blanking masks exactly the tokens of the source and copies the code |
| RustTokens.NoBraceSurvives | scripts/fn-size.py:6-9 | at every position of the source a character of code is kept and one inside a comment or literal is blank, so no brace in one is counted |
| RustTokens.WordIff | scripts/fn-size.py:20 | the characters after which no raw string opens are the 63 of a word |
| RustTexts.RawAfterNoWord | scripts/fn-size.py:53-61 | after any character outside those 63 that is read as code, an r and a quote open a raw string |
| RustTexts.WordBeforeQuote | scripts/fn-size.py:53-61 | after any of the 63, save the prefixes b and c, the r is copied as code |
| RustTexts.RawText | scripts/fn-size.py:54-61 | a raw string without hashes ends at the next quote, backslashes or not |
| RustTexts.StringText | scripts/fn-size.py:63-69 | a string without backslashes ends at the next quote |
| RustTexts.BackslashExample | scripts/fn-size.py:53-69 | a raw string that ends in a backslash does not run into the next literal |
| RustLexerLaws.BlankedShape | scripts/fn-size.py:23-29 | blanking keeps the length and only ever changes a character to a space |
| RustLexerLaws.SurvivorsAreCode | scripts/fn-size.py:31-87 | what survives blanking cannot begin a comment or a literal in the source |
| RustLexerLaws.BlankedIdempotent | scripts/fn-size.py:23-87 | blanking twice is blanking once, on every text |
| RustLexerLaws.NewlinesKept | scripts/fn-size.py:24-29 | every newline is kept if and only if no char literal token holds one |
| RustLexerLaws.QuoteNewlineQuote | scripts/fn-size.py:81-84 | a source whose newline is lost, and the line count that goes wrong |
| RustLexerLaws.NoTripleNoLoss | scripts/fn-size.py:81-84 | a source without quote, newline, quote in a row loses no newline |
| RustLexerLaws.LineNumbersKept | scripts/fn-size.py:187-188 | newline counts on the blanked text are those of the source, when no literal holds a newline |
| RustLexerLaws.LineNumbersKeptIff | scripts/fn-size.py:187-188 | all newline counts on the blanked text are those of the source if and only if no char literal holds a newline |
| RustLexerLaws.CompositionLaw | scripts/fn-size.py:31-87 | a text never changes how any text after it is read if and only if it leaves no token open and no bare quote at its end |
| RustLexerLaws.ComposableComposes | scripts/fn-size.py:31-87 | blanking two composable texts joined by a newline is joining the blanked texts |
| RustLexerLaws.NotComposableFails | scripts/fn-size.py:31-87 | a text that is not composable has a continuation that is read differently after it |
| RustItems.MatchBrace | scripts/fn-size.py:90-100 | the loop returns the end of the block, or the end of the text if it never closes |
| RustItems.AttrEnd | scripts/fn-size.py:127-136 | the loop returns the end of the bracket block, or the end of the text |
| RustItems.ShortestBalanced | scripts/fn-size.py:90-100 | the block of an opener is the shortest balanced text that starts there, and conversely |
| RustItems.BlocksAreLaminar | scripts/fn-size.py:90-100 | the blocks of any two openers are nested or disjoint, in balanced text or not |
| RustItems.ItemEnd | scripts/fn-size.py:103-116 | the loop returns the end of the item |
| RustItems.ItemStop | scripts/fn-size.py:103-116 | an item stops at the first semicolon or brace at bracket depth zero |
| RustReports.BraceEndIff | scripts/fn-size.py:90-100 | a block ends where as many braces closed as opened for the first time, or with the text |
| RustReports.SquareEndIff | scripts/fn-size.py:127-136 | so does an attribute, by its square brackets |
| RustReports.ItemEndIff | scripts/fn-size.py:103-116 | an item ends past the first semicolon with as many brackets closed as opened, or with the block at the first such brace, or with the text |
| RustItems.SkipAttributes | scripts/fn-size.py:146-153 | the attribute-skipping loop terminates on every text and stops after the run |
| RustItems.RunExists | scripts/fn-size.py:146-153 | every text has a run of attributes at a position, and the loop stops right after it |
| RustItems.MarkerCoversItem | scripts/fn-size.py:146-157 | every attribute of a run leads to the same item start |
| RustReports.LeadsToIff | scripts/fn-size.py:146-153 | the attributes of a run are parted by white space and end by their brackets |
| RustItems.MarkersShareTheItem | scripts/fn-size.py:142-157 | test markers on one item give spans that end together, whatever their order |
| RustItems.TestSpans | scripts/fn-size.py:139-158 | the loop lists the span of every test marker in order |
| RustItems.SpansExact | scripts/fn-size.py:139-158 | a span is listed if and only if it is that of a test marker |
| RustPatterns.MarkerIff | scripts/fn-size.py:121-122 | a test marker is an attribute that one of the two expressions matches |
| RustPatterns.TestFileIff | scripts/fn-size.py:120 | a file is test code as a whole if and only if the inner attribute's expression matches somewhere |
| RustReports.TestItemIff | scripts/fn-size.py:139-158 | a span is listed if and only if it runs from a marker, over the attributes after it, to the end of the item |
| RustItems.Functions | scripts/fn-size.py:161-165 | the functions with a body, in the order the pattern meets them |
| RustItems.FunctionsExact | scripts/fn-size.py:161-165 | a function is listed if and only if its header begins in no earlier header taken and its item ends in a brace, with the name and the end of that header |
| RustPatterns.HeaderIff | scripts/fn-size.py:124 | a header is a match of the function expression with its name taken to the end |
| RustReports.FunctionIff | scripts/fn-size.py:161-165 | a function is listed if and only if its match overlaps none found before it and its item ends in a brace |
| RustItems.FunctionsAscend | scripts/fn-size.py:161-165 | functions are listed in the order of the text, each once |
| RustItems.TakenIff | scripts/fn-size.py:124 | a match of the pattern is left out if and only if its fn is read as the name of the match before it |
| RustItems.BodyIff | scripts/fn-size.py:161-165 | what is taken for a body: a closed block, or the rest of a text that ends in a brace when the item never ends |
| RustItems.LongFunctions | scripts/fn-size.py:183-190 | the loop reports the functions outside all spans and over the limit, in order |
| RustItems.MeasuredLines | scripts/fn-size.py:187-190 | the line count is one more than the newlines from fn to the closing brace |
| RustItems.ReportExact | scripts/fn-size.py:183-190 | a line is reported if and only if it is that of a function outside every test span with at least limit newlines |
| RustReports.ReportedIff | scripts/fn-size.py:183-190 | a line is reported if and only if it is that of a function outside every test item with at least limit newlines: their number and one, the name, and the line of its fn |
| RustReports.ReportInOrder | scripts/fn-size.py:183-190 | the lines come in the order of the functions, each reported once if at all |
| RustItems.HigherLimit | scripts/fn-size.py:189-190 | a higher limit strikes lines from the lower limit's report and keeps their order |
| RustItems.SourceLines | scripts/fn-size.py:187-190 | reported lines are those of the source file |
| RustItems.Measure | scripts/fn-size.py:168-190 | one file from source to report: blanked, skipped if it is a test file, spans and functions taken on the blanked text |
| RustItems.ReportedOnSource | scripts/fn-size.py:168-190 | the report of a file in terms of the newlines of its source |
| ImapPool.ImapPool.constructor | ios/Mailrs/Accounts/ImapPool.swift:53-75 | a new pool holds nothing, is inside nothing and has nobody waiting |
| ImapPool.ImapPool.Acquire | ios/Mailrs/Accounts/ImapPool.swift:139-144 | a call goes in when the account is free and queues when it is busy |
| ImapPool.ImapPool.Release | ios/Mailrs/Accounts/ImapPool.swift:146-152 | the account is freed and the first in the queue is woken |
| ImapPool.ImapPool.Reusable | ios/Mailrs/Accounts/ImapPool.swift:161-163 | the kept connection, and whether it must be probed first |
| ImapPool.ImapPool.Forget | ios/Mailrs/Accounts/ImapPool.swift:103-108 | a connection that failed is no longer kept |
| ImapPool.ImapPool.SignedIn | ios/Mailrs/Accounts/ImapPool.swift:90-91 | a new connection is kept from now on |
| ImapPool.ImapPool.Returned | ios/Mailrs/Accounts/ImapPool.swift:95-101 | after the action only a connection still there is refreshed |
| ImapPool.ImapPool.Drop | ios/Mailrs/Accounts/ImapPool.swift:114-117 | the account's connection is forgotten and handed over for closing |
| ImapPool.StepKeeps | ios/Mailrs/Accounts/ImapPool.swift:80-188 | every step of every call keeps the invariant of the pool |
| ImapPool.RunKeeps | ios/Mailrs/Accounts/ImapPool.swift:80-188 | the invariant holds over every interleaving of calls, answers, failures, drops and clock changes |
| ImapPool.OneLivePerAccount | ios/Mailrs/Accounts/ImapPool.swift:3-13 | no run ever has two live connections for one account |
| ImapPool.NoneForgotten | ios/Mailrs/Accounts/ImapPool.swift:93-117 | every session ever opened is kept, in a call's hands or closed |
| ImapPool.CountedAndClosed | ios/Mailrs/Accounts/ImapPool.swift:93-135 | over every run the counted and the closed connections are never more than were opened, and all of them when no call is left |
| ImapPool.CallsExcludeEachOther | ios/Mailrs/Accounts/ImapPool.swift:55-65 | no two calls are inside use for one account, nor speak on one connection |
| ImapPool.NobodyStranded | ios/Mailrs/Accounts/ImapPool.swift:139-152 | whoever waits has a call inside or a woken call before it, so no wake-up is lost |
| ImapPool.WaitingCanGetIn | ios/Mailrs/Accounts/ImapPool.swift:139-152 | from wherever a run has got to, every waiting call has a continuation that brings it inside |
| ImapPool.FirstComeFirstWoken | ios/Mailrs/Accounts/ImapPool.swift:139-152 | who begins to wait while another call waits is not woken as long as that one waits on |
| ImapPool.IdleIsProbed | ios/Mailrs/Accounts/ImapPool.swift:161-166 | over every run, a connection handed out past the window since its last use has just answered its probe |
| ImapPool.CallGetsKept | ios/Mailrs/Accounts/ImapPool.swift:80-92 | over every run a call waits when another is inside, else goes on at once with a connection used within 30 seconds, probes one that was not, and opens one if none is kept |
| ImapPool.HandedOutRetiredIff | ios/Mailrs/Accounts/ImapPool.swift:80-117 | a connection handed out was given up if and only if it was dropped during its probe and the probe was answered |
| ImapPool.FailedNeverHandedOut | ios/Mailrs/Accounts/ImapPool.swift:80-188 | the connection of a probe, a sign-in or an action that failed is never handed out again, over every run |
| ImapPool.DroppedHandedOutIff | ios/Mailrs/Accounts/ImapPool.swift:113-117 | a dropped connection can be handed out again if and only if a call was probing it |
| ImapPool.DroppedComesBackIff | ios/Mailrs/Accounts/ImapPool.swift:95-101 | an account dropped mid-call can have a connection again at its end if and only if the call had not got past signing in |
| ImapPool.DropDuringSignIn | ios/Mailrs/Accounts/ImapPool.swift:89-92 | a run in which an account is dropped while its only call is connecting, and that connection is kept when nobody is left |
| ImapPool.DropDuringProbe | ios/Mailrs/Accounts/ImapPool.swift:164-166 | a run in which the kept connection is dropped while its probe is in flight, and the answer hands it to the action |
| DotStuffing.DotStuffer.constructor | ios/Mailrs/Accounts/DotStuffer.swift:23-26 | a message begins on a line start |
| DotStuffing.DotStuffer.Feed | ios/Mailrs/Accounts/DotStuffer.swift:29-45 | one piece is stuffed from where the last one ended, and the end is remembered |
| DotStuffing.StuffedSplits | ios/MailrsTests/DotStufferTests.swift:43-55 | stuffing a text is stuffing its two parts one after the other, wherever it is cut |
| DotStuffing.StuffedIs | ios/Mailrs/Accounts/DotStuffer.swift:5-7 | cut at its line feeds a message gets one more dot before each line that begins with one, and nothing else |
| DotStuffing.FedInPieces | ios/MailrsTests/DotStufferTests.swift:43-55 | however a message is cut, what one stuffer gives for the pieces joins to what it gives for the whole |
| DotStuffing.LinesStuffed | ios/Mailrs/Accounts/DotStuffer.swift:25-32 | stuffing works on each CRLF line by itself |
| DotStuffing.NoLoneDot | ios/Mailrs/Accounts/DotStuffer.swift:5-7 | no CRLF line of a stuffed message is a lone dot |
| DotStuffing.Send | ios/Mailrs/Accounts/SMTPSession.swift:155-164 | the sending loop writes the stuffed message and the terminator the last piece calls for |
| DotStuffing.SplitAnywhereIff | ios/Mailrs/Accounts/SMTPSession.swift:155-164 | the wire does not depend on the cut if and only if a message ending in a line break does not end in a piece that is a line feed alone |
| DotStuffing.StopsIff | ios/Mailrs/Accounts/POP3Session.swift:122-129 | reading stops at a stuffed line if and only if the line is a dot after blanks |
| DotStuffing.LinesIff | ios/Mailrs/Accounts/POP3Session.swift:160-174 | the lines of a stream are the one way to cut it at CRLFs into pieces that hold none |
| DotStuffing.StopsReadingIff | ios/Mailrs/Accounts/POP3Session.swift:122-129 | reading stops at a line that is one dot among spaces, tabs and no-break spaces |
| DotStuffing.ReadUntilDotIff | ios/Mailrs/Accounts/POP3Session.swift:122-129 | a response is what is read up to and with the first such line, and the rest is left |
| DotStuffing.UnfinishedLine | ios/Mailrs/Accounts/POP3Session.swift:160-174 | what stands after the last line break of the stream is not read yet |
| DotStuffing.UndoneIs | ios/Mailrs/Accounts/POP3Line.swift:55-60 | of the lines before the first lone dot, each loses one of two leading dots and any other is kept |
| DotStuffing.UnstuffStuffed | ios/Mailrs/Accounts/POP3Line.swift:55-60 | undoing a stuffed line leaves only the dots doubled after bare line feeds |
| DotStuffing.RoundTripIff | ios/Mailrs/Accounts/POP3Line.swift:49-60 | sent and read back a message of bytes is as it was, nothing left unread, if and only if no bare line feed stands before a dot and no line is an indented dot |
| MessageBytes.StuffedBytes | ios/Mailrs/Accounts/DotStuffer.swift:34-42 | stuffing the code points of a message is stuffing its UTF-8 bytes |
| MessageBytes.BytesReadBack | ios/Mailrs/Accounts/POP3Session.swift:152-158 | the bytes sent are UTF-8: they read back as the code points of the message |
| MessageBytes.LinesBytes | ios/Mailrs/Accounts/POP3Session.swift:160-174 | cutting the UTF-8 bytes into lines is cutting the code points |
| MessageBytes.IndentedBytes | ios/Mailrs/Accounts/POP3Session.swift:122-129 | the bytes of a line stop the reading early if and only if the line is a dot among spaces and tabs |
| MessageBytes.RoundTripBytesIff | ios/Mailrs/Accounts/POP3Session.swift:86-95 | a message of any code points arrives with all its bytes if and only if no bare line feed stands before a dot and no line is a dot among spaces and tabs |
| MessageBytes.NoBreakSpace | ios/Mailrs/Accounts/POP3Session.swift:122-129 | a no-break space and a dot, which are read back as they were |
| DotStuffing.Examples | ios/Mailrs/Accounts/SMTPSession.swift:155-164 | three messages that the wire or the round trip changes |
| Decimal.ReadShow | ios/Mailrs/Accounts/UidRanges.swift:29-34 | a number written in decimal is read back as it was |
| Decimal.ShowIsDecimal | ios/Mailrs/Accounts/UidRanges.swift:29-34 | the digits of a number are those of its tenth part and one more |
| UidRanges.SortedIsSet | ios/Mailrs/Accounts/UidRanges.swift:24 | the sorted list is strictly ascending and has the members of the given one |
| UidRanges.Collapse | ios/Mailrs/Accounts/UidRanges.swift:23-46 | the loop writes the runs of the sorted uids, with no overflow past 32 bits |
| UidRanges.RunsExact | ios/Mailrs/Accounts/UidRanges.swift:19-46 | the runs are apart from each other and hold exactly the uids given |
| UidRanges.RunsUnique | ios/Mailrs/Accounts/UidRanges.swift:19-46 | runs that are apart are determined by what they hold, so they are as long as can be |
| UidRanges.OrderDoesNotMatter | ios/MailrsTests/UidRangesTests.swift:15-20 | neither order nor repeats change the runs |
| UidRanges.ServerReadsTheUids | ios/Mailrs/Accounts/UidRanges.swift:19-46 | a reader of sequence-sets reads in the text exactly the uids given |
| UidRanges.SplitRuns | ios/Mailrs/Accounts/UidRanges.swift:58-69 | the splitting loop fills one command after the other greedily |
| UidRanges.Batches | ios/Mailrs/Accounts/UidRanges.swift:54-70 | nothing for no uids, one command when all fits, and the greedy cut otherwise |
| UidRanges.BatchesExact | ios/Mailrs/Accounts/UidRanges.swift:49-53 | the commands joined by commas are the collapsed text, and cut no run |
| UidRanges.GroupsExact | ios/Mailrs/Accounts/UidRanges.swift:58-69 | the commands hold the runs in order, none is empty, and only a single run ever exceeds the limit |
| UidRanges.AllFitIff | ios/Mailrs/Accounts/UidRanges.swift:54-70 | every command fits if and only if every single run does |
| UidRanges.DefaultFits | ios/Mailrs/Accounts/UidRanges.swift:16-17 | with the default limit every command fits, for all 32-bit uids |
| UidRanges.GroupsAreFull | ios/Mailrs/Accounts/UidRanges.swift:58-69 | a command is closed only when the next run would not fit |
| UidRanges.DefaultLimit | ios/Mailrs/Accounts/UidRanges.swift:16-17 | by default every command keeps to 900 characters and could not hold one more run |
| UidRanges.FewestCommands | ios/Mailrs/Accounts/UidRanges.swift:54-70 | no other cut of the runs into commands that fit takes fewer commands |
| UndoReinsert.Reinserted | ios/Mailrs/App/Session+Triage.swift:290-298 | the rows are sorted and inserted one after the other, past the end meaning the end |
| UndoReinsert.NothingLost | ios/MailrsTests/UndoReinsertTests.swift:34-40 | whatever the indices the result holds precisely the list and the rows |
| UndoReinsert.AnyOrder | ios/MailrsTests/UndoReinsertTests.swift:23-32 | rows given in any order are put back in the order of their positions |
| UndoReinsert.SortIsStable | ios/Mailrs/App/Session+Triage.swift:290-298 | rows with one index keep the order given |
| UndoReinsert.UndoRestores | ios/Mailrs/App/Session+Triage.swift:286-298 | when every row taken out returns, the list is exactly what it was, for all positions |
| UndoReinsert.RefusalRestoresIff | ios/Mailrs/App/Session+Selection.swift:42-58 | when only some return they land where they were if and only if none has a row gone before it and a remaining row after it |
| UndoReinsert.RefusalExample | ios/Mailrs/App/Session+Selection.swift:46-57 | four rows of which one ends up in the wrong place |
| EarlierPlan.RangeText | ios/Mailrs/Accounts/EarlierPlan.swift:56-79 | the text of a range carries both its ends and says exhausted if and only if it reaches uid 1 |
| EarlierPlan.SpanStaysGood | ios/Mailrs/Accounts/EarlierPlan.swift:69-72 | the span stays positive, at most the ceiling, and never shrinks |
| EarlierPlan.EachUidOnce | ios/Mailrs/Accounts/MailboxSyncRunner.swift:307-317 | over a whole run every uid between where it got to and where it started is asked about exactly once |
| EarlierPlan.RangesAdjoin | ios/Mailrs/Accounts/MailboxSyncRunner.swift:268-316 | each range asked for begins right below the one before it |
| EarlierPlan.WalkEnds | ios/Mailrs/Accounts/EarlierPlan.swift:56-72 | as many passes as spans fit into the folder reach uid 1, whatever gaps the answers have |
| EarlierPlan.Device.constructor | ios/Mailrs/Accounts/AccountStore.swift:219-249 | a device starts from stored marks and rows |
| EarlierPlan.Device.Earlier | ios/Mailrs/Accounts/MailboxSyncRunner.swift:243-323 | what one pass refuses, and what an answered one leaves: the mark, the capped rows and the range answered; every refusal and failure leaves the store unchanged |
| EarlierPlan.PlanIff | ios/Mailrs/Accounts/MailboxSyncRunner.swift:243-272 | which passes ask the server and from where, and how each other one is refused |
| EarlierPlan.OutcomeIff | ios/Mailrs/Accounts/MailboxSyncRunner.swift:273-322 | how a pass that asks ends |
| EarlierPlan.AnsweredPass | ios/Mailrs/Accounts/EarlierPlan.swift:56-72 | an answered pass asks down by the span, and leaves a span four times as wide, up to 5,000, if and only if fewer than ten messages came |
| EarlierPlan.OtherPass | ios/Mailrs/Accounts/MailboxSyncRunner.swift:243-323 | every other pass leaves marks, rows and ranges as they were |
| EarlierPlan.UpsertedValue | ios/Mailrs/Accounts/MailboxSyncRunner.swift:295-304 | a row has the date of the last message fetched for it, or what it had |
| EarlierPlan.Device.Refresh | ios/Mailrs/Accounts/MailboxSync.swift:43-76 | the mark that an ordinary pass leaves of a folder, starting over when it was renumbered |
| EarlierPlan.RefreshedIs | ios/Mailrs/Accounts/MailboxSync.swift:43-76 | the mark holds the highest and the lowest uid of what it knew and what came, and forgets what it knew of a renumbered folder, but for the span |
| EarlierPlan.RunWalks | ios/Mailrs/Accounts/MailboxSyncRunner.swift:243-323 | over any run of passes, answered, failed or refused, between ordinary passes that bring newer mail, the ranges answered for a folder are those of the walk and the mark is where the walk is |
| EarlierPlan.PassedUidsOnce | ios/Mailrs/Accounts/MailboxSyncRunner.swift:307-317 | over any run until the folder is renumbered, every uid that the mark passes is in exactly one more answered range unless an ordinary pass stepped over it, and no other uid is |
| EarlierPlan.RunEnds | ios/Mailrs/Accounts/EarlierPlan.swift:56-72 | a run with enough answered passes brings the mark to uid 1, however many others fail |
| EarlierPlan.NothingLostIff | ios/Mailrs/Accounts/MailboxSyncRunner.swift:304-305 | no answer within the range loses a row, held or fetched, if and only if the rows held and the uids of the range not held are within the cap |
| EarlierPlan.NeverAskedAgain | ios/Mailrs/Accounts/MailboxSyncRunner.swift:304-317 | a uid in an answered range is in no later one until the folder is renumbered, whether or not the cap left its row |
| EarlierPlan.LostForGood | ios/Mailrs/Accounts/MailboxSyncRunner.swift:304-317 | a device with 4,999 rows whose pass drops a message it fetched, and does not ask for it again until the folder is renumbered |
| RowCap.CappedSize | ios/Mailrs/Accounts/MailboxDatabase.swift:292-304 | the cap leaves as many rows as the limit allows, and no more |
| RowCap.KeptLeadDropped | ios/Mailrs/Accounts/MailboxDatabase.swift:295-300 | every row that stays comes before every row that is dropped, in the order of the query |
| RowCap.DroppedComesLast | ios/Mailrs/Accounts/MailboxDatabase.swift:295-300 | what is dropped has no date where a kept one has, or an older one, or with the same the greater text of folder and uid |
| RowCap.LessIff | ios/Mailrs/Accounts/MailboxDatabase.swift:298 | text order is that of the first character in which two texts differ |
| RowCap.OneLeads | ios/Mailrs/Accounts/MailboxDatabase.swift:297-298 | the order of the query puts one of any two rows first |
| RowCap.NothingDroppedIff | ios/Mailrs/Accounts/MailboxDatabase.swift:292-304 | the cap drops nothing if and only if the rows are within the limit |
| BenchStats.Pct | scripts/bench-stats.py:29-38 | the percentile is the sample at the rank rounded down, held within the list; no number without samples |
| BenchStats.PctCompared | scripts/bench-api-compare.py:34-38 | the second implementation gives the same for every list |
| BenchStats.PercentileIff | scripts/bench-stats.py:29-38 | a sample is the percentile if and only if fewer samples than the rank are below it and at least as many reach up to it |
| BenchStats.RankIff | scripts/bench-stats.py:33-38 | the rank is the whole part of the fraction of the length, or 1 when that is 0 |
| BenchStats.RanksOfRow | scripts/bench-stats.py:106-108 | the three ranks of a row, by the number of samples |
| BenchStats.NearestRankIff | scripts/bench-stats.py:30-38 | the rank is the nearest rank if and only if the fraction of the length is whole or below one |
| BenchStats.ThirtySamples | scripts/bench-stats.py:30-38 | of thirty samples the 95th percentile is a smaller sample than the nearest rank gives |
| BenchStats.PercentileMonotone | scripts/bench-stats.py:104-108 | within a round a higher percentile is never a smaller value |
| BenchStats.MedianSplits | scripts/bench-stats.py:111 | at least half of the values reach up to the median and at most half are below it |
| BenchStats.MedianIff | scripts/bench-stats.py:111 | the median is half the sum of the two middle values, which are one when their number is odd |
| BenchStats.MiddleIs | scripts/bench-stats.py:111 | with missing values the median is missing if and only if a middle value is |
| BenchStats.SortKeepsBelow | scripts/bench-stats.py:104-111 | sorting keeps one list below another, place by place |
| BenchStats.Row | scripts/bench-stats.py:99-117 | the loop fills the three cells of a row, for rounds with and without samples |
| BenchStats.StatCell | scripts/bench-api-compare.py:64-70 | the second reducer gives the same cell, and none if and only if there are no rounds |
| BenchStats.RowAscends | scripts/bench-stats.py:101-117 | p50, p95 and p99 of a row are ascending although each is a median across rounds |
| ContractSeeder.Core.constructor | scripts/bench-seed-over-contract.py:47-50 | one connection is opened at the start |
| ContractSeeder.Core.Post | scripts/bench-seed-over-contract.py:52-72 | one reconnect after a lost reply, then a raised failure; what was sent, applied and opened in each case |
| ContractSeeder.Seed | scripts/bench-seed-over-contract.py:82-151 | the loop over the input: exit code, server state, requests and counts |
| ContractSeeder.RunMeans | scripts/bench-seed-over-contract.py:82-151 | exit code, requests and server of a run are those of the fates of its records |
| ContractSeeder.AtMostTwice | scripts/bench-seed-over-contract.py:57-71 | no record is sent more than twice |
| ContractSeeder.ZeroIff | scripts/bench-seed-over-contract.py:144-151 | zero is returned if and only if every record was answered with an accepted status |
| ContractSeeder.ExitIff | scripts/bench-seed-over-contract.py:57-151 | 0 is returned if and only if each record's final reply came with 200, 201 or 204, or with 409 for an account; a failure is raised if and only if a final reply did not come |
| ContractSeeder.DuplicateExample | scripts/bench-seed-over-contract.py:104-127 | a duplicate account is no failure, a duplicate message is one |
| ContractSeeder.CountsOfParts | scripts/bench-seed-over-contract.py:87-129 | what is posted and counted of an input is what is of its parts |
| ContractSeeder.ServerHasEffects | scripts/bench-seed-over-contract.py:57-71 | on any server, under any losses and refusals, the run leaves every effect of a request in order |
| ContractSeeder.ServerHasTaken | scripts/bench-seed-over-contract.py:57-71 | on a server where a repeated record is a no-op the run leaves the records that took effect, once each and in order |
| ContractSeeder.PrefixIff | scripts/bench-seed-over-contract.py:82-151 | a server that ignores what it has ends with a prefix of the input if and only if no new record took effect after one that had not arrived |
| ContractSeeder.LogPrefixIff | scripts/bench-seed-over-contract.py:82-151 | a server that takes repeats ends with a prefix if and only if besides no record took effect twice |
| ContractSeeder.TwiceIff | scripts/bench-seed-over-contract.py:57-71 | a record takes effect twice if and only if its first reply is lost although both requests take effect |
| ContractSeeder.RefusedThenAccepted | scripts/bench-seed-over-contract.py:126-127 | a run that goes on after a refusal leaves the server with no prefix of the input |
| ContractSeeder.SeedingKeepsAPrefix | scripts/bench-seed-over-contract.py:63-71 | on any server where a record that changes it stands together with all before it, the run leaves a prefix of the input, all of it or all up to the record that raised when every answered record stands |
| ContractSeeder.ServerHasPrefix | scripts/bench-seed-over-contract.py:63-71 | the prefix ends right before the first record that does not stand on the server |
| ContractSeeder.ZeroMeansAll | scripts/bench-seed-over-contract.py:144-151 | after a run that returns zero the server has every record, once each and in order, retries answered as duplicates and accounts that were there before included |
| ContractSeeder.DeliveredYetReportedIff | scripts/bench-seed-over-contract.py:57-71 | a record that took effect is reported as failed if and only if its first reply was lost and its second request refused |
| ContractSeeder.FalseAlarmIff | scripts/bench-seed-over-contract.py:144-151 | a run whose every record took effect returns 1 if and only if that happened to one of them |
| ContractSeeder.DeliveredYetReported | scripts/bench-seed-over-contract.py:126-127 | a network on which it happens to a message |
| LatencySeed.Emit | scripts/latency-seed.py:128-188 | the two loops emit the conversations one after the other |
| LatencySeed.EmittedLength | scripts/latency-seed.py:128-145 | after conversation n there are n + n/5 messages |
| LatencySeed.MessagesAgree | scripts/latency-seed.py:144-186 | uids run from 1 without gaps; flag, directory and unread agree; a reply names the root of its thread |
| LatencySeed.MessageIs | scripts/latency-seed.py:128-188 | every message by its place alone: conversation, date, ids, and which ones are unread |
| LatencySeed.OnlyTheLastIsUnread | scripts/latency-seed.py:148-149 | at most the last message of a conversation is unread, and then the conversation is |
| LatencySeed.IdsDiffer | scripts/latency-seed.py:131-146 | message ids are all different |
| LatencySeed.DatesIncrease | scripts/latency-seed.py:138-142 | dates strictly increase with the uid |
| LatencySeed.UnreadHead | scripts/latency-seed.py:99-102 | with at least 300 conversations exactly 200 of the newest 300 are unread |
| ApiSeed.ThreadCountIff | scripts/bench-api-seed.py:84-88 | exactly the wanted number of threads appears if and only if messages are between threads and twice as many |
| ApiSeed.ThreadMates | scripts/bench-api-seed.py:84-88 | two messages share a thread if and only if they are a neighbouring pair of the shared part |
| ApiSeed.ThreadNames | scripts/bench-api-seed.py:84-88 | thread k has the messages 2k - 1 and 2k, and later messages are threads of their own |
| ApiSeed.AttachmentIff | scripts/bench-api-seed.py:177-179 | a pair of message and index belongs to one attachment and no other |
| ApiSeed.IndicesAreContiguous | scripts/bench-api-seed.py:177-179 | the attachments of a message are numbered from 0 without gaps |
| ApiSeed.SpreadEvenly | scripts/bench-api-seed.py:177-179 | the numbers of attachments of two messages differ by one at most |
| ApiSeed.EmitBatches | scripts/bench-api-seed.py:140-153 | all rows in order, every statement full but the last and none empty |
| ApiSeed.QuotedReadsBack | scripts/bench-api-seed.py:74-75 | a quoted string is read back as it was and ends where it was ended |
| ApiSeed.QuotedIs | scripts/bench-api-seed.py:74-75 | a string is quoted by two quotes for each of its own and one on either side |

## Left out

- The names of test-only modules (`MOD_DECL`, `is_test_module`) and the `CARVE-OUT` marker of fn-size.py: file name matching.
- Non-ASCII white space and word characters in the patterns of fn-size.py: Unicode tables.
- Grapheme clusters in Swift's string comparisons: text is code points throughout.
- `SMTP.dotStuffed`, the whole-message stuffer: no production code calls it.
- `dropAll` and the cancellation of a waiting call in ImapPool.swift: the first has no production caller, the second has no code.
- Which call gets in next: calls are woken in the order they came, but one that comes between a release and the woken call overtakes it.
- ImapPool.ImapPool.Forget: the same assignment stands in the failing probe and in the failing action, and is one method here.
- EarlierPlan.Device.Earlier: the guards on the protocol and the stored secret come before it, and nothing else changes the store while it waits for the server.
- EarlierPlan.Device.Refresh: of the ordinary pass only what it makes of the mark; which messages it asks for, and what it deletes and caps, is left to its parameters.
- Standard deviations, the resource and disk tables, and the gates on rounds, witness and fingerprint in the two reducers: formatting and single comparisons.
- Message bodies, subjects and senders of the data sets: they are drawn at random and carry no claim.
- Sockets, TLS, SQLite and the keychain: the transport is whatever the model's events and oracles allow.
