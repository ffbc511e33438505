# blockad, modelled and verified in Dafny

blockad follows log files, finds the addresses of break-in attempts in them, counts how often each was seen lately, and blocks those seen too often. This project models the parts of it that hold state or do arithmetic, branch by branch as the code has them, and proves what they do for all inputs, all runs and all interleavings.

| module | what it models |
|---|---|
| `Lines`, `Following` | cutting a growing file into lines, and the reading loop that both followers share |
| `FileSystem` | what other processes may do: create, append, unlink, rename, move in and out; inode numbers may be used again |
| `Inotify`, `InotifyProofs`, `InotifyRotations`, `InotifyWatchers` | the follower that reacts to queued inotify events: specification and machine, proofs over every interleaving, what it loses and repeats, objects |
| `Polling`, `PollingWatchers` | the follower that polls with stat, and what it loses |
| `RateLimit`, `Blocking` | windows of detection times per address, exemptions, blocking; the blocking watcher as an object |
| `Arithmetic`, `Addresses`, `PatternTexts`, `AddressObjects` | sixteen-byte addresses, masks and patterns, and what they mean as 128-bit numbers (section 2.3 of RFC 4291, section 3.1 of RFC 4632; v4-mapped addresses: section 2.5.5.2 of RFC 4291) |
| `Lexer`, `LexerProofs`, `ConfFiles` | tokens of the configuration file: description, grammar and round trip, the loops that read them, and how errors leave the parser |
| `Handover` | handing watchers from one configuration to the next |
| `RegexHandles`, `RegexObjects` | reference counting of compiled regular expressions |
| `EventLoop` | times, the timeout of select, and which watchers are worked on |
| `EndToEnd` | from the bytes of a log file through either follower and the patterns to the book of addresses |
| `Daemon`, `Reloading` | the main loop with its signal pipe, reloads, watchers and book of addresses in one machine; what each slot watches over any sequence of reloads; a reload in place |

Code that changes things in place is modelled by methods on objects and by loops. Each is proved against a function of the old state, and the laws are lemmas about those functions.

`dafny verify dfyconfig.toml` checks everything.

## Where the code departs from its intent

In each case the model does what the code does. The lemmas named say exactly when the code does what it should, in both directions; the examples among them are inputs for which it does not.

- `src/Address.cc:126` compares with an unmasked network, so an exemption written with host bits exempts nothing, although `src/blockad.8:55-58` promises any address in the network: `PatternMeans`, `PatternIsNetworkIff`, `ExemptIff`, `HostBitsExample`.
- `src/blockad.cc:140` compares the new path with the old path of the same number, not of the watcher looked at, and reads past the old paths if there are more new ones: `WrittenWorksIff`, `WrittenReusesAllIff`, `WrongWatcherExample`; over reloads of the daemon, `ReloadWatchesIff`, `WrongStaysWrong` and `RightThroughoutIff`.
- `src/ConfFile.cc:208` tests for one character too many, so a line that ends inside an escape raises `std::out_of_range`. That is not a `runtime_error`, so it passes all handlers and stops the daemon, although `src/blockad.8:85-88` promises that the old configuration is kept: `OutOfRangeGrammar`, `OutOfRangeIff`, `UncaughtIff`, `ReloadOutcome`, `OutOfRangeExample`.
- `src/Regex.cc:29` deletes the old object when its count is not zero: `CompileKeepsSoundIff`. A text that does not compile leaks its object if it was given to a constructor: `ConstructKeepsSoundIff`. The parser does neither: `ParserRuns`.
- `src/PollingWatcher.cc:29-32` closes the file without forgetting it, and `src/WatcherImplementation.cc:21-24` closes it again: `ClosedOnceIffIdle`.
- `src/PollingWatcher.cc:71-76` drops a replaced file without a last read, so what was appended to it since the last poll is not delivered: `Polling.RotationLosesIff`, and for a file that is gone before the first poll `ReplacedBeforeFirstPoll`. It is delivered later, with all the rest of the file once more, if and only if a poll finds the file under the path again: `Polling.ComesBackIff`.
- `src/InotifyWatcher.cc:134-137` closes a file at a directory event without a last read either, so what was appended to it since the follower last looked is not delivered: `ClosesShortIff`, `ShortExample`. It is delivered later if and only if such an event is handled while the name means the file; a file that loses the name before any event for it is handled is never opened: `InotifyRotations.ComesBackIff`.
- `src/InotifyWatcher.cc:134-145` reopens a file at its beginning even if it is the one that is open, or was followed before, so lines are delivered, and counted, twice: `TwiceIff`, `TwiceExample`.
- `src/blockad.cc:92-94` forgets detection times for good, so after a reload that lengthens the interval the window may lack some: `WindowCompleteIff`, `LongerIntervalForgets`.
- `src/blockad.8:81-82` says that a comment starts at the start of a line; in the code it starts at any `#` that begins a token. The model follows the code.

## Assumptions about the environment

- Watched files only grow and have one link. The inotify queue does not overflow, and one event is handled, or one poll made, at a time.
- Opening a file and adding its watch happen together. A watch descriptor is not used again, which is how the kernel numbers them.
- IN_DELETE_SELF may come before the directory's event, after it, or not at all; equal neighbouring events may be merged.
- Where the laws of the rate limiter say so (`Monotone`), the clock is not set back.
- Times fit a 64-bit `time_t`, so `TIME_MAX` is 2^63-1. Counters of references do not overflow.

## Model

| member | source | states |
|---|---|---|
| `Lines.SplitIsSplit` | src/WatcherImplementation.cc:42-70 | reading a text byte by byte yields lines that end in their only newline and a newline-free rest, which together are the text |
| `Lines.SplitUnique` | src/WatcherImplementation.cc:42-70 | there is only one such splitting of a text |
| `Lines.ChunkingIrrelevant` | src/WatcherImplementation.cc:42-70 | reading in any number of pieces has the same outcome as reading all at once |
| `Lines.ReadsRefineSplit` | src/WatcherImplementation.cc:42-70 | for any schedule of reads, lines and partial line are what the reader holds if and only if they are the splitting of the bytes read |
| `Lines.AllLinesConserve` | src/Watcher.h:76-79 | the lines of a finished text, the unfinished last one included, put together give the text |
| `Following.WatcherImplementation.ReadLines` | src/WatcherImplementation.cc:42-70 | the nested loops read to the end of the file and deliver and keep what one pass over the unread bytes gives |
| `Following.WatcherImplementation.FlushLine` | src/InotifyWatcher.cc:79-82 | an unfinished line is delivered as it is before a file is closed, and no empty one is |
| `Following.FlushDelivers` | src/WatcherImplementation.cc:65-66 | after the flush, everything in the session's text has been delivered, line by line |
| `Following.DeliveredStable` | src/Watcher.h:76-79 | what finished sessions delivered is not affected by files growing later |
| `FileSystem.ApplyLookup` | src/InotifyWatcher.cc:134-145 | only an operation that touches a name changes which file it means, and the file of an untouched name keeps its place |
| `FileSystem.ApplyUniqueIds` | src/PollingWatcher.cc:50-51 | a file that is linked or held open keeps its device and inode number to itself under every operation |
| `InotifyProofs.BeginInv` | src/InotifyWatcher.cc:29-48 | the state after construction satisfies the invariant and nothing has been delivered, whatever the file held |
| `InotifyProofs.TouchedIsTold` | src/InotifyWatcher.cc:36-37 | every operation on the watched name queues a directory event for that name |
| `InotifyProofs.FileEventsOf` | src/InotifyWatcher.cc:69-72 | events on a file watch are for the open file, and a self event only comes with an operation that moves or unlinks it |
| `InotifyProofs.OtherKeepsPromises` | src/InotifyWatcher.cc:101-149 | after any operation of another process: a wrong file open means a directory event is queued, unread bytes mean a modification of the current watch is queued, a self event of it means a directory event is queued |
| `InotifyProofs.OtherKeepsReadInTime` | src/InotifyWatcher.cc:120-145 | bytes already there when a directory event is queued have a modification event ahead of it |
| `InotifyProofs.DirEventReopens` | src/InotifyWatcher.cc:134-145 | a directory event for the watched name leaves the file that the name means now open under a new watch and read to its end |
| `InotifyProofs.HandleKeepsPromises` | src/InotifyWatcher.cc:110-148 | handling an event keeps all three promises of the queue |
| `InotifyProofs.HandleKeepsReadInTime` | src/InotifyWatcher.cc:110-148 | handling an event keeps unread bytes ahead of the directory events that would drop them |
| `InotifyProofs.SessionAppended` | src/InotifyWatcher.cc:128-137 | a session that ends has delivered all that the file held when the closing event was queued |
| `InotifyProofs.HandleKeepsAccounts` | src/InotifyWatcher.cc:77-99 | after any event, delivered lines and partial line are those of the finished sessions, each split on its own, and of the open one |
| `InotifyProofs.StepKeepsInv` | src/InotifyWatcher.cc:101-149 | every step, of the follower or of another process, keeps the whole invariant |
| `InotifyProofs.QuiescentAgreement` | src/InotifyWatcher.cc:101-149 | in every interleaving, when no event is pending the open file is the one the name means (none if none) and has been read to its end |
| `InotifyProofs.RunStartsRight` | src/InotifyWatcher.cc:42-47 | in every interleaving, exactly the initial content of the file named at construction is passed over: the first session is of that file and starts at its length, or at 0 if there was none, and all others start at 0 |
| `InotifyProofs.NoLossAtRotation` | src/InotifyWatcher.cc:120-145 | in every interleaving, each finished session fits its file and has delivered all bytes from its start that the file held when the closing directory event was queued, or all of the file if a self event closed it; sessions start at the beginning of their file, the first one after what the file with the name held at construction |
| `InotifyProofs.DeliveredExactly` | src/WatcherImplementation.cc:42-70 | in every interleaving, everything ever delivered is the lines of each session, which is a stretch of its file, split on its own, so no line mixes two sessions; where each session starts; with no file open the partial line is empty |
| `InotifyProofs.CatchesUp` | src/InotifyWatcher.cc:101-149 | from every reachable state the follower's own steps alone lead to agreement with the file system |
| `InotifyRotations.ClosesShortIff` | src/InotifyWatcher.cc:120-137 | in every interleaving, what a session closed by a directory event lacks of its file is exactly what was appended since the follower last looked at it, which is something if and only if somebody appended; a session closed by a self event lacks nothing |
| `InotifyRotations.ShortExample` | src/InotifyWatcher.cc:134-137 | from any state of agreement: after a renaming and then a write to the renamed file, the session that ends lacks that write |
| `InotifyRotations.ComesBackIff` | src/InotifyWatcher.cc:134-145 | in every interleaving and from any point on, a file is followed again, from its beginning and with all it held at that point, if and only if a directory event for the name is handled while the name means it |
| `InotifyRotations.TwiceIff` | src/InotifyWatcher.cc:134-145 | in every interleaving, some byte is in two of the stretches followed if and only if some directory event was handled while the name meant a file of which something had been followed, the open one included |
| `InotifyRotations.TwiceExample` | src/InotifyWatcher.cc:134-145 | from any state of agreement: unlinking the file, creating another in its place and writing to it delivers what was written twice |
| `InotifyWatchers.InotifyWatcher.constructor` | src/InotifyWatcher.cc:29-48 | watches, opens and skips the initial content |
| `InotifyWatchers.InotifyWatcher.OpenFile` | src/InotifyWatcher.cc:59-75 | the object's new state is that of the specification |
| `InotifyWatchers.InotifyWatcher.CloseFile` | src/InotifyWatcher.cc:77-99 | flush, remove the watch, close; new state as specified |
| `InotifyWatchers.InotifyWatcher.HandleEvent` | src/InotifyWatcher.cc:120-145 | one event is handled as specified |
| `InotifyWatchers.InotifyWatcher.Work` | src/InotifyWatcher.cc:101-149 | a buffer of events is taken from the front of the queue and handled in order |
| `InotifyWatchers.WorkIsARun` | src/InotifyWatcher.cc:101-149 | an undisturbed call of work is one of the machine's schedules |
| `Polling.StaleExactly` | src/PollingWatcher.cc:71-76 | comparing device and inode numbers is exact: they differ if and only if the path no longer means the open file, although numbers may be used again |
| `Polling.WorkAgrees` | src/PollingWatcher.cc:68-85 | after each poll the open file is the one the path names, read to its end, and the next poll is a second away |
| `Polling.NextPollTime` | src/PollingWatcher.cc:24-70 | in every run, the follower asks to be called at once after construction and a second after its last poll |
| `Polling.PollKeepsInv` | src/PollingWatcher.cc:55-85 | a poll keeps the invariant, with delivered lines accounted for by prefixes of the files followed |
| `Polling.PollingFollows` | src/PollingWatcher.cc:23-85 | the same over every run; a session has exactly what its file held when it was last polled |
| `Polling.RotationLosesIff` | src/PollingWatcher.cc:71-76 | for any run up to a poll, any operations of others and the next poll: if the path still means the file, all of it has been read; if not, its session has exactly what it held at the first poll, and lacks exactly what was appended in between, which is something if and only if somebody appended |
| `Polling.ReplacedBeforeFirstPoll` | src/PollingWatcher.cc:23-27 | of a file opened at construction and replaced before the first poll nothing is delivered |
| `Polling.ComesBackIff` | src/PollingWatcher.cc:71-84 | in every run, from any point at which a file is not open, what it holds is delivered, from its beginning, if and only if a later poll finds the path meaning it |
| `Polling.ClosedOnceIffIdle` | src/PollingWatcher.cc:29-32 | over the life of the object every handle is closed exactly once if and only if no file is open at destruction; an open one is closed twice |
| `PollingWatchers.PollingWatcher.constructor` | src/PollingWatcher.cc:23-27 | opens the file if it exists and reads from its beginning |
| `PollingWatchers.PollingWatcher.PollFd` | src/PollingWatcher.cc:34-38 | no descriptor, and the limit is brought forward to the next poll |
| `PollingWatchers.PollingWatcher.Work` | src/PollingWatcher.cc:68-85 | the object's new state is that of the specification |
| `PollingWatchers.PollingWatcher.Destroy` | src/WatcherImplementation.cc:21-24 | both destructors close what is open, the second because the first does not clear it |
| `RateLimit.DetectFrame` | src/blockad.cc:85-103 | a detection leaves all other addresses alone |
| `RateLimit.NoInterference` | src/blockad.cc:73-117 | what becomes of an address depends only on its own detections and on the configurations, however they are interleaved with others |
| `RateLimit.WindowExactly` | src/blockad.cc:86-102 | under any reloads the window of an address is its recorded detections from the latest limit on that any of them imposed |
| `RateLimit.SlidingWindow` | src/blockad.cc:86-102 | with one configuration the window is all detections of the last interval in the whole history, and a block is attempted if and only if they are more than rate_max |
| `RateLimit.AttemptedIff` | src/blockad.cc:77-102 | with one configuration and a clock that is not set back, a block of an address is attempted if and only if it lies in no exempt network (one written without host bits), is not blocked, and was detected more than rate_max times in the last interval |
| `RateLimit.PolicyIsLatest` | src/blockad.cc:307-309 | after a reload its configuration decides until the next |
| `RateLimit.AttemptsAreSound` | src/blockad.cc:97-101 | after any reloads an attempt means more than rate_max recorded detections within the present interval |
| `RateLimit.WindowCompleteIff` | src/blockad.cc:91-96 | the window is all of the present interval if and only if nothing recorded in it lies before the horizon |
| `RateLimit.NarrowingIsComplete` | src/blockad.cc:86-102 | which is so whenever no reload lengthened the interval, and then attempts are exact |
| `RateLimit.LongerIntervalForgets` | src/blockad.cc:91-94 | a run in which a longer interval has lost a detection |
| `RateLimit.BlockedOnce` | src/blockad.cc:87-101 | after a successful block of an address no attempt on it is ever made again |
| `RateLimit.EveryBlockIsForGood` | src/blockad.cc:87-101 | the same for all events of a run at once |
| `RateLimit.AttemptOutcome` | src/blockad.cc:99-100 | an attempt is only made on an address not blocked, which is blocked after it if and only if it succeeded |
| `RateLimit.BlockedIffSucceeded` | src/blockad.cc:88-101 | an address is marked blocked if and only if some attempt on it has succeeded |
| `RateLimit.ExemptIff` | src/blockad.cc:79-84 | an address is exempt if and only if it lies, by its number, in some exempt network that is written without host bits |
| `RateLimit.ExemptNeverAttempted` | src/blockad.cc:79-84 | no attempt on an address inside a network exempt at the time, unless the network is written with host bits |
| `Blocking.BlockingWatcher.IsExempt` | src/blockad.cc:79-84 | the loop finds out whether the address lies in some exempt network that is written without host bits |
| `Blocking.BlockingWatcher.DetectedAddress` | src/blockad.cc:77-103 | new book and attempt as specified, for either answer of the block method |
| `Blocking.BlockingWatcher.ProcessLine` | src/blockad.cc:58-70 | one detection for each matching pattern in order, up to a capture that is not an address |
| `Blocking.DetectionsCompose` | src/blockad.cc:58-70 | the patterns of a line are gone through in order, and a capture that is no address ends it |
| `Blocking.DetectionsOfOne` | src/blockad.cc:61-68 | a capture that matched is one detection of its address at its time, one that did not is none |
| `Blocking.PlayContinues` | src/blockad.cc:117 | what one watcher does continues the one run that all watchers share |
| `Addresses.OrderIsNumeric` | src/Address.h:68-70 | memcmp order is the order of 128-bit numbers and is total |
| `Addresses.PartialMaskTops` | src/Address.cc:117-118 | the partly filled mask byte clears exactly the low bits |
| `Addresses.MaskIsRounding` | src/Address.cc:113-121 | masking byte by byte clears all but the first k bits, for every k and length |
| `Addresses.RoundingRounds` | src/Address.cc:113-121 | which rounds the number down to a multiple of what the other bits can hold |
| `Addresses.MatchesIsArithmetic` | src/Address.cc:124-129 | for every k from 0 to 128, matches holds if and only if the first k bits agree and the pattern's other bits are zero |
| `Addresses.PatternIsNetworkIff` | src/Address.cc:124-129 | a pattern matches the network it is written as if and only if its host bits are zero; otherwise it matches nothing |
| `Addresses.HostBitsExample` | src/blockad.8:55-58 | 127.0.0.1/8 does not match 127.0.0.1 |
| `Addresses.MatchesIsInterval` | src/Address.cc:124-129 | without host bits the matches are an interval of the order |
| `Addresses.PatternsAreLaminar` | src/Address.cc:113-129 | two such patterns are nested or disjoint |
| `Addresses.PatternSize` | src/Address.cc:113-129 | such a pattern matches exactly 2^(128-k) addresses |
| `Addresses.V4PatternMatchesV4` | src/Address.cc:104-107 | a pattern written as IPv4 matches only v4-mapped addresses |
| `Addresses.AllOfV4` | src/Address.h:49-50 | 0.0.0.0/0 matches all of them and nothing else |
| `PatternTexts.PatternMeans` | src/Address.cc:81-129 | for every text and every mask text: which masks are refused, and that the pattern matches exactly the addresses meant. Without a mask that is the one address written; with one it is, by arithmetic on the 128 bits or on the four bytes written, the network, provided it has no host bits |
| `PatternTexts.AllMean` | src/Address.cc:29-54 | and the address that a text is parsed to is the one written |
| `PatternTexts.MappedIsArithmetic` | src/Address.cc:56-61 | v4-mapped addresses are those whose upper 96 bits are 0xFFFF |
| `AddressObjects.Convert` | src/Address.cc:29-47 | the buffer holds the address, v4-mapped if written as IPv4, or is left alone |
| `AddressObjects.Address.constructor` | src/Address.h:54-56 | the address :: |
| `AddressObjects.Address.Assign` | src/Address.cc:51-54 | the address written, or an exception |
| `AddressObjects.Address.Is4` | src/Address.cc:56-61 | true if and only if the address is v4-mapped |
| `AddressObjects.AddressPattern.constructor` | src/Address.h:87-90 | the pattern of no bits |
| `AddressObjects.AddressPattern.Assign` | src/Address.cc:81-122 | network and mask for each accepted text, which then match exactly the addresses meant; refusal of exactly the masks out of range or malformed, and what is left behind then: the new network under the old mask |
| `AddressObjects.AddressPattern.MatchesAddress` | src/Address.cc:124-129 | the loop decides whether the masked address is the network |
| `LexerProofs.SplitComposes` | src/ConfFile.cc:164-192 | a line without error or comment can be continued after a blank: its tokens, then the outcome of the rest |
| `LexerProofs.LineExactly` | src/ConfFile.cc:164-192 | the grammar of lines in both directions: a line reads as given tokens if and only if it is blanks and tokens with those meanings, of which bare ones are followed by a blank, and then nothing, a comment, or a bare token |
| `LexerProofs.CommentAtEnd` | src/ConfFile.cc:172-174 | a comment after a blank changes nothing about a line that reads without error |
| `LexerProofs.DoubleQuotedExactly` | src/ConfFile.cc:194-264 | a text reads as a double-quoted string with a given meaning if and only if it is made of legal pieces with that meaning |
| `LexerProofs.SingleQuotedExactly` | src/ConfFile.cc:202-205 | a single-quoted string is everything up to the next single quote, as it stands |
| `LexerProofs.PieceReads` | src/ConfFile.cc:206-258 | each legal spelling of a character, in its context, is read as that character |
| `LexerProofs.SpellingReads` | src/ConfFile.cc:164-192 | bare, single-quoted and double-quoted spellings of a token are read as that token |
| `LexerProofs.LineReads` | src/ConfFile.cc:164-192 | a line of tokens in any legal spellings is read as those tokens |
| `LexerProofs.EscapesStandFor` | tests/testconf1:6 | the escapes of the test file stand for the bytes its test expects |
| `LexerProofs.LettersExactly` | src/ConfFile.cc:210-257 | which letters after a backslash stand for what, and that all others but x and octal digits are errors |
| `LexerProofs.DigitsDecode` | src/ConfFile.cc:266-273 | hexadecimal digits of either case have their values |
| `LexerProofs.OutOfRangeIff` | src/ConfFile.cc:206-210 | the exception no handler expects is thrown if and only if the line ends in a backslash after an unterminated string that a double quote would finish |
| `LexerProofs.OutOfRangeGrammar` | src/ConfFile.cc:206-210 | the same by grammar: complete tokens, a double quote, legal pieces of a string, and a backslash that ends the line |
| `LexerProofs.OutOfRangeExample` | src/ConfFile.cc:208-210 | a double quote and a backslash make such a line |
| `ConfFiles.UnlinesOfFile` | src/StdioFile.cc:63-72 | the lines of a file, each with a newline, are the file, or the file with the newline it lacks |
| `ConfFiles.LinesOfUnlines` | src/StdioFile.cc:63-72 | lines without newlines written one after another are read back |
| `ConfFiles.ConfigRoundTrip` | src/ConfFile.cc:164-264 | any lists of any strings can be written as a file, one list a line, and are read back as they were |
| `ConfFiles.WrittenFileLoads` | src/ConfFile.cc:39-61 | and the file so written comes to exactly what its directives come to one after another, or is refused with the number of the first in error |
| `ConfFiles.IdleLine` | src/ConfFile.cc:60-61 | a line of blanks, with or without a comment, leaves the configuration alone |
| `ConfFiles.LoadExactly` | src/ConfFile.cc:39-55 | a file is accepted, with a given configuration, if and only if every line is in order and they come to it; it is a syntax error at a given line if and only if that is the first line in error and does not end inside an escape; and an exception nobody catches at that line if it does |
| `ConfFiles.UncaughtIff` | src/ConfFile.cc:43-54 | reading a file ends in an exception nobody catches if and only if some line ends inside an escape and no line before it is in error |
| `ConfFiles.StdioFile.ReadLine` | src/StdioFile.cc:63-72 | a line without its newline, or false at the end of the file |
| `ConfFiles.ReadHex` | src/ConfFile.cc:223-236 | takes the maximal run of digits and gives its base-16 value, or fails if and only if that exceeds 255 |
| `ConfFiles.ReadOctal` | src/ConfFile.cc:237-255 | takes one to three digits and gives their base-8 value, or fails if and only if that exceeds 255 |
| `ConfFiles.ReadEscape` | src/ConfFile.cc:206-258 | every escape, and the read past the end of the line that the length test lets through |
| `ConfFiles.ConfFile.ParseString` | src/ConfFile.cc:194-264 | string and rest of the line as specified; the position returned is beyond the start and within the line |
| `ConfFiles.ConfFile.SplitLine` | src/ConfFile.cc:164-192 | tokens or error as specified |
| `ConfFiles.ConfFile.Parse` | src/ConfFile.cc:39-55 | the configuration, or the number of the first line in error and whether the exception is one that main handles |
| `Handover.PlanConserves` | src/blockad.cc:136-159 | no watcher is lost, fills two slots, or is both kept and deleted |
| `Handover.IntendedHandover` | src/blockad.cc:129-131 | the evident intent: slot i gets a watcher of path i, and of each path as many are kept as both configurations have |
| `Handover.WrittenPlan` | src/blockad.cc:139-146 | what the code does: it deals old watchers out in order, one for each number whose path did not change |
| `Handover.WrittenWorksIff` | src/blockad.cc:139-146 | the code stays in bounds and gives every slot its own path if and only if there were no paths, or there are no more than before and those that keep their number keep their order |
| `Handover.WrittenReusesAllIff` | src/blockad.cc:139-146 | it keeps as many watchers of each path as intended if and only if no path has moved to another number |
| `Handover.PrefixIsRight` | src/blockad.cc:139-146 | an unchanged list, or one with paths removed from its end, keeps every watcher in place |
| `Handover.WrongWatcherExample` | src/blockad.cc:140 | changing the first of two paths gives the second the watcher of the first |
| `Handover.FindOld` | src/blockad.cc:139-142 | the inner loop finds the first old slot that the comparison as written allows |
| `Handover.UpdateWatchers` | src/blockad.cc:130-160 | new watchers, emptied slots and deletions are those of the plan, or the old paths are read out of bounds if and only if there are too few |
| `Handover.KeptIsLeft` | src/blockad.cc:154-159 | the watchers deleted are those that the plan leaves in their slots, in order |
| `RegexHandles.DefaultKeepsSound` | src/Regex.cc:22 | a new empty handle disturbs nothing |
| `RegexHandles.CopyKeepsSound` | src/Regex.cc:40-43 | copying a handle keeps every count equal to the number of handles |
| `RegexHandles.AssignKeepsSound` | src/Regex.cc:45-54 | so does assigning one, to itself or to another of the same object too |
| `RegexHandles.DestroyKeepsSound` | src/Regex.cc:56-59 | so does destroying one, and the last one deletes the object |
| `RegexHandles.CompileKeepsSoundIff` | src/Regex.cc:28-38 | compiling keeps the counts right if and only if the handle is empty |
| `RegexHandles.ConstructKeepsSoundIff` | src/Regex.cc:24-26 | constructing from a text does if and only if the text compiles |
| `RegexHandles.RunSoundIff` | src/Regex.cc:22-59 | a run keeps them right throughout if and only if it only compiles empty handles and only constructs from texts that compile |
| `RegexHandles.AllFreedOnce` | src/Regex_.h:83-85 | and when its last handle is gone every object has been deleted exactly once |
| `RegexHandles.ParserRuns` | src/ConfFile.cc:82-109 | in every run that only compiles a handle right after making it, with copies, temporaries, assignments and texts that do not compile in any number and order, the counts are right throughout, and every object has been deleted exactly once when no handle is left |
| `RegexHandles.ParserUse` | src/ConfFile.cc:82-109 | the shortest use of that kind leaves one handle with a count of one |
| `RegexObjects.Regex.CopyOf` | src/Regex.cc:40-43 | new handles and counts as specified |
| `RegexObjects.Regex.Compile` | src/Regex.cc:28-38 | the same, with the deletion test as it is written |
| `RegexObjects.Regex.Assign` | src/Regex.cc:45-54 | the same |
| `RegexObjects.Regex.Destroy` | src/Regex.cc:56-59 | the same |
| `EventLoop.TimesAreMicros` | src/timeval.h:33-70 | for normal times, differences are normal and both they and the comparisons are those of microseconds |
| `EventLoop.TimeoutIs` | src/blockad.cc:258-265 | the timeout is the time to the limit, or zero if that has passed |
| `EventLoop.Collect` | src/blockad.cc:241-252 | the descriptors to wait for, the largest of them, and the earliest timer |
| `EventLoop.WorkDue` | src/blockad.cc:278-288 | a watcher is worked on if and only if its descriptor is in the set that select returned, or its second has come, in order |
| `EventLoop.EarliestIsDue` | src/blockad.cc:258-288 | when the timeout has run out the earliest timers are due, and none is before |
| `Daemon.NoSignalLost` | src/blockad.cc:234-296 | in every interleaving a SIGHUP that came after the last reload began is pending or in the pipe at the loop head, makes the wait end, and has led to a reload by the next loop head unless the wait was interrupted; reloads never outnumber signals |
| `Daemon.EveryTurnReloads` | src/blockad.cc:234-303 | in every interleaving, from the loop head with such a signal to any later time there after a wait that was not interrupted, with any detections and further signals at any point between, a reload has begun |
| `Daemon.NextTurnReloads` | src/blockad.cc:234-303 | and such a turn is possible, however many more signals arrive during the wait |
| `Daemon.InterruptedThenServed` | src/blockad.cc:271-277 | a wait that a signal interrupts is given up, and the signal it had is served by the next turn |
| `Daemon.SignalsAddUp` | src/blockad.cc:118-128 | signals that arrive while the signal is not blocked are written to the pipe until it is full, and any number that arrive while it is are remembered as one |
| `Daemon.FourAtATime` | src/blockad.cc:290-295 | signals that came before a wait lead, if no more come, to one reload for every four or part of four, and then to none |
| `Daemon.ReloadOutcome` | src/blockad.cc:297-310 | a reload replaces the configuration, hands the watchers over and keeps the book if and only if every line of the text is in order and it has no more paths than before; otherwise it changes nothing; the daemon stops if and only if the text is one of those described by UncaughtIff or has more paths |
| `Daemon.SlotsAfterReload` | src/blockad.cc:136-152 | what each slot watches after a reload with no more paths than before, whatever the old slots watched |
| `Daemon.ReloadWatchesIff` | src/blockad.cc:305-309 | after such a reload, from any state, each watcher watches the path of its slot if and only if the watchers dealt out to numbers that kept their paths watched those paths; if none was wrong before, if and only if the paths keep their order |
| `Daemon.WrongStaysWrong` | src/blockad.cc:305-309 | a reload that changes no path, or removes some from the end, leaves every other slot with the watcher it has, right or wrong |
| `Daemon.RightThroughoutIff` | src/blockad.cc:305-309 | over any sequence of reloads, every slot watches its own path throughout if and only if each of them keeps the order of paths |
| `Daemon.DaemonDetectsAll` | src/blockad.cc:77-103 | in every run, all detections by any watcher get to the book, in order, and no others |
| `Daemon.DaemonBlocksOnce` | src/blockad.cc:73-117 | over the life of the daemon, through all reloads, blocking is exactly that of the rate limiter's run: once per address, and for good |
| `EndToEnd.LinesAreDetected` | src/blockad.cc:58-70 | of each line, in order, exactly the addresses that the patterns find in it are detected, up to a capture that is no address |
| `EndToEnd.InotifyToBook` | src/blockad.cc:58-103 | in every interleaving of the inotify follower: the detections are of exactly the addresses in the lines of the bytes of its sessions, on top of any history the book is that of those detections, each address is blocked at most once and if and only if an attempt succeeded, and with one configuration from the start and a clock that is not set back an attempt on an address neither exempt nor blocked is made exactly when its detections within the interval are too many |
| `EndToEnd.PollingToBook` | src/blockad.cc:58-103 | the same for the follower that polls |
| `Reloading.Process.constructor` | src/blockad.cc:230-232 | the first watchers watch the configured paths |
| `Reloading.Process.Reload` | src/blockad.cc:297-310 | parse, hand over, replace: configuration and watched paths as in the daemon machine, which watchers were kept in which slots and which were deleted; unchanged after a syntax error |

## Left out

- `inet_pton`, `inet_ntop`, `strtol`, `regcomp`, `regexec`: library functions; their results are inputs of the model (`AddressText`, `MaskText`, `Capture`, and whether a text compiles).
- `Regex::execute` and `Regex::captures`: they pass on what the library reports.
- Directives of the configuration file: what a list of tokens does to the configuration is a parameter (`Directive`), because each is a short check of arguments.
- Block methods, `execute` and the method registry: a block is a call that answers yes or no.
- stdio buffering, error messages, logging, the pid file, option parsing and becoming a daemon.
- Read errors, other failures of fopen than a missing file, and failures of inotify calls: each ends the daemon. The spurious EINVAL of `src/InotifyWatcher.cc:84-93` has the outcome of a successful removal.
- Exceptions in the middle of `updateWatchers`, which end the daemon, and the non-blocking mode it sets on new descriptors.
- The endless loop of `main` as one method: it is the machine in `Daemon`, whose steps are its statements between which a signal can come. The followers are not part of that machine; a line reaches it as the detections it contains, which `EndToEnd` derives from the bytes of one log at a time.
- `RegexObjects.Regex.Compile`: a reference to an object after its deletion is undefined in C++; the model goes on counting, and the laws say when that cannot happen.
- `getDirName` and `getBaseName`: pure functions of one branch each.
- `StdioFile::open`, `close` and `printf`: not used by the parser.
