# Ransomware guard: a verified model

The repository guards a file server against ransomware. A Samba VFS module copies a file to a store
before a client can destroy it and refuses clients whose address is in a blocked file. A daemon
receives one message per file operation, counts what each session does in tumbling windows, scores
it, blocks sessions that reach the critical score and writes its verdicts into a JSON policy file.
A recovery tool copies the stored files back.

This project models those parts in Dafny and proves what they keep. The hash (FNV-1a) is any
function: nothing depends on it being free of collisions. Time, the results of system calls, and
the answers of the entropy and YARA scanners are inputs of each step, so every statement holds for
all of them. Loops and field updates of the C code are methods and classes; each is proved equal to
a function of the old state, and the properties are lemmas about those functions.

| file | component |
|---|---|
| `Base.dfy` | shared small types, and induction over runs |
| `JsonText.dfy`, `JsonNumber.dfy`, `JsonTree.dfy` | JSON strings, numbers and trees: what is parsed, what is printed, the round trip |
| `JsonEscapes.dfy`, `JsonNumerals.dfy` | the meaning of string literals by the tables of the standards, and of decimal numerals |
| `JsonGrammar.dfy` | the language that the parser accepts, as a grammar, and how a printed tree is laid out |
| `JsonSize.dfy` | how much a text grows when it is parsed and printed |
| `Bits.dfy` | the bit operators of C on unsigned numbers |
| `JsonParser.dfy`, `JsonPrinter.dfy` | the recursive-descent parser and the growing print buffer, byte by byte |
| `JsonList.dfy` | sibling lists on the heap, and the duplication of trees |
| `Session.dfy`, `SessionTable.dfy` | windows, counters and directory sets of a session; the open-addressed table |
| `Scorer.dfy` | the risk score |
| `HashLookup.dfy`, `PolicyLookup.dfy` | hash-sorted lists; exceptions, white- and blacklist |
| `BlockedFile.dfy`, `AutoBlacklist.dfy`, `PolicyFile.dfy` | the block list as text lines, as a queue in memory and as a JSON array |
| `Daemon.dfy`, `ProcessMsg.dfy` | the step function of the daemon and the routine that computes it |
| `Exemptions.dfy` | which messages the daemon passes over, refuses or counts, by the configured lists and switches |
| `Assessment.dfy` | what one message does to its session, in plain words |
| `PolicyPersist.dfy` | the routine that writes a verdict into the policy file |
| `PolicyReload.dfy`, `Lockstep.dfy` | the daemon's verdicts across reloads: memory, policy file and blocked file in step over whole runs |
| `EventId.dfy`, `FloodGate.dfy` | event ids; the event flood gate |
| `CopyFd.dfy`, `VfsBackup.dfy`, `VfsCallbacks.dfy`, `Restore.dfy` | copying, backup callbacks and recovery |

## What the code does not do

Where the code differs from its comments or from what one expects of it, the model follows the code.

- Appending a node whose `next` is set leaves that successor in the list (`JsonList.AddItemToArray`).
- The parser does not look at what follows the tree, takes every byte up to the space for a blank, and
  cuts a string at an escaped NUL (`JsonGrammar.ParseIff`). Of a number it reads 63 bytes and goes on
  behind them (`JsonNumerals.NumeralStands`).
- Four bytes that are no hexadecimal digits behind `\u` read as U+0000, which ends the C string there
  (`JsonEscapes.MalformedUnitIsNul`).
- From 2^32 / 100 content-same writes on, the percentage wraps and the suppression of the score is
  lost (`Scorer.SuppressesIffSmall`, with the input of `Scorer.WrapLosesSuppression`).
- A delete-only session stays below critical only where the critical threshold is above 60
  (`Scorer.CriticalIff`); one more deletion lowers some scores (`Scorer.DeletionLowersIff`, with the
  input of `Scorer.DeletionMayLower`).
- A YARA hit adds its weight once and forces nothing (`Scorer.YaraForcesNothing`), although
  tests/test_scorer.c:48-53 and a comment in `process_msg` expect a critical level.
- Opening with O_TRUNC but without O_CREAT, read-only or with O_APPEND, destroys a file that is not
  backed up, and so does any truncating open by a name under /proc (`VfsBackup.OpenLosesIff`,
  `VfsBackup.UnguardedTruncations`).
- A file whose full path does not fit the path buffer is not seen by the module: in strict mode, too,
  it is opened, cut and removed without a backup (`VfsBackup.OpenLosesIff`, `VfsBackup.CutLosesIff`,
  `VfsBackup.UnlinkLosesIff`, with the input of `VfsBackup.LongNameIsRemoved`).
- A deferred backup that failed once, or has no path, lets the next write or truncation through in
  strict mode too (`VfsBackup.CutLosesIff`, `VfsBackup.WriteLosesIff`): a truncation that was denied
  goes through when the client repeats it (`VfsBackup.RetriedCutIsNotDenied`).
- A quarantine name within three characters of its buffer is not made unique although fewer than 100
  share it: its numbered forms are cut, and the comment that the original is kept does not hold
  (`Restore.UniqueIsFreeIff`, `Restore.FullNameIsNotUnique`).
- A restore goes on when neither a rename nor a copy has moved the displaced file into quarantine, and
  overwrites it (`Restore.RestoreKeepsDisplacedIff`, with the input of `Restore.UnmovedIsOverwritten`).
- A row whose backup is the file itself empties the file where it cannot be moved
  (`Restore.RestoreOntoItself`).
- Created files with names too long for the buffer are cut to one quarantine path, where the second
  replaces the first (`Restore.CutNamesCollide`).
- A block by score whose message also ends the long window calls for a restore with an empty event id,
  so that none starts although automatic restore is on (`Daemon.TriggersIff`).
- On the local day of the epoch a restart repeats event ids (`EventId.EpochDayRepeats`).
- A policy file whose root is not an object takes no entry, and neither does one whose `blacklist`
  or `ips` member is hidden behind an ill-typed one of the same name, although the call succeeds
  (`PolicyFile.NoObjectNoEntry`, `PolicyFile.EditIsHidden`, `PolicyFile.TwoBlacklists`).
- The loader keeps the first 64 addresses of the blacklist, and a verdict is appended at the end: with
  64 addresses before it, it is written but not loaded (`PolicyFile.EntryLoadsIff`,
  `PolicyFile.FullListDropsVerdict`), and as it is listed from then on, no later call moves it
  (`PolicyFile.ListedLoadsIff`, `PolicyFile.SecondCallChangesNothing`). A rewritten file over 4 MiB is not loaded at all
  (`PolicyFile.PersistThenLoad`).

## Model

| member | source | states |
|---|---|---|
| `JsonText.Utf8Decodes` | src/common/cJSON.c:723-774 | the bytes written for a code point are its shortest form by the table in section 3 of RFC 3629, and decode to it |
| `JsonText.FitsLiteral` | src/common/cJSON.c:660-778 | a `\u` escape, valid or not, never outgrows what the first pass counted for the bytes it consumes |
| `JsonText.PassTwoFits` | src/common/cJSON.c:794-885 | for every literal the decoded string is no longer than the first pass reserved |
| `JsonText.DecodePieces` | src/common/cJSON.c:827-885 | any sequence of raw bytes, short escapes, `\u` escapes and surrogate pairs decodes to the UTF-8 of its code points and ends at its own quote |
| `JsonEscapes.LiteralMeans` | src/common/cJSON.c:623-908 | at any place of any buffer, a literal means what the tables of section 7 of RFC 8259 say: hex digits of either case at their table value, surrogate pairs, named escapes and plain bytes, in any order |
| `JsonEscapes.BadLiteralFails` | src/common/cJSON.c:660-720 | whatever comes before and after, a literal with an unknown escape, a lone second half or a first half without a second one is turned away |
| `JsonEscapes.MalformedUnitIsNul` | src/common/cJSON.c:623-656 | four bytes that are no hex digits all read as U+0000 |
| `JsonText.EscapeLength` | src/common/cJSON.c:938-962 | the length that the escaper computes beforehand is that of the text it writes |
| `JsonText.EscapeMeans` | src/common/cJSON.c:982-1024 | the escaped text is a sequence of well-formed pieces that mean the original bytes |
| `JsonText.StringRoundTrip` | src/common/cJSON.c:911-1030 | at any place of any buffer, parsing an escaped NUL-free string gives the string back and stops behind its quote |
| `JsonTree.ParsedValueBounded` | src/common/cJSON.c:1325-1377 | whatever parses holds no NUL in its strings and nests no deeper than the limit of 1000 |
| `JsonGrammar.ParsesIff` | src/common/cJSON.c:1325-1729 | at any place and depth the parser reads a tree exactly where the tree stands written by the grammar and nests within the limit: brackets, commas, colons, quotes and blanks in their places, and nothing else |
| `JsonGrammar.ParseIff` | src/common/cJSON.c:1086-1192 | the parser accepts exactly the texts that begin, behind a byte order mark and blanks, with a tree of at most 1000 nested containers, and gives that tree |
| `JsonNumber.NormalKeepsValue` | src/common/cJSON.c:307-381 | a parsed decimal is kept in a normal form of the same value |
| `JsonNumber.NormalShift` | src/common/cJSON.c:307-381 | decimals of the same value have the same normal form: `7.0` and `70e-1` are the integer 7 |
| `JsonNumerals.NumeralMeans` | src/common/cJSON.c:352-380 | every numeral, with any sign, point and power and with anything behind it that does not carry it on, is read as the decimal it says, and no further |
| `JsonNumerals.NumeralStands` | src/common/cJSON.c:322-351 | in place in a larger text the same holds up to the next byte of which no numeral is made, and at 63 bytes whatever follows |
| `JsonNumerals.NoNumeral` | src/common/cJSON.c:352-356 | without a digit there is no number |
| `JsonNumber.ToValueInt` | src/common/cJSON.c:362-374 | the saturated integer beside the number: cut toward zero, and to the range of an `int` |
| `JsonNumber.GeneralBack` | src/common/cJSON.c:579-580 | what `%1.15g` writes, with a point, with an exponent or with neither, `strtod` reads as the decimal it was written for |
| `JsonNumber.NumberBack` | src/common/cJSON.c:553-619 | the text of an `int`, or of a number of at most 15 significant digits in the range of normal doubles, is read back as that number |
| `JsonNumerals.GeneralForm` | src/common/cJSON.c:579-580 | a power of ten is printed exactly where `%1.15g` asks for one |
| `JsonNumerals.ExponentForm` | src/common/cJSON.c:579-580 | how that power is printed |
| `JsonNumerals.SignificantEnds` | src/common/cJSON.c:579-580 | the printed digits end in no zero |
| `JsonNumber.NumberTextLength` | src/common/cJSON.c:558-594 | that text fits the buffer of 26 bytes |
| `JsonTree.NumberRoundTrip` | src/common/cJSON.c:307-381 | in place in a larger text, parsing a printed number gives the number and stops behind it |
| `JsonTree.ValueRoundTrip` | src/common/cJSON.c:1325-1729 | at any place of any buffer, parsing a printed tree gives the tree back, order and duplicate keys kept |
| `JsonTree.RoundTrip` | src/common/cJSON.c:1380-1843 | whole texts, formatted or not, followed by any blanks: parsing gives back the printed tree |
| `JsonTree.ReprintKeepsMeaning` | src/common/cJSON.c:1184-1272 | parsing, printing and parsing a text again gives the same tree |
| `JsonGrammar.ArrayLayout` | src/common/cJSON.c:1552-1611 | items stand on one line with `, ` between them, or `,` where the text is not formatted |
| `JsonGrammar.ObjectLayout` | src/common/cJSON.c:1732-1843 | members stand on a line each, one tab deeper than their object, with a tab behind the colon; an empty object too takes two lines |
| `JsonSize.ValueGrowth` | src/common/cJSON.c:1325-1843 | what any parsed value prints to is bounded by the bytes it was parsed from: indentation, escapes and numbers included |
| `JsonSize.ReprintFits` | src/common/cJSON.c:447-530 | a text of up to 4 MiB is never too long for the print buffer when it is parsed and printed |
| `JsonParser.ParseHex4` | src/common/cJSON.c:623-656 | the loop computes the value of four hex digits, and 0 for anything else |
| `JsonParser.WriteUtf8` | src/common/cJSON.c:723-774 | the bytes made from the back with the masks and shifts of the source are the UTF-8 form of the code point, inside the buffer |
| `Bits.ContinuationBits` | src/common/cJSON.c:759-759 | `(a | 0x80) & 0xBF` is the mark of a continuation byte over the six low bits |
| `Bits.SurrogateBits` | src/common/cJSON.c:715-715 | `((first & 0x3FF) << 10) | (second & 0x3FF)` joins the values that two surrogates carry |
| `JsonParser.Utf16LiteralToUtf8` | src/common/cJSON.c:660-778 | bytes written and consumed are those of the literal; 0 exactly for an invalid one |
| `JsonParser.ParseBuffer.SkipWhitespace` | src/common/cJSON.c:1047-1070 | moves to the next byte above 32 and, at the end of the buffer, back onto the last byte |
| `JsonParser.ParseBuffer.FindStringEnd` | src/common/cJSON.c:794-825 | finds the closing quote and counts the skipped bytes |
| `JsonParser.ParseBuffer.Unescape` | src/common/cJSON.c:827-885 | decodes into a buffer of exactly the reserved length and never writes outside it |
| `JsonParser.ParseBuffer.ParseString` | src/common/cJSON.c:781-908 | succeeds exactly on literals that decode, with their bytes and the offset behind the quote |
| `JsonParser.ParseBuffer.ParseNumber` | src/common/cJSON.c:307-381 | converts at most 63 number bytes as `strtod` does, with the saturated integer beside the number |
| `JsonParser.ParseBuffer.ParseItem` | src/common/cJSON.c:1325-1377 | computes the parse of the value at the offset; on success it has moved forward and not past the end; terminates by the remaining length |
| `JsonParser.ParseBuffer.ParseArrayItem` | src/common/cJSON.c:1454-1549 | the same for arrays, with the depth restored and the limit respected |
| `JsonParser.ParseBuffer.ParseNextItem` | src/common/cJSON.c:1488-1526 | one round of the element loop, from its step-back offset, reads exactly one element |
| `JsonParser.ParseBuffer.ParseObjectItem` | src/common/cJSON.c:1614-1729 | the same for objects |
| `JsonParser.ParseBuffer.ParseOneMember` | src/common/cJSON.c:1675-1700 | key, colon and value of one member |
| `JsonParser.ParseText` | src/common/cJSON.c:1104-1192 | the whole parser computes the parse of the text; an error position lies inside the text and its terminator |
| `JsonTree.PrintHasNoNul` | src/common/cJSON.c:533-543 | a printed text holds no NUL, so `strlen` finds its end |
| `JsonPrinter.PrintBuffer.Ensure` | src/common/cJSON.c:447-530 | gives room for the bytes asked for, keeps what was written, fails only past the range of an `int` |
| `JsonPrinter.PrintBuffer.UpdateOffset` | src/common/cJSON.c:533-543 | moves the offset to the end of the text in the buffer |
| `JsonPrinter.PrintBuffer.PrintString` | src/common/cJSON.c:911-1030 | appends the quoted text; the precomputed length is exactly what the copy loop writes |
| `JsonPrinter.PrintBuffer.PrintNumber` | src/common/cJSON.c:553-619 | appends the text of a number |
| `JsonPrinter.PrintBuffer.PrintItem` | src/common/cJSON.c:1380-1451 | appends the text of a value |
| `JsonPrinter.PrintBuffer.PrintArray` | src/common/cJSON.c:1552-1611 | appends the text of an array |
| `JsonPrinter.PrintBuffer.PrintObject` | src/common/cJSON.c:1732-1843 | appends the text of an object with its indentation |
| `JsonPrinter.Print` | src/common/cJSON.c:1196-1272 | returns the text of the tree, and succeeds whenever the text is short enough for an `int` |
| `JsonList.AddItemToArray` | src/common/cJSON.c:1974-2005 | appends to the sibling list; the result is a list exactly when it was empty or the item had no successor; nothing else is written |
| `JsonList.ChainParsed` | src/common/cJSON.c:1488-1540 | the items that a container parser reads are chained into a linked list of new nodes, its head's `prev` at the tail |
| `JsonList.GetArrayItem` | src/common/cJSON.c:1869-1886 | the node at an index, or null past the end |
| `JsonList.DetachItem` | src/common/cJSON.c:2205-2239 | removes exactly that node and keeps the list linked both ways |
| `JsonList.InsertItemInArray` | src/common/cJSON.c:2281-2313 | inserts before the index, appends past the end, refuses negative indices |
| `JsonList.ReplaceItem` | src/common/cJSON.c:2315-2362 | puts the replacement in the place of the node, at the head, inside and at the tail |
| `JsonList.Duplicate` | src/common/cJSON.c:2729-2801 | a tree of fresh nodes that says the same; no old node is written |
| `JsonList.DuplicateChildren` | src/common/cJSON.c:2766-2799 | the loop over the children builds a linked list of fresh copies, its head's `prev` at the tail |
| `Base.Contains` | src/daemon/gfrguardd_session.c:101-107 | the scan finds a directory hash, or an address of a list, exactly when it is stored |
| `Session.Cell.SlideWindows` | src/daemon/gfrguardd_session.c:63-99 | the two windows, what each resets, and that a block is not reset |
| `Session.Cell.CountOperation` | src/daemon/gfrguardd_session.c:121-153 | the counters of one operation, saturating at 2^32 - 1 |
| `Session.Cell.Record` | src/daemon/gfrguardd_session.c:116-167 | the whole update of a session by an event |
| `Session.WritesConserved` | src/daemon/gfrguardd_session.c:63-167 | over every run, modified plus content-same counts are the risky writes since the last short reset, up to saturation |
| `Session.DirsConserved` | src/daemon/gfrguardd_session.c:101-114 | over every run, the stored directories are the first 256 distinct non-zero hashes since the last long reset, and `touched_dirs` is their number |
| `Session.CountersConserved` | src/daemon/gfrguardd_session.c:63-153 | over every run, each of the other six counters is the number of its events since the last short reset, up to saturation |
| `Session.WritesStand` | src/daemon/gfrguardd_session.c:121-153 | the modified count is the risky writes that no later content-same close has taken back |
| `Session.WindowEdges` | src/daemon/gfrguardd_session.c:63-99 | to the second: what a window keeps just before its length is over, and what it resets at that length |
| `Session.RunLeaves` | src/daemon/gfrguardd_session.c:63-167 | every event is counted, and no run of windows and events touches key, use, block or last lookup of a session |
| `SessionTable.PresentIsFound` | src/daemon/gfrguardd_session.c:21-36 | a key in the table is found by its probes in its own bucket |
| `SessionTable.LookupRefinesMap` | src/daemon/gfrguardd_session.c:16-61 | a lookup is a step of a keyed map: the same session, a free bucket, the oldest unblocked one evicted, or none only when all are blocked; the invariant is kept |
| `SessionTable.OldestIsOldest` | src/daemon/gfrguardd_session.c:42-48 | the eviction scan finds the least recently seen session that is not blocked |
| `SessionTable.LongKeyNeverFound` | src/daemon/gfrguardd_session.c:26-30 | a key of 128 bytes or more is stored cut and never found again |
| `SessionTable.RunKeepsOk` | src/daemon/gfrguardd_session.c:16-61 | in every state of every run keys are unique and reachable |
| `SessionTable.StepKeepsBucket` | src/daemon/gfrguardd_session.c:38-61 | a session keeps its bucket unless it was the oldest unblocked one of a full table |
| `SessionTable.BlockedStays` | src/daemon/gfrguardd_session.c:38-61 | a blocked session stays in its bucket, blocked, for the rest of a run |
| `SessionTable.NewSessionIsEmpty` | src/daemon/gfrguardd_session.c:26-60 | field by field, a new session carries nothing over from the one whose bucket it takes |
| `SessionTable.LastSeenIsLastFind` | src/daemon/gfrguardd_session.c:21-61 | over every run, a session's time is that of the last lookup of its key, told by the operations alone |
| `SessionTable.EvictedWasLookedUpFirst` | src/daemon/gfrguardd_session.c:38-61 | over every run, a session that loses its bucket is unblocked, and its key was last looked up no later than that of any other unblocked one |
| `SessionTable.Table.FindOldest` | src/daemon/gfrguardd_session.c:42-48 | the scan loop |
| `SessionTable.Table.FindOrCreate` | src/daemon/gfrguardd_session.c:16-61 | the routine computes the lookup and keeps `count` equal to the buckets in use |
| `Scorer.Calculate` | src/daemon/gfrguardd_scorer.c:67-135 | sets score and level and nothing else |
| `Scorer.PercentExact` | src/daemon/gfrguardd_scorer.c:89-101 | the integer percentage reaches 50 and 80 exactly where the true ratio does |
| `Scorer.RawFits` | src/daemon/gfrguardd_scorer.c:74-81 | with small counters the sum does not overflow a `long` |
| `Scorer.OneMoreAdds` | src/daemon/gfrguardd_scorer.c:70-81 | what one more event of each kind adds to the sum: its own weight, and for the two content signals their weight on the first hit only |
| `Scorer.TwoKindsAreCritical` | src/daemon/gfrguardd_scorer.c:67-135 | any two kinds of evidence that together weigh the threshold make a session critical; deletions with directories only up to the cap of 60 |
| `Scorer.RansomAloneIsCritical` | src/daemon/gfrguardd_scorer.c:79-128 | ransom extensions that weigh the threshold do so alone |
| `Scorer.OneKindIsCapped` | src/daemon/gfrguardd_scorer.c:113-128 | any other single kind, however much of it, stays below critical |
| `Scorer.SignalsAloneScore` | src/daemon/gfrguardd_scorer.c:80-81 | with no dimension at all the content signals are scored as they are |
| `Scorer.SixtyIff` | src/daemon/gfrguardd_scorer.c:104-112 | the cap of 60 falls on exactly the sessions that did nothing but delete |
| `Scorer.SameWritesScore` | src/daemon/gfrguardd_scorer.c:89-102 | the score with content-same writes: nothing from four fifths on, cut below the first mark from one half on, unchanged below |
| `Scorer.ScoreIsCutSum` | src/daemon/gfrguardd_scorer.c:70-128 | without content-same writes the score is the sum with the cuts that apply |
| `Scorer.CriticalIff` | src/daemon/gfrguardd_scorer.c:67-135 | exactly when a session is critical |
| `Scorer.ScoreInRange` | src/daemon/gfrguardd_scorer.c:60-65 | the score is between 0 and 100 |
| `Scorer.ContentSameIsNormal` | src/daemon/gfrguardd_scorer.c:83-102 | half or more content-same writes: the level is normal |
| `Scorer.SuppressesIffSmall` | src/daemon/gfrguardd_scorer.c:89-101 | the suppression of sessions with half or more content-same writes holds up exactly while their hundredfold fits 32 bits |
| `Scorer.ScoreMonotone` | src/daemon/gfrguardd_scorer.c:67-128 | without content-same writes more of anything but deletions never lowers the score, if the content signals alone stay below critical |
| `Scorer.MonotoneIffWeakSignals` | src/daemon/gfrguardd_scorer.c:114-128 | that condition on the weights is exact |
| `Scorer.DeletionLowersIff` | src/daemon/gfrguardd_scorer.c:104-128 | exactly when one more deletion lowers the score of a session without content-same writes |
| `Scorer.YaraForcesNothing` | src/daemon/gfrguardd_scorer.c:70-81 | YARA hits alone are critical exactly when their weight reaches the threshold |
| `HashLookup.SortOrders` | src/common/rguard_hash.h:138-154 | the sort orders by hash and keeps the entries |
| `HashLookup.SortKeepsRows` | src/common/rguard_hash.h:138-154 | the rows are a permutation of the old ones |
| `HashLookup.SortIsStable` | src/common/rguard_hash.h:138-154 | rows of equal hash keep their order |
| `HashLookup.InsertInPlace` | src/common/rguard_hash.h:141-153 | one round moves both parallel arrays alike |
| `HashLookup.ShiftInPlace` | src/common/rguard_hash.h:145-150 | the shift of one round moves larger hashes and their rows alike |
| `HashLookup.SortByHash` | src/common/rguard_hash.h:138-154 | both arrays end as the stable sort of their pairs; the rest of them is untouched |
| `HashLookup.WalkNeighbours` | src/common/rguard_hash.h:65-78 | the walk over equal hashes finds the key among all of them |
| `HashLookup.Find` | src/common/rguard_hash.h:41-128 | true exactly when the non-empty key is one of the rows, for any hash |
| `HashLookup.Index` | src/common/rguard_config.c:466-508 | hashing and sorting leaves the same rows, sorted, each with its own hash |
| `PolicyLookup.HashedList.Has` | src/common/rguard_hash.h:41-80 | membership in the configured list |
| `PolicyLookup.CidrIsInterval` | src/daemon/gfrguardd_scorer.c:21-35 | a prefix accepts exactly the interval from its first to its last address (section 3.1 of RFC 4632), in either order of the ends |
| `PolicyLookup.CidrEqualsRange` | src/daemon/gfrguardd_scorer.c:21-58 | a prefix entry and a range entry that spell the same ends accept the same clients |
| `PolicyLookup.ScanNetworks` | src/daemon/gfrguardd_scorer.c:162-170 | the scan over network and range entries |
| `PolicyLookup.IsListed` | src/daemon/gfrguardd_scorer.c:137-173 | the whitelist answer equals a plain check over the configured entries |
| `PolicyLookup.IsBlacklisted` | src/daemon/gfrguardd_scorer.c:242-285 | the blacklist answer equals a plain check over the manual and the automatic entries |
| `PolicyLookup.EndsWithFile` | src/daemon/gfrguardd_scorer.c:197-204 | some listed file ends the path just after a slash |
| `PolicyLookup.UnderFolder` | src/daemon/gfrguardd_scorer.c:208-237 | some non-empty prefix that ends at the path's end or before a slash is a listed folder, doubled and trailing slashes included |
| `PolicyLookup.IsExcepted` | src/daemon/gfrguardd_scorer.c:175-240 | the exception answer equals the plain check |
| `PolicyLookup.FolderCovers` | src/daemon/gfrguardd_scorer.c:206-237 | a listed folder covers itself and everything below it |
| `BlockedFile.LineExists` | src/daemon/gfrguardd_blocker.c:95-109 | the key is one of the lines, for any text |
| `BlockedFile.IsBlocked` | src/vfs/vfs_gfrguard.c:195-219 | the client is refused exactly when its non-empty address is a line |
| `BlockedFile.AppendLine` | src/daemon/gfrguardd_blocker.c:145-157 | the appended text, built inside a buffer of `len + iplen + 2` bytes |
| `BlockedFile.LinesOfAppended` | src/daemon/gfrguardd_blocker.c:149-155 | with or without a final newline, appending adds exactly one line |
| `BlockedFile.BlockedAppended` | src/daemon/gfrguardd_blocker.c:148-165 | blocking adds exactly that address to the set |
| `BlockedFile.FilterLines` | src/daemon/gfrguardd_blocker.c:257-279 | the filtered text, built inside a buffer of `len + 1` bytes |
| `BlockedFile.BlockedWithout` | src/daemon/gfrguardd_blocker.c:248-286 | unblocking removes exactly that address, no prefix and no extension of it |
| `BlockedFile.Rebuild` | src/daemon/gfrguardd_blocker.c:205-235 | the rebuilt text holds the plain entries of both lists, inside its growing buffer |
| `BlockedFile.BlockedRebuilt` | src/daemon/gfrguardd_blocker.c:205-245 | the rebuilt file blocks exactly the non-empty lines of the plain entries |
| `BlockedFile.PlainEntriesBlocked` | src/daemon/gfrguardd_blocker.c:205-245 | for entries of one line each, exactly the plain entries |
| `BlockedFile.BlockedList.Execute` | src/daemon/gfrguardd_blocker.c:125-191 | success and new text of `blocker_execute` for every outcome of lock, read and write |
| `BlockedFile.BlockedList.Unblock` | src/daemon/gfrguardd_blocker.c:248-286 | return code and new text of `blocker_unblock` |
| `BlockedFile.BlockedList.Sync` | src/daemon/gfrguardd_blocker.c:205-245 | new text of `blocker_sync_blacklist` |
| `BlockedFile.ExecuteBlocks` | src/daemon/gfrguardd_blocker.c:125-165 | a success with a real address adds it to the set; anything else changes nothing |
| `BlockedFile.ExecuteSucceedsIff` | src/daemon/gfrguardd_blocker.c:125-165 | exactly when blocking succeeds, an address that stands in the file already included |
| `BlockedFile.LockIsInUse` | src/daemon/gfrguardd_blocker.c:22-93 | in every interleaving the lock is held only by a process between taking and releasing it, also after failures |
| `BlockedFile.FileIsSequential` | src/daemon/gfrguardd_blocker.c:22-93 | at every moment of every interleaving the text is that of the jobs that took effect, in lock order |
| `BlockedFile.InterleavingsAreSetOperations` | src/daemon/gfrguardd_blocker.c:22-286 | and so the blocked set is that of the set operations in lock order |
| `AutoBlacklist.AutoList.ShiftLeft` | src/daemon/gfrguardd_scorer.c:316-321 | the shift drops the oldest entry and keeps the others in order |
| `AutoBlacklist.AutoList.Add` | src/daemon/gfrguardd_scorer.c:294-329 | the list after an addition |
| `AutoBlacklist.ListIsLastInsertions` | src/daemon/gfrguardd_scorer.c:314-329 | over any run the list is the last 64 insertions, oldest first |
| `AutoBlacklist.RunIsClean` | src/daemon/gfrguardd_scorer.c:294-329 | over any run: real addresses, none twice, none of the manual list, at most 64 |
| `PolicyFile.WithEntryKeeps` | src/common/rguard_config.c:664-674 | manual entries stay in order; automatic entries form a queue of 64 |
| `PolicyFile.QueueStep` | src/common/rguard_config.c:664-674 | with the newest entries at its end, the array takes in one more exactly as the automatic list in memory does |
| `PolicyFile.RunKeepsManual` | src/common/rguard_config.c:639-674 | the same over any run, and the last address asked for is listed |
| `PolicyFile.EntryForms` | src/common/rguard_config.c:642-652 | an entry carries an address exactly in its text form, or as the first member of that name, in any case of letters, of an object |
| `PolicyFile.AutoForms` | src/common/rguard_config.c:648-651 | an entry is automatic exactly if the first member of that name is true |
| `PolicyFile.EditIsFound` | src/common/rguard_config.c:627-674 | an editable tree: the next load finds the edited array |
| `PolicyFile.EditIsHidden` | src/common/rguard_config.c:627-637 | a tree that is not editable: the next load finds what it would have found without the first member of that name |
| `PolicyFile.TwoBlacklists` | src/common/rguard_config.c:627-637 | an instance: two members of that name, the first ill-typed |
| `PolicyFile.EditedListForms` | src/common/rguard_config.c:632-674 | the edited array stands where the first member of its name stood, and an ill-typed or missing one is replaced by a new member at the end |
| `PolicyFile.EditedForms` | src/common/rguard_config.c:627-631 | the same for the blacklist in the tree; the file is left alone exactly where the address is listed |
| `PolicyFile.EntryIsStored` | src/common/rguard_config.c:264-287 | an entry is stored with at most 47 bytes of its address and behind those before it, and one without an address is passed over |
| `PolicyFile.PersistIff` | src/common/rguard_config.c:610-696 | exactly when the call succeeds, and exactly when it writes the file |
| `PolicyFile.SavedIff` | src/common/rguard_config.c:676-695 | the file after the call |
| `PolicyFile.NoObjectNoEntry` | src/common/rguard_config.c:627-637 | a root that is not an object takes no entry |
| `PolicyFile.LoadIps` | src/common/rguard_config.c:264-287 | the load keeps the first 64 entries that carry an address |
| `PolicyFile.EntryLoadsIff` | src/common/rguard_config.c:264-287 | a new entry is loaded exactly when fewer than 64 addresses stand before it |
| `PolicyFile.ListedLoadsIff` | src/common/rguard_config.c:264-287 | an address that is listed is loaded exactly when fewer than 64 addresses stand before the first entry that names it |
| `PolicyFile.FullListDropsVerdict` | src/common/rguard_config.c:267-267 | an instance: behind 64 addresses of the administrator no verdict is loaded |
| `PolicyFile.EditedPrintable` | src/common/rguard_config.c:625-678 | the edited tree stays within what the printer and the parser handle |
| `PolicyFile.WrittenParses` | src/common/rguard_config.c:676-688 | the text written back parses to the edited tree |
| `PolicyFile.WrittenFits` | src/common/rguard_config.c:676-678 | a policy file short enough to be read is short enough to be written: printing the edited tree never fails |
| `PolicyFile.Scan` | src/common/rguard_config.c:639-662 | one pass finds a duplicate, the number of automatic entries and the first of them |
| `PolicyFile.EditTree` | src/common/rguard_config.c:627-674 | the routine makes the edit |
| `PolicyPersist.Persist` | src/common/rguard_config.c:610-696 | result and new bytes of `config_persist_blacklist_ip` |
| `PolicyPersist.PersistVerdict` | src/daemon/gfrguardd_main.c:669-673 | the routine on the file computes what the step function of the daemon takes it for |
| `PolicyFile.PersistThenLoad` | src/common/rguard_config.c:610-696 | after persisting and loading again, for addresses that were listed and for new ones: the manual entries as before, at most 64 automatic entries, and exactly when the next load knows the address |
| `PolicyFile.SecondCallChangesNothing` | src/common/rguard_config.c:653-656 | a verdict that was written is found listed by the next call, which leaves the file as it is |
| `Exemptions.RulesAgree` | src/daemon/gfrguardd_main.c:273-360 | the checks before a message is handled are the rules in plain words: switches, watched extensions in any case of letters, excepted files and folders, listed users, addresses, networks and ranges |
| `Exemptions.ExemptChangesNothing` | src/daemon/gfrguardd_main.c:273-360 | a message that is exempt by these rules changes nothing at all |
| `Exemptions.ExemptIsNeverBlocked` | src/daemon/gfrguardd_main.c:273-360 | over every run, a session all of whose messages are exempt or notices is never blocked |
| `Exemptions.RefusedIsBlocked` | src/daemon/gfrguardd_main.c:362-407 | any other message of a client on the blacklist, spelled out likewise, blocks its session if the call succeeds, and touches no list |
| `Exemptions.OthersAreCounted` | src/daemon/gfrguardd_main.c:409-640 | any other message is counted in its session, which is seen at that time |
| `Exemptions.NetsAgree` | src/daemon/gfrguardd_scorer.c:21-35 | the mask comparison is equality of the quotients by the size of the network |
| `Assessment.SessionIsAssessed` | src/daemon/gfrguardd_main.c:409-686 | the message of a client that is neither exempt nor refused leaves its session as assessed, named, and blocked exactly if it was, or is critical now and the call succeeds |
| `Assessment.NamesAreJudged` | src/daemon/gfrguardd_main.c:507-543 | extension changes and ransom extensions, found out from the names by their last points |
| `Assessment.EntropyMatters` | src/daemon/gfrguardd_main.c:545-568 | exactly when the entropy of a file makes a difference |
| `Assessment.YaraMatters` | src/daemon/gfrguardd_main.c:570-586 | exactly when a rule match makes a difference |
| `Assessment.DirectoryIs` | src/daemon/gfrguardd_main.c:588-594 | the directory that is counted is what stands in front of the last slash; the root and bare names have none |
| `Assessment.WindowsApply` | src/daemon/gfrguardd_main.c:596-608 | which window lengths apply, those of the cloud channel included |
| `Assessment.OneEventIsCounted` | src/daemon/gfrguardd_main.c:608-609 | the counters are those of the open window with this one event in them |
| `Assessment.ScoredWhen` | src/daemon/gfrguardd_main.c:611-627 | exactly when the score is computed, and that it waits otherwise |
| `Assessment.NoticeOnlyNames` | src/daemon/gfrguardd_main.c:233-262 | a notice gives its session an event id if it has none, and changes nothing else |
| `Assessment.OtherChannelsStayOut` | src/daemon/gfrguardd_main.c:650-656 | a message of another channel than SMB or FTP changes the blocked file only by a rebuild |
| `Assessment.KeyIs` | src/common/rguard_protocol.h:24-30 | the key is user and address with a mark between, cut to its buffer |
| `Daemon.HandleBlocksExactly` | src/daemon/gfrguardd_main.c:220-686 | after a message exactly the old sessions are blocked, and its own if `blocker_execute` succeeded in this step |
| `Daemon.BlockedIffLanded` | src/daemon/gfrguardd_main.c:362-686 | in every run a session is blocked exactly when a block of it landed earlier; it stays so through all other traffic |
| `Daemon.HandleTriggers` | src/daemon/gfrguardd_main.c:652-686 | auto-restore is triggered only in a step that blocks an unblocked session |
| `Daemon.TriggersIff` | src/daemon/gfrguardd_main.c:650-682 | exactly which messages call for a restore, for which event, and which of these calls start one, automatic restore being on and the event id not empty |
| `Daemon.RunIsSafe` | src/daemon/gfrguardd_main.c:220-686 | in every run auto-restore is triggered at most once per session, the table is in order and the automatic list is clean |
| `Daemon.LandedIsInFile` | src/daemon/gfrguardd_main.c:650-681 | after a block on SMB or FTP with a real address the blocked file holds it, through the rebuild too |
| `PolicyReload.LoadedIsBlacklisted` | src/daemon/gfrguardd_main.c:190-196 | an address of the loaded file is refused after a reload, by the daemon and by the rebuilt blocked file |
| `PolicyReload.VerdictSurvivesReload` | src/common/rguard_config.c:586-608 | a verdict survives the reload of the policy file that the daemon left, whether it was written now or stood there already, if the loader gets as far as the entry |
| `Lockstep.ListedIsRefused` | src/daemon/gfrguardd_main.c:666-679 | while the copies are in step, an address in the policy file is refused by the daemon and stands in the blocked file |
| `Lockstep.LoadBringsIntoStep` | src/daemon/gfrguardd_main.c:190-196 | a load of all addresses brings the copies into step |
| `Lockstep.ConvictionStep` | src/daemon/gfrguardd_main.c:666-679 | a verdict whose calls succeed is new to all three copies, joins them and keeps them in step, evictions included |
| `Lockstep.RunInLockstep` | src/daemon/gfrguardd_main.c:674-679 | over every run of messages and reloads whose calls succeed, memory, policy file and blocked file stay in step |
| `Lockstep.VerdictStands` | src/common/rguard_config.c:586-608 | until 64 later verdicts the client is refused in every state and its address is in the blocked file, through any traffic and any reload of the daemon's own policy file |
| `ProcessMsg.Guard.BlockNow` | src/daemon/gfrguardd_main.c:362-407 | the branch of a blacklisted client |
| `ProcessMsg.Guard.Assess` | src/daemon/gfrguardd_main.c:503-627 | analysis flags, windows, counters and deferred scoring |
| `ProcessMsg.Guard.SaveVerdict` | src/daemon/gfrguardd_main.c:669-673 | the policy file after the call that persists the verdict |
| `ProcessMsg.Guard.ScoreNow` | src/daemon/gfrguardd_main.c:409-686 | the branch of an ordinary client |
| `ProcessMsg.Guard.Process` | src/daemon/gfrguardd_main.c:220-686 | the routine computes the step function |
| `EventId.PaddedCasts` | src/daemon/gfrguardd_main.c:165-165 | zero padding does not change the number, also past 999 |
| `EventId.IdInjective` | src/daemon/gfrguardd_main.c:153-165 | different days or numbers give different ids |
| `EventId.IdReads` | src/daemon/gfrguardd_main.c:153-165 | place by place, how an id reads: mark, date and a number of at least three digits |
| `EventId.IdMaker.QueryMax` | src/common/rguard_db.c:508-528 | the largest number of the day |
| `EventId.IdMaker.Make` | src/daemon/gfrguardd_main.c:148-166 | the id and the new memory |
| `EventId.FreshIff` | src/daemon/gfrguardd_main.c:158-164 | exactly when a made id is new |
| `EventId.IdsNeverRepeat` | src/daemon/gfrguardd_main.c:148-166 | over restarts, day changes and clock steps ids never repeat off the epoch day |
| `EventId.EpochDayRepeats` | src/daemon/gfrguardd_main.c:158-159 | on the epoch day a restart repeats them |
| `FloodGate.IndexIsLowBits` | src/daemon/gfrguardd_fangate.c:32-32 | the slot is the ten low bits of the key |
| `FloodGate.Gate.Reset` | src/daemon/gfrguardd_fangate.c:15-20 | empties every slot |
| `FloodGate.Gate.Allow` | src/daemon/gfrguardd_fangate.c:22-44 | the verdict and the new slot |
| `FloodGate.SuppressedHasCause` | src/daemon/gfrguardd_fangate.c:35-43 | a suppressed event has an emitted one of its key less than its window before it |
| `FloodGate.CloseEmissionsAreDisplaced` | src/daemon/gfrguardd_fangate.c:35-43 | two emissions of a key closer than the window only if another key of the slot was emitted between them |
| `CopyFd.Copier.CopyRange` | src/common/rguard_backup.h:43-55 | the in-kernel copy leaves a first part of the source in place |
| `CopyFd.Copier.ReadWrite` | src/common/rguard_backup.h:59-75 | read and write take over where it stopped |
| `CopyFd.Copier.Copy` | src/common/rguard_backup.h:30-78 | whatever the calls return, the destination holds a first part of the source, and 0 means that it reaches `size` |
| `CopyFd.Copier.CopyWhole` | src/common/rguard_backup.h:30-78 | 0 means the first `size` bytes are equal; without a reflink a shorter source gives -1 |
| `VfsBackup.AfterKeepsValid` | src/vfs/vfs_gfrguard.c:563-1027 | the callbacks keep files, inodes and handles consistent |
| `VfsBackup.BackupStays` | src/vfs/vfs_gfrguard.c:329-337 | over every run no later step changes or removes a backup |
| `VfsBackup.BackupIsFirstCopy` | src/vfs/vfs_gfrguard.c:310-405 | a backup made in a run holds the bytes the file had just before the step that made it |
| `VfsBackup.StrictLosesNothing` | src/vfs/vfs_gfrguard.c:418-1027 | in strict mode, deferred backups included, over every run without the named hazards, full paths that do not fit among them, what a file held is the beginning of its backup or of the file |
| `VfsBackup.OpenLosesIff` | src/vfs/vfs_gfrguard.c:581-761 | in both modes, exactly when an open loses the bytes of a file that has no backup, and exactly when it leaves a backup |
| `VfsBackup.UnguardedTruncations` | src/vfs/vfs_gfrguard.c:581-673 | which truncating opens are not guarded: bare, by a hidden name, or by a path that does not fit |
| `VfsBackup.UnlinkLosesIff` | src/vfs/vfs_gfrguard.c:979-1027 | in both modes, exactly when a removal leaves neither the file nor a backup |
| `VfsBackup.LongNameIsRemoved` | src/vfs/vfs_gfrguard.c:1001-1021 | an instance in strict mode: a name whose full path does not fit is removed with no backup |
| `VfsBackup.CutLosesIff` | src/vfs/vfs_gfrguard.c:816-912 | exactly when a cut loses bytes of a file that has no backup |
| `VfsBackup.WriteLosesIff` | src/vfs/vfs_gfrguard.c:763-814 | exactly when a write loses bytes of a file that has no backup |
| `VfsBackup.RetriedCutIsNotDenied` | src/vfs/vfs_gfrguard.c:423-424 | an instance: a denied truncation passes when it is repeated |
| `VfsBackup.BlockedIsRefused` | src/vfs/vfs_gfrguard.c:581-1027 | a blocked client is refused every call but those named, and these go as for anybody |
| `VfsBackup.BlockedRunChangesNothing` | src/vfs/vfs_gfrguard.c:581-1027 | over every run of a blocked client no backup is made, and but for the named calls no file comes, goes or changes a byte |
| `VfsBackup.OpenGives` | src/vfs/vfs_gfrguard.c:581-761 | an open that is neither refused nor denied: the file, its bytes, the handle, and that nothing else changes |
| `VfsBackup.OpenTracks` | src/vfs/vfs_gfrguard.c:581-761 | what the module remembers of a new handle: that a backup is due, how it went, that none is needed, or nothing |
| `VfsBackup.FirstCutTracks` | src/vfs/vfs_gfrguard.c:816-890 | the same for the first cut through a handle |
| `VfsBackup.BlockedInBetween` | src/vfs/vfs_gfrguard.c:763-912 | a client that is blocked while it has a file open destructively can write and cut no more |
| `VfsBackup.HiddenWriteBacksUp` | src/vfs/vfs_gfrguard.c:418-461 | the first write by a hidden name makes the backup that was due, once the name is visible |
| `VfsBackup.WriteGives` | src/vfs/vfs_gfrguard.c:763-814 | a write that is neither refused nor denied puts its bytes into its file alone |
| `VfsBackup.CutGives` | src/vfs/vfs_gfrguard.c:816-912 | the same for a cut |
| `VfsBackup.UnlinkGives` | src/vfs/vfs_gfrguard.c:979-1027 | the same for a removal |
| `VfsBackup.StrictDenies` | src/vfs/vfs_gfrguard.c:418-1027 | strict mode denies what would destroy a file whose backup fails |
| `VfsCallbacks.Connection.DoBackup` | src/vfs/vfs_gfrguard.c:310-405 | result and store of `do_backup`, the copy made by the copy routine |
| `VfsCallbacks.Connection.DeferredBackup` | src/vfs/vfs_gfrguard.c:418-461 | verdict, store and handle of the deferred backup |
| `VfsCallbacks.Connection.OpenAt` | src/vfs/vfs_gfrguard.c:563-761 | the share after an open |
| `VfsCallbacks.Connection.OpenVisible` | src/vfs/vfs_gfrguard.c:650-761 | the open of a client that is not refused, by a visible name |
| `VfsCallbacks.Connection.Pwrite` | src/vfs/vfs_gfrguard.c:763-814 | the share after a write |
| `VfsCallbacks.Connection.Ftruncate` | src/vfs/vfs_gfrguard.c:816-912 | the share after a truncation |
| `VfsCallbacks.Connection.UnlinkAt` | src/vfs/vfs_gfrguard.c:979-1027 | the share after a removal |
| `Restore.ValidPathIff` | src/recover/gfrguard_recover.c:70-79 | a path passes exactly when it is absolute and no component is ".." |
| `Restore.QuarantineName` | src/recover/gfrguard_recover.c:189-199 | in quarantine a file stands under the event and its own absolute path |
| `Restore.QuarantineUnique` | src/recover/gfrguard_recover.c:121-132 | the name that the search ends at |
| `Restore.UniqueIsFreeIff` | src/recover/gfrguard_recover.c:119-132 | exactly when the name is free, for every length that fits the buffer |
| `Restore.FullNameIsNotUnique` | src/recover/gfrguard_recover.c:128-129 | a name that fills the buffer comes back itself although it is taken |
| `Restore.CopyBytes` | src/recover/gfrguard_recover.c:93-107 | the copy loop writes a first part of the source, all of it on success |
| `Restore.RestoreOutcome` | src/recover/gfrguard_recover.c:155-239 | success puts the backup's bytes back and consumes it; anything else leaves the backup |
| `Restore.RestoreSucceedsIff` | src/recover/gfrguard_recover.c:161-230 | exactly when a restore succeeds |
| `Restore.RestoreFrame` | src/recover/gfrguard_recover.c:155-239 | nothing outside quarantine changes but the file and its backup |
| `Restore.DisplacedIsKept` | src/recover/gfrguard_recover.c:183-215 | whatever the move does: the displaced file is in quarantine exactly when the move takes all its bytes; an earlier copy there is replaced exactly when the search for a name fails; a name that does not fit is not quarantined |
| `Restore.RestoreKeepsDisplacedIff` | src/recover/gfrguard_recover.c:183-230 | a restore that succeeds has kept the displaced file exactly when the move took all its bytes |
| `Restore.UnmovedIsOverwritten` | src/recover/gfrguard_recover.c:204-230 | an instance: where nothing moves, the restore overwrites the file and keeps no copy |
| `Restore.RestoreKeepsOff` | src/recover/gfrguard_recover.c:155-182 | a row that was dealt with, is unsafe or has no backup moves nothing |
| `Restore.RestoreOntoItself` | src/recover/gfrguard_recover.c:83-107 | an instance: a backup that is the file itself |
| `Restore.DeleteOutcome` | src/recover/gfrguard_recover.c:253-310 | what counts as deleted is gone, a file's bytes are in quarantine, a full directory stays; only one other path changes, and it replaces an earlier copy exactly when the search for a name fails |
| `Restore.CutNamesCollide` | src/recover/gfrguard_recover.c:272-282 | of two files whose names are cut to the same quarantine path the second replaces the first |
| `Restore.EventOutcome` | src/recover/gfrguard_recover.c:155-239 | after all rows of an event every restored row has its backup's bytes and every other row its backup |
| `Restore.DeletedAllOutcome` | src/recover/gfrguard_recover.c:332-338 | after all turns a created path is there exactly if it was there and none of its turns counts it as deleted |
| `Restore.RecoveryOutcome` | src/recover/gfrguard_recover.c:332-338 | created files are deleted first: a path that is created and backed up in one event ends with its backup's bytes, a path that no row names is gone exactly if it was deleted or not there, and a row that is not restored keeps its backup |
| `Restore.BackupThenRestore` | src/vfs/vfs_gfrguard.c:310-405 | a restore brings back the bytes the file had just before its first backup, whatever came later |
| `Restore.Recovery.RestoreOne` | src/recover/gfrguard_recover.c:155-239 | the routine, with its counters |
| `Restore.Recovery.DeleteCreatedOne` | src/recover/gfrguard_recover.c:253-310 | the routine, with its counters |

## Left out

- JSON numbers of more than 15 significant digits, or outside the range of normal doubles: parsed exactly as decimals, not printed; rounding, `%1.17g`, the tolerance of the comparison before it, and the locale are not modelled. A shorter decimal is taken for the double nearest to it, which determines it.
- JsonParser.ParseBuffer.ParseNumber: gives the exact decimal; its rounding to a double is not modelled.
- JsonPrinter.PrintBuffer.PrintNumber: prints numbers that an `int` holds or that have at most 15 significant digits.
- JsonPrinter.PrintBuffer.PrintItem: prints trees of such numbers, and no raw items.
- JsonPrinter.PrintBuffer.PrintArray: the same.
- JsonPrinter.PrintBuffer.PrintObject: the same.
- JsonPrinter.Print: the same.
- JsonTree.ReprintKeepsMeaning: the same.
- JsonSize.ReprintFits: the same.
- PolicyPersist.Persist: states its result for policy files whose numbers are of that kind, such as `7` or `7.25`.
- PolicyFile.WrittenParses: the same.
- PolicyFile.WrittenFits: the same.
- Lockstep.RunInLockstep: assumes of each verdict that its calls succeed, and of each reload that all addresses of the file fit the loader's array; an edit of the file between two loads is left out.
- PolicyFile.PersistThenLoad: the rest of a load, such as the validation of thresholds, is left out; the edit does not touch it.
- The nodes that the parser and the printer build and walk are values here; how the parser chains siblings on the heap is modelled in JsonList.
- JsonList.Duplicate: models recursive duplication of trees without references; the copy without recursion and its nesting limit are left out.
- Allocation failure, hooks, raw items, references, `cJSON_Delete`, `cJSON_Compare` and `cJSON_Minify`.
- Scorer.Calculate: the sum is an unbounded integer; that a `long` holds it is shown for small counters.
- PolicyLookup.InCidr: `inet_aton` and `atoi` are any functions; the parse of an address is not modelled.
- ProcessMsg.Guard.SaveVerdict: takes the routine that persists a verdict as a function of the host, the one that `PolicyPersist.PersistVerdict` computes.
- SessionTable.Table.FindOrCreate: states its result for keys under 128 bytes, which the daemon's keys always are.
- ProcessMsg.Guard.Process: the policy stays the same between two reloads (`Daemon.BlockedIffLanded` covers reloads too), and the ids of events are inputs; the policy file changes between two messages only by a reload; rows written to the database, log lines and the external command that closes a share are left out.
- The file name recorded for a backup is rebuilt by the daemon from the share name; the model of a restore takes the row to name the stored file.
- BlockedFile.BlockedList.Sync: entries are shorter than 4095 characters, as their fields guarantee.
- CopyFd.Copier.Copy: the sequence of results of the system calls is finite, so endless interruption is left out.
- VfsBackup.StrictLosesNothing: renames and hard links are left out, so a name keeps its inode; callbacks are atomic, so two clients never write one backup at a time.
- VfsCallbacks.Connection.OpenAt: a full path that does not fit its buffer is cut and taken to name nothing; that the cut path names another file is left out.
- Restore.Recovery.RestoreOne: ownership, modes and times of files, and the directories on the way to a file, are left out.
- EventId.IdMaker.Make: the sequence number is an unbounded integer, and every id is stored before the next is made.
- Renames and the comparison of contents at close in the file-server module.
- The fanotify, FTP, cloud and local channels, the entropy and YARA engines, the space check, logging, the database schema and the web interface.
