# A verified model of paxz.wcx

paxz.wcx is an archiver plugin: it packs files into PAX archives, plain or as LZ4 or Zstd frames, lists archives
through an index in memory and extracts files from them. This project models its core in Dafny and proves what
that core has to keep:

- **The slim reader/writer lock** (`Lock*.dfy`), as a transition system over any number of threads: a step is one
  read of the word, one compare-and-swap or bit-test-and-set, one contended section, one poll or one wake write,
  and a thread decides on the word it read earlier. An invariant says that the word, the wait blocks and the wake
  nodes represent a queue of waiters. From it follow mutual exclusion, the sharer count, the shape of the chain,
  the ASSERTs, the soundness of the spin loops, service in order, that no waiter is lost, that from every reachable
  state every fair run without new requests ends with all threads idle and all waiters served, and that every
  request is granted in the mode that was asked for (`LockModes`).
- **The PAX codec** (`Numerals`, `Pax*`, `Time*`, `Fields`, `Tar*`): octal and decimal fields, checksums, times, the
  records that contain their own length, names, whole headers; a writer in place on a byte buffer and a parser,
  each proved against functions, and the round trips between those functions. The modules `*Exact` and `PaxWritten`
  say, in bytes and texts, what is written and exactly what is accepted from anybody.
- **Archives and the index** (`Cache{Item,Store,Walk}`, `ScanLoop`, `Archive*`): the packer, the index as linked
  blocks with records in place, the scanner, the extraction, the end-to-end theorem over the byte stream, also with
  entries of other types in between, and what the scanner does on any bytes.
- **Compressed archives** (`Zstd*`, `Lz4Exact`, `Compressed*`): the two walkers over Zstd frames, which bytes they and
  the LZ4 scanner accept, the scanners as functions and as loops over an open file, the places of the entries that
  they list, and that they find the entries of every archive made of such frames.
- **Ownership and accounting** (`Cache{Table,Lookup,Sessions,Runs}`, `Progress`, `CircularList`): which cache an
  archive gets, the reference counts and the waiting under any interleaving of opening and closing archives, the
  progress deltas, the intrusive list.

The standards are IEEE Std 1003.1 (`pax`, sections "pax Header Block", "pax Extended Header" and "ustar Interchange
Format"), section 3.1.1 of RFC 8878 for Zstd frames, and the LZ4 Frame Format Description.

Code that changes state in place is a class or a method over arrays, proved equal to a function on values; the
theorems are lemmas about these functions.

## Assumptions

Lock: everything between a successful AcquireWaitBlockLock and the release of the contention lock, or the exchange
of the word, is one step, and a failing attempt (`src/bst/srw_lock.cpp:172-175`) changes nothing. Were it split, the
unconditional AND of that path could clear a bit that another thread has just set. Every acquisition has a fresh,
persistent wait block and wake node. A private block appears in memory when the compare-and-swap that publishes it
succeeds. The word is three flags and an unbounded number. Memory is sequentially consistent. Locks are released
only by threads that hold them.

Codec and archives: reading and writing files succeeds, files are shorter than 2^63 bytes, and malloc succeeds. The
conversion between UTF-8 and UTF-16 is a parameter. The theorems about headers hold for any name of an 'x' block of at
most 200 bytes; it may run over the fields behind it, which are written later. `decode_time` leaves its fraction unset
when there is no point (`src/tar.cpp:728-730`); the model has zero there. The link to the next block of the index is a
field instead of its first eight bytes. After a failure the fields of the decoder and of the index are not specified
further. Parsing a frame header, decoding a frame and hashing are parameters.

Progress: whether half a second has passed and what the callback answers are parameters of each call.

## Where the code falls short

In these places the code does less than one would expect; the model follows it, shows a case, and states exactly
when all is well:

- Times before 1970 are cut to whole seconds: `PaxTime.TimeRoundTrip`, `PaxTime.TickBeforeEpoch`.
- The writer accepts keywords and lengths that the parser refuses: `PaxParser.RecordRoundTrip`,
  `PaxParser.KeywordsLost`.
- Sizes of 2^63 - 1 bytes and more are written but not read: `PaxRoundTrip.HeaderRoundTrip`,
  `PaxRoundTrip.HugeFileRefused`.
- An empty file at the very end of an archive cannot be extracted: `ArchiveRoundTrip.EndToEnd`,
  `ArchiveRoundTrip.OnlyEmptyFile`.
- The packed size in the index is wrong for files larger than 077777777777 + 1 bytes:
  `ArchiveRoundTrip.PackSize`, `ArchiveRoundTrip.PackSizeTooSmall`.
- The Zstd walker without a buffer accepts a last block that is cut off: `ZstdExact.SeekingExactly`,
  `ZstdWalk.CutOffFrame`.
- The entries listed from a compressed archive do not cover it without gaps: `CompressedTiling.Tiling`,
  `CompressedTiling.RootLeavesGap`.
- The records of a global header, as other programs write it, are taken for the next header:
  `ArchiveExact.GlobalHeaderPassed`, `ArchiveExact.CommentRefused`.
- A name that begins with a dot or a slash is listed without it: `ArchiveNames.KeptName`, `ArchiveNames.HiddenName`.
- A file can get two caches: `CacheRuns.OneCachePerFile`, `CacheRuns.TwoCaches`.
- A global header with records, as other programs write it, makes an archive unreadable:
  `ArchiveExact.GlobalHeaderPassed`, `ArchiveExact.CommentRefused`.
- A name that begins with a dot or a slash is listed without it: `ArchiveNames.KeptName`, `ArchiveNames.HiddenName`.
- A file can get two caches: `CacheRuns.OneCachePerFile`, `CacheRuns.TwoCaches`.
- The calls for a skipped file go back at the end of the 64-bit range: `Progress.SkipKeepsOrder`.

## Model

| member | source | states |
|---|---|---|
| `LockMemory.SrwLock.constructor` | src/bst/srw_lock.cpp:242-245 | a new lock is free and has no waiters |
| `LockMemory.SrwLock.AddExclusive` | src/bst/srw_lock.cpp:477-488 | the new exclusive block goes behind the last block, only the last and the first block change, and the word does not |
| `LockMemory.SrwLock.AddSharedBehindOwner` | src/bst/srw_lock.cpp:322-349 | a sharer behind an exclusive owner joins the last block if that is shared, as its newest wake node with one more count, and otherwise brings a shared block of its own; the result tells which |
| `LockMemory.SrwLock.AddSharedBehindSharers` | src/bst/srw_lock.cpp:262-296 | on a word that looked shared the sharer joins the first block if that is shared, and otherwise queues behind the last one |
| `LockMemory.SrwLock.ReleaseWaitBlockLockExclusive` | src/bst/srw_lock.cpp:83-111 | the first block leaves the chain, its successor gets the end of the chain and, behind a shared block, its count; without a successor the lock becomes a simple one |
| `LockMemory.SrwLock.ReleaseSharedContended` | src/bst/srw_lock.cpp:408-415 | one sharer less in the first block, and exactly the last one hands the lock to that exclusive block |
| `LockSteps.PublishKeeps` | src/bst/srw_lock.cpp:360-374 | publishing the first wait block keeps the invariant, for sharers and for exclusive waiters, in shared and in exclusive mode |
| `LockSteps.AppendKeeps` | src/bst/srw_lock.cpp:477-490 | a new last block keeps the invariant, whatever mode the lock is in by then |
| `LockHandOff.JoinKeeps` | src/bst/srw_lock.cpp:283-298 | joining the first or the last block as a sharer keeps the invariant |
| `LockHandOff.ServeKeeps` | src/bst/srw_lock.cpp:83-111 | taking the first block off the chain makes its threads the holders and keeps the invariant |
| `LockSafety.AcqSKeeps` | src/bst/srw_lock.cpp:249-393 | every step of a shared acquirer that has read the word, possibly long ago, keeps the invariant |
| `LockSafety.AcqXKeeps` | src/bst/srw_lock.cpp:443-522 | every step of an exclusive acquirer that has read the word keeps the invariant |
| `LockSafety.RelSKeeps` | src/bst/srw_lock.cpp:397-439 | every step of a shared release keeps the invariant |
| `LockSafety.RelXKeeps` | src/bst/srw_lock.cpp:526-568 | every step of an exclusive release keeps the invariant |
| `LockSafety.WakeKeeps` | src/bst/srw_lock.cpp:113-124 | setting the wake flags one by one keeps the invariant while the woken threads already go on |
| `LockSafety.StepKeeps` | src/bst/srw_lock.cpp:249-568 | the invariant is inductive: every step of every thread keeps it |
| `LockSafety.MutualExclusion` | src/bst/srw_lock.cpp:249-568 | after every run with any number of threads, no thread is inside exclusively together with another one inside in any mode; which mode is granted is `LockModes.ModeAsked` |
| `LockSafety.AllAssertsHold` | src/bst/srw_lock.cpp:82-149 | in every reachable state all ASSERTs of the next step of every thread hold, and it follows no null or dangling pointer |
| `LockProgress.ChainIsProper` | src/bst/srw_lock.cpp:278-290 | in every reachable contended state the chain is finite and without repetition, the first block knows its end, and two shared blocks are never neighbours |
| `LockProgress.CountsSharers` | src/bst/srw_lock.cpp:304-316 | in every reachable state the count in the word, or in the first block of a contended lock, is the number of threads that hold the lock shared or were granted it |
| `LockProgress.SpinLoopsAreSound` | src/bst/srw_lock.cpp:184-238 | a waiter leaves its spin loop, by the wake flag or because the word is not contended, only after its block left the chain and it became the owner or a counted sharer |
| `LockProgress.QueueIsFifo` | src/bst/srw_lock.cpp:336-349 | a step adds at most one waiter, in a new last block or in a shared block, or takes the first block, and does nothing else to the queue |
| `LockProgress.WaitsUntilServed` | src/bst/srw_lock.cpp:184-238 | over every further run a waiter keeps its place until its block is served |
| `LockProgress.NoOvertaking` | src/bst/srw_lock.cpp:83-149 | no waiter of a later block gets the lock before every earlier block was served |
| `LockProgress.NoLostWaiter` | src/bst/srw_lock.cpp:111-148 | a waiter is in exactly one place of the queue and asleep, or its block was served and it is awake or somebody is about to wake it |
| `LockDrain.NeverIncreases` | src/bst/srw_lock.cpp:249-568 | a measure on the threads, the queue and the pending wakes never grows without a new request, and shrinks with every wake, release, grant and exit from a spin loop |
| `LockDrain.HelpsSolo` | src/bst/srw_lock.cpp:249-568 | a holder, a waker, a woken waiter or an acquirer of a free lock makes the measure smaller with at most three steps of its own |
| `LockDrain.SomebodyHelps` | src/bst/srw_lock.cpp:249-568 | unless all threads are idle there is always such a thread: the lock is never stuck |
| `LockDrain.EverybodyIsServed` | src/bst/srw_lock.cpp:83-149 | from every reachable state some run without new requests brings every thread home, and every waiter has been served in it |
| `LockFair.Moves` | src/bst/srw_lock.cpp:249-568 | a step that does not make the measure smaller changes neither the word, a block or a node nor the queue, only the place of its thread |
| `LockFair.TurnsHelp` | src/bst/srw_lock.cpp:249-568 | a run without new requests in which such a thread has three turns makes the measure smaller, whatever the other threads do in between |
| `LockFair.FairRunsServe` | src/bst/srw_lock.cpp:249-568 | every run without new requests that gives each active thread three turns again and again, as often as the measure says, brings every thread home and serves every waiter, from every reachable state |
| `LockModes.StepFollows` | src/bst/srw_lock.cpp:249-568 | a step out of a place on the way into the lock leads to such a place of the same mode or inside in that mode, and never to an idle thread; other steps lead to no other mode, and no thread moves another one |
| `LockModes.ModeAsked` | src/bst/srw_lock.cpp:582-595 | over every run, a thread on the way or inside in a mode has asked for that mode in its last call that found it idle, and a thread that has not asked is idle |
| `LockModes.ExclusiveIsAlone` | src/bst/srw_lock.cpp:443-522 | a thread that asked for the lock exclusively is alone when it is inside |
| `LockModes.SharedAtOnce` | src/bst/srw_lock.cpp:301-318 | a shared request of a lock that is free or simply shared is granted in two steps |
| `LockModes.ExclusiveAtOnce` | src/bst/srw_lock.cpp:443-452 | an exclusive request of a free lock is granted in one step |
| `LockModes.ReleasedAtOnce` | src/bst/srw_lock.cpp:417-568 | without waiters a lock is given back in two steps: it is free, or has one sharer less |
| `LockModes.SharersMeet` | src/bst/srw_lock.cpp:249-393 | two threads that ask for it shared are inside together |
| `LockModes.RequestIsGranted` | src/bst/srw_lock.cpp:582-595 | after any run, the request of an idle thread leads inside in the mode it asks for, in every fair run |
| `Numerals.ToOctal` | src/tar.cpp:32-39 | fills exactly the field with the low octal digits of the number |
| `Numerals.OctalRoundTrip` | src/tar.cpp:32-39 | reading an octal field back gives the number modulo the power of eight of its width, so the number itself if it fits, whatever follows the field |
| `Numerals.DecodeOctalField` | src/tar.cpp:665-690 | the value of the leading octal digits, which never overflows in the fields it is used for |
| `Numerals.ToDecimal` | src/tar.cpp:45-74 | the decimal digits of the number, ending in front of the NUL at the end of the buffer, and their count |
| `Numerals.DecimalRoundTrip` | src/tar.cpp:45-57 | the digits of a number have that number as their value |
| `Numerals.DigitsPow` | src/tar.cpp:45-57 | a number has at most n digits exactly if it is below the n-th power of ten |
| `Numerals.DecodeDecimal64` | src/tar.cpp:651-662 | refuses exactly the texts with a byte that is no digit, and otherwise returns the value modulo 2^64 |
| `PaxTime.CodeNsFraction` | src/tar.cpp:82-101 | writes a point and the fraction with its leading zeros and without its trailing ones, or nothing for zero |
| `PaxTime.FractionRoundTrip` | src/tar.cpp:82-101 | scaling the written digits by the stripped zeros gives the fraction back |
| `PaxTime.WriteTime` | src/tar.cpp:104-124 | sign, whole seconds and fraction of a time, inside the buffer |
| `PaxTime.WriteFiletime` | src/tar.cpp:130-136 | the text of a FILETIME, with the truncating division and the unsigned cast of C++ |
| `PaxTime.ScanDigits` | src/tar.cpp:709-719 | one pass accepts exactly digits with at most one point and counts the digits on both sides of it |
| `PaxTime.ReadTime` | src/tar.cpp:693-741 | the parser of times, with all its refusals, as the function that splits the text at its first point |
| `PaxDecoder.ReadEpochTime` | src/tar.cpp:743-754 | seconds and fraction as a FILETIME, with wrap-around at 64 bits |
| `PaxTime.TimeReadBack` | src/tar.cpp:743-754 | what is read for a written time: the time itself from 1970 on, and before that the time cut to whole seconds towards 1970 |
| `PaxTime.TimeRoundTrip` | src/tar.cpp:126-136 | the round trip is exact if and only if the time is at or after 1970 or a whole second |
| `PaxTime.TickBeforeEpoch` | src/tar.cpp:130-136 | the last tick before 1970 is read back as 1970 |
| `TimeExact.TimeExactly` | src/tar.cpp:692-741 | a text is read as a time exactly if it is an optional minus sign, at least one digit, and optionally a point with at least one digit, with seconds below 2^63 - 1; the fraction is cut to seven digits, however long it is |
| `TimeExact.FractionFloor` | src/tar.cpp:725-734 | the fraction in units of 100 ns is the largest number of units that is not more than the decimal fraction |
| `PaxRecord.BlocksizeRound` | src/tar.h:199-202 | the next multiple of the block size |
| `PaxRecord.NumberLength` | src/tar.cpp:208-216 | the guessing loop ends with the length that includes its own digits, and with its digits in the buffer |
| `PaxRecord.RecordLengthCounts` | src/tar.cpp:201-216 | the length of a record is its payload plus the number of its own digits, also across powers of ten |
| `PaxRecord.RecordLengthLeast` | src/tar.cpp:208-216 | it is the least number with that property |
| `PaxRecord.XHeader.constructor` | src/tar.cpp:187-198 | an empty extended header behind a cleared block, with the capacity of the buffer less two blocks |
| `PaxRecord.XHeader.AddParamStr` | src/tar.cpp:201-237 | appends exactly one record, keeps the used size at the rounded data size and everything behind the data zero, and fails without any change exactly if the record needs a block beyond the capacity |
| `PaxWritten.RecordForm` | src/tar.cpp:201-237 | a record is its own length in decimal digits without a leading zero, a blank, the keyword, '=', the value and a newline |
| `PaxParser.ScanKeyword` | src/tar.cpp:964-982 | finds the number, the keyword of at most 62 bytes and the '=', or the record is malformed |
| `PaxParser.ReadRecord` | src/tar.cpp:959-994 | one round of the parser on any bytes: the record and its size, or a refusal |
| `PaxParser.ParseAdvances` | src/tar.cpp:984-993 | an accepted record is at least five bytes long and lies inside the rest, so that the parser ends on every input |
| `PaxParser.RecordRoundTrip` | src/tar.cpp:952-999 | a written record is read back, in front of any other bytes, if and only if its keyword has 1 to 62 bytes without '=' and NUL and the record is at most 99999 bytes long |
| `PaxParser.KeywordsLost` | src/tar.cpp:974-978 | a keyword of 63 bytes or with '=' is not read back |
| `PaxParser.RecordsRoundTrip` | src/tar.cpp:952-999 | parsing the records of any list of such pairs with values gives exactly the pairs, in order |
| `PaxExact.ParsedExactly` | src/tar.cpp:959-994 | which bytes are read as a record: one to five digits that are its length, one byte, a keyword of 1 to 62 bytes without '=' and NUL, '=', the value, one more byte |
| `PaxExact.RecordsRead` | src/tar.cpp:952-999 | of any list of written pairs exactly those with a value are read, in order |
| `Fields.OverlayField` | src/tar.cpp:382-431 | a field that was copied into a block is read back if no later field touches it |
| `TarBlock.SetTar` | src/tar.cpp:382-431 | the nine fields of set_tar are copied into the block, one behind the other |
| `TarHeader.SetTarChksum` | src/tar.cpp:433-444 | blanks the checksum field, sums the block and writes the sum, changing nothing else |
| `TarBlock.WriteUstar` | src/tar.cpp:335-444 | the complete block: name, fields and checksum on a cleared block, and nothing outside it |
| `TarBlock.FieldKept` | src/tar.cpp:382-444 | every field of a finished block holds what was written to it, although the name of an 'x' block may run over the first ones |
| `TarBlock.UstarMode` | src/tar.cpp:384-394 | the mode and the type are read back from a finished block |
| `TarBlock.UstarSize` | src/tar.cpp:402-407 | the size is read back, or the largest octal size if it is larger |
| `TarBlock.UstarMtime` | src/tar.cpp:409-415 | the time is read back in whole seconds, modulo eleven octal digits |
| `TarHeader.ReadTarCksum` | src/tar.cpp:775-804 | the check of the checksum with both sums, for zero blocks and for fields without an octal digit |
| `TarHeader.ChecksumAccepts` | src/tar.cpp:433-444 | every block finished by set_tar_chksum is accepted |
| `TarHeader.ChecksumDetects` | src/tar.cpp:775-804 | after any change of one byte outside the checksum field it is refused, although sums of signed bytes are accepted too |
| `PaxDecoder.CheckHeader` | src/tar.cpp:806-845 | the detection of the format, with all refusals |
| `TarBlock.UstarChecks` | src/tar.cpp:806-845 | every written block is detected, 'x' and 'g' blocks as POSIX headers and all others as ustar |
| `TarExact.WrittenBlock` | src/tar.cpp:335-444 | every byte of a written block: the texts of mode, owner, magic number and devices at their offsets, size, time and checksum in octal digits, and the rest of an overlong name or zeros between them |
| `TarExact.OctalExactly` | src/tar.cpp:678-690 | the number read from a field is that of the octal digits in front of its first other byte |
| `TarExact.CheckedExactly` | src/tar.cpp:806-845 | which blocks are accepted, and as what: the magic numbers, the unsigned or the signed sum, and the bytes that tell the formats apart |
| `TarExact.FirstExactly` | src/tar.cpp:1050-1073 | the first call on any block: the type, the size of the records and of the whole header, and the refusals |
| `TarExact.SecondExactly` | src/tar.cpp:1075-1084 | the second call on any bytes: the type and size of the last block, the size only for types that have a content |
| `TarExact.BlockExactly` | src/tar.cpp:1007-1031 | what any block says about its entry: name, size, times and attributes |
| `TarExact.ReadonlyMode` | src/tar.cpp:1014-1016 | a mode means read-only exactly if nobody has the permission to write |
| `PaxFlags.FlagText` | src/tar.cpp:272-313 | the names of the attributes that are set, in order, with commas between them |
| `PaxFlags.ParseFlags` | src/tar.cpp:921-944 | sets exactly the flags whose names are pieces between the commas, and clears none |
| `PaxFlags.FlagsRoundTrip` | src/tar.cpp:272-313 | readonly, hidden, system and archive come back, whatever other attributes are set |
| `PaxWritten.FlagNamesExactly` | src/tar.cpp:272-333 | the names of the flags, as texts and in order |
| `PaxWritten.FlagsReadExactly` | src/tar.cpp:918-945 | a list of any names in any order sets exactly the four known flags among them and clears nothing |
| `PaxHeader.AddParams` | src/tar.cpp:561-599 | exactly the records of the header, in order: size from the octal limit on, real size, flags, times, and the path if the name is long, not 7-bit or the only record |
| `PaxWritten.RecordsWritten` | src/tar.cpp:561-600 | which records a header has, in which order, and under which conditions, the path among them |
| `PaxWritten.ValuesWritten` | src/tar.cpp:239-333 | the value under each of these keywords |
| `PaxHeader.DataBound` | src/tar.cpp:561-601 | the records of any header have at most 99999 bytes, so the limit of one MiB is never reached |
| `PaxHeader.FinishHeader` | src/tar.cpp:603-627 | the 'x' block in front of the padded records and the ustar block behind them |
| `PaxHeader.CreateHeader` | src/tar.cpp:559-632 | behind the name: the whole header is in the buffer and its size returned, and it fails exactly if the records do not fit the limits |
| `PaxWritten.BufferExactly` | src/tar.cpp:601-616 | create_header takes a buffer exactly if, in whole blocks, it is more than two blocks larger than the header |
| `PaxName.RelativeName` | src/tar.cpp:518-557 | a file at some place below a directory gets "./" and this place with slashes as its name, and a slash behind it for a directory; a path with too few parts is kept as a whole |
| `PaxName.NameListed` | src/wcx_cache.cpp:317-327 | the scanner strips such a name to that place again |
| `PaxName.NamesFit` | src/tar.cpp:340-369 | the names fit the header: no NUL, the last part starts behind a slash, and the name of the 'x' block has at most 200 bytes |
| `PaxName.KeptParts` | src/tar.cpp:518-527 | the number of separators in the path in the archive, without one at its end |
| `PaxName.FindStarts` | src/tar.cpp:528-540 | where the kept part and the last part of the path start |
| `PaxName.WriteName` | src/tar.cpp:541-557 | the name of the entry, in the bytes of the path |
| `PaxName.XName` | src/tar.cpp:340-369 | the name of the 'x' block: "/PaxHeaders" between the directory and the last part, cut at 100 bytes |
| `PaxName.CreateNamed` | src/tar.cpp:446-632 | from the path of a file in UTF-8 on, the whole header of the entry is in the buffer, with these names, and it fails exactly for an empty or refused path or records beyond the limits |
| `ArchiveNames.ListedUnderItsPath` | src/tar.cpp:446-560 | a file that is packed under a path of ASCII characters, from whatever directory, is listed under this path, a directory with a backslash behind it |
| `ArchiveNames.XNameExactly` | src/tar.cpp:335-380 | the name of an 'x' block: directory, "/PaxHeaders" and last part, cut to 100 bytes and without a slash at the end |
| `PaxDecoder.PaxDecode.constructor` | src/tar.cpp:847-850 | a new decoder is empty |
| `PaxDecoder.PaxDecode.Clear` | src/tar.cpp:857-868 | the decoder is empty again |
| `PaxDecoder.PaxDecode.AddHeader` | src/tar.cpp:1046-1087 | the first call on a block and the second one on the whole header: the header size and type, or a refusal of exactly the malformed ones |
| `PaxDecoder.PaxDecode.ReadBlock` | src/tar.cpp:1007-1031 | the name, mode, size and time of the ustar block, with a name field that may lack its NUL |
| `PaxDecoder.PaxDecode.ParsePaxParam` | src/tar.cpp:870-950 | the effect of one record on the decoder, with every refusal; that other keywords have none is `PaxExact.OtherIgnored` |
| `PaxExact.OtherIgnored` | src/tar.cpp:870-950 | a record whose keyword is none of the seven known texts changes nothing and is no error |
| `PaxExact.OtherPutIn` | src/tar.cpp:946 | such a record can be put in at any place of any list of records without changing what the list does |
| `PaxExact.OthersInHeader` | src/tar.cpp:1001-1042 | a header of create_header with any such records added to its text is read with the same name and information |
| `PaxWritten.SizeExactly` | src/tar.cpp:650-662 | which texts are read as a size: digits, whose number in 64 bits is below 2^63 - 1 |
| `PaxDecoder.OneRecord` | src/tar.cpp:959-994 | applying records while they are parsed is the same as parsing all of them first and then applying them |
| `PaxDecoder.PaxDecode.ParsePaxHeader` | src/tar.cpp:952-999 | the loop over the records on any text: all of them are applied in order, or the header is refused |
| `PaxDecoder.PaxDecode.ParseHeader` | src/tar.cpp:1001-1042 | the fields of the ustar block, overridden by the records |
| `PaxRoundTrip.NameBack` | src/tar.cpp:371-378 | a name of at most 99 bytes is read back from the name field |
| `PaxRoundTrip.ParamsParsed` | src/tar.cpp:561-599 | the parser sees exactly the records that create_header has written |
| `PaxRoundTrip.ParamsStep` | src/tar.cpp:870-950 | the effect of these records: they give sizes, flags, times and the name, and are refused exactly for sizes beyond 63 bits |
| `PaxRoundTrip.HeaderRoundTrip` | src/tar.cpp:1001-1087 | on every output of create_header both calls of add_header succeed, the header size is recovered, and parse_header recovers name, sizes, times and flags, or fails exactly if a size does not fit into 63 bits |
| `PaxRoundTrip.HugeFileRefused` | src/tar.cpp:888-891 | the header of a file of 2^63 - 1 bytes is refused |
| `CacheItem.ItemBack` | src/wcx_cache.h:38-63 | a record in the packed layout is read back, with all its fields and its own size |
| `CacheStore.Block.constructor` | src/wcx_cache.cpp:75-78 | a block of one MiB, all zero, without a successor |
| `CacheStore.WriteItem` | src/wcx_cache.cpp:89-95 | the assignments turn cleared bytes into the record and touch nothing else |
| `CacheStore.RecordInside` | src/wcx_cache.cpp:72-96 | every record lies inside its block, with 32 bytes to spare, and starts with its own size |
| `CacheStore.TerminatorInside` | src/wcx_cache.cpp:72-76 | behind the last record of a block there is a zero size, still inside the block |
| `CacheStore.Cache.constructor` | src/wcx_cache.cpp:8-19 | a new index is empty |
| `CacheStore.Cache.NewBlock` | src/wcx_cache.cpp:74-87 | a new block goes to the end of the chain and loses no record |
| `CacheStore.Cache.AddItem` | src/wcx_cache.cpp:61-100 | the index has exactly one more record, at the end, in the last block or in a new one |
| `CacheStore.FilledBlocks` | src/wcx_cache.cpp:71-85 | for any records: the blocks hold them in order, none is empty, and a new one is begun only if the next record would leave less than 33 bytes of the last one |
| `CacheStore.Cache.AtCursor` | src/wcx_cache.cpp:118-130 | at every record of a block its bytes are found, with the next record or a zero size behind it |
| `CacheStore.Cache.GetNextFile` | src/wcx_cache.cpp:102-135 | returns the record behind the cursor, across block borders, and nothing exactly at the end |
| `CacheWalk.ListFiles` | src/wcx_cache.cpp:102-135 | walking the index from the start returns its records in order and ends |
| `CacheWalk.Fill` | src/wcx_cache.cpp:61-98 | filling an empty index with any items leads to exactly these blocks |
| `CacheWalk.FillAndList` | src/wcx_cache.cpp:61-135 | for any list of items, filling an index and walking through it gives exactly these items, in order, from the bytes |
| `ScanLoop.LoopStep` | src/wcx_cache.cpp:375-420 | a scan that has found some items and goes one round further has the same result as before |
| `ArchivePack.HeaderAlwaysFits` | src/tar.cpp:476-488 | the part of the buffer that is left behind the three name buffers is large enough for every header |
| `ArchivePack.Packer.constructor` | src/wcx_packer.cpp:238-243 | the buffers of a packer and an empty output |
| `ArchivePack.Packer.FrameAddData` | src/wcx_packer.cpp:148-185 | without compression the bytes go to the output unchanged and both counters grow by their number |
| `ArchivePack.Packer.SendChunk` | src/wcx_packer.cpp:345-366 | one round sends the next chunk, and with the last chunk the zeros up to the end of the block |
| `ArchivePack.Packer.PackContent` | src/wcx_packer.cpp:344-366 | the output grows by exactly the content and its padding |
| `ArchivePack.Packer.PackEntry` | src/wcx_packer.cpp:322-371 | the output grows by the header and, for files that are not empty, by the padded content |
| `ArchivePack.Packer.PackFiles` | src/wcx_packer.cpp:274-372 | the output for any list of entries is the concatenation of their headers and padded contents, and both counters are its length |
| `ArchiveScan.CheckZero` | src/tar.cpp:762-773 | recognises exactly the blocks of zeros |
| `ArchiveScan.ReadHeaders` | src/wcx_cache.cpp:391-404 | one or two reads and calls of add_header decode the header at the position, or fail as the function does |
| `ArchiveScan.AddFile` | src/wcx_cache.cpp:317-345 | strips the prefix, converts the name, turns slashes round and adds one record, or none for an empty name |
| `ArchiveScan.AddInfo` | src/wcx_cache.cpp:303-351 | parses the header and adds the entry to the index if it is a file or a directory, and refuses other formats |
| `ArchiveScan.SkipContent` | src/wcx_cache.cpp:410-419 | the position behind the content and its padding, at most the end of the file |
| `ArchiveScan.ScanRound` | src/wcx_cache.cpp:375-420 | one round of the scanner on any file ends the scan, fails, or adds what the function says and moves on |
| `ArchiveScan.ScanPaxFile` | src/wcx_cache.cpp:353-426 | on any file the scan fails or fills the index with exactly the items of the scan function and returns the end of the data |
| `ArchiveExact.ScannedExactly` | src/wcx_cache.cpp:362-370 | which files are scanned at all: those that begin with an accepted 'x' or 'g' block |
| `ArchiveExact.RoundExactly` | src/wcx_cache.cpp:375-420 | behind any header the scan goes on at the end of the content or of the file, so that an archive cut off in its last content is listed |
| `ArchiveExact.GlobalHeader` | src/wcx_cache.cpp:375-420 | of a global header only the block is passed over, whatever its size |
| `ArchiveExact.GlobalHeaderPassed` | src/wcx_cache.cpp:375-420 | so the scan gets behind a global header exactly if it has no records |
| `ArchiveExact.CommentRefused` | src/wcx_cache.cpp:375-420 | an archive that begins with a global header with a short record is refused |
| `ArchiveNames.AddedExactly` | src/wcx_cache.cpp:303-351 | which entries are listed and which are errors, and the fields of the record of a listed one |
| `ArchiveNames.KeptName` | src/wcx_cache.cpp:319-326 | a name is listed unchanged exactly if it begins with neither a dot nor a slash |
| `ArchiveNames.HiddenName` | src/wcx_cache.cpp:319-326 | the dot of a hidden file without a directory in front is lost |
| `ArchiveNames.AttributeBits` | src/tar.cpp:1014-1020 | the bit of each attribute |
| `ArchiveTiling.ScanInOrder` | src/wcx_cache.cpp:375-420 | on any file the items are in order: each starts behind the header and the padded data of the one in front of it, and its header lies inside the file |
| `ArchiveTiling.ArchiveInOrder` | src/wcx_cache.cpp:353-426 | so any two entries of an uncompressed archive have no bytes in common, whatever its bytes are |
| `ArchiveRoundTrip.ScanKnown` | src/wcx_cache.cpp:375-420 | where a header lies that the decoder accepts, a round finds its entry and moves on by the header and the padded content |
| `ArchiveRoundTrip.EntryScans` | src/wcx_cache.cpp:375-420 | wherever the piece of an entry lies in a file, a round of the scanner finds exactly this entry |
| `ArchiveRoundTrip.ContentBack` | src/wcx_archive.cpp:284-292 | extracting at the place of a piece gives the content without its padding |
| `ArchiveRoundTrip.EndToEnd` | src/wcx_packer.cpp:274-372 | for any list of entries the stream of the packer, with or without the zero blocks that end a tar file and anything behind them, scans to exactly these entries, in order, with names, sizes, times and attributes; the items lie one behind the other and fill the stream; and extracting gives back every content, except for an empty entry at the very end of the file |
| `ArchiveMixed.OthersPassedOver` | src/wcx_cache.cpp:375-420 | between the files and directories there may be entries of all other types with any records and content, as other programs write them: exactly the files and directories are listed, each at its place |
| `ArchiveRoundTrip.OnlyEmptyFile` | src/wcx_archive.cpp:284-285 | the only file of an archive, if it is empty, is found but cannot be extracted |
| `ArchiveRoundTrip.PackSize` | src/wcx_cache.cpp:406-407 | the packed size in the index is the space of the entry if and only if the file is at most one byte larger than the octal limit |
| `ArchiveRoundTrip.PackSizeTooSmall` | src/wcx_cache.cpp:406-407 | one byte further it is too small by a block |
| `ArchiveExtract.Copy` | src/wcx_archive.cpp:301-316 | the copy loop writes exactly the range of the file |
| `ArchiveExtract.Extract` | src/wcx_archive.cpp:274-324 | the bytes of an entry, cut at the end of the file, or a failure if it starts there |
| `ArchiveExact.ExtractedExactly` | src/wcx_archive.cpp:274-324 | what is extracted for any record: as many bytes behind the header as it has or the file holds, and an error exactly if there are none left |
| `ArchiveExtract.PackScanExtract` | src/wcx_archive.cpp:284-316 | packing, scanning into an index, walking through it and extracting, all in place, gives back every content, except for an empty entry at the very end |
| `ZstdFrame.File.Read` | src/zstd_lib.cpp:120-122 | reads as many bytes as there are and moves the position |
| `ZstdFrame.FrameInfo.Init` | src/zstd_lib.cpp:69-101 | for an ordinary frame the checksum flag, the content size and the first block, for a skippable one the size of its data; the place behind them, and a refusal of exactly the headers that are malformed or too short |
| `ZstdFrame.FrameInfo.InitChecked` | src/zstd_lib.cpp:137-140 | succeeds exactly on an ordinary frame whose first block header ends the buffer |
| `ZstdFrame.FrameInfo.ReadFrameInto` | src/zstd_lib.cpp:104-179 | the walker with a buffer computes the function on the bytes of the frame, has the frame in the buffer and leaves the position at its end |
| `ZstdFrame.FrameInfo.ReadFrameSize` | src/zstd_lib.cpp:182-271 | the walker without a buffer computes the function that jumps over the blocks and leaves the position at the end of the frame |
| `ZstdWalk.WalkersAgree` | src/zstd_lib.cpp:104-271 | on any bytes the walker with a buffer finds an end if and only if the other one finds the same end, inside the file and the buffer |
| `ZstdWalk.BlockBits` | src/zstd_lib.cpp:91-94 | what the three bytes of a block header mean: the last bit, the type, and the size, which is one for a run |
| `ZstdWalk.CutOffFrame` | src/zstd_lib.cpp:232-268 | nine bytes, a frame header and the header of its only block, are accepted by the walker without a buffer only, with an end ten bytes behind the end of the file |
| `ZstdWalk.FrameLength` | src/zstd_lib.cpp:182-271 | on a frame that is written out byte by byte - a header, then for each block three bytes with the last bit, the type and the size, and its body, then a checksum - both walkers find exactly its length, if the buffer of the one is large enough |
| `ZstdExact.BufferedExactly` | src/zstd_lib.cpp:104-179 | the walker with a buffer accepts exactly the bytes that start with a header, well-formed blocks and the checksum that the header announces, if they fit into the buffer |
| `ZstdExact.SeekingExactly` | src/zstd_lib.cpp:182-271 | the walker without a buffer accepts exactly these and, in addition, frames without a checksum that lack bytes of the content of their last block |
| `ZstdHeaders.ZstdFrontExactly` | src/wcx_cache.cpp:613-645 | exactly which frames are taken for the header of an entry, with which text, and exactly where the archive ends |
| `ZstdHeaders.InitExactly` | src/zstd_lib.cpp:69-101 | what init takes from the bytes behind a frame header, for ordinary and for skippable frames |
| `CompressedScan.SkipLz4Blocks` | src/wcx_cache.cpp:552-571 | the loop over the blocks of a content frame, with its refusals; what the bytes of such a frame are is `Lz4Exact.ContentExactly` |
| `CompressedLoops.ReadLz4Info` | src/lz4lib.cpp:68-108 | the fields of an LZ4 frame header and every refusal |
| `Lz4Exact.Lz4InitExactly` | src/lz4lib.cpp:68-108 | what init takes from any frame header and the four bytes behind it: content size, data size, the uncompressed bit and the five required flags |
| `Lz4Exact.ContentExactly` | src/wcx_cache.cpp:525-571 | the scanner accepts a content frame and goes on behind it exactly if its bytes are: a header, for each block a size word with or without the uncompressed bit, a body and a checksum of four bytes, an end mark of four zeros and a content checksum |
| `Lz4Exact.HeaderExactly` | src/wcx_cache.cpp:455-509 | exactly which frames are taken for the header of an entry, with which text, and exactly where the archive ends |
| `CompressedLoops.DecodeHeader` | src/wcx_cache.cpp:515-522 | the one or two calls of add_header on the text of a header frame decode it as the function does; LZ4 frames must hold nothing else |
| `CompressedLoops.SkipLz4Content` | src/wcx_cache.cpp:525-571 | the frame with the content is passed, with all its refusals, and position and running size stay in step |
| `CompressedLoops.ReadLz4Front` | src/wcx_cache.cpp:455-509 | the end of the scan, a refusal, or the text of a header frame with its checksum, end mark and size |
| `CompressedLoops.ReadZstdFront` | src/wcx_cache.cpp:615-645 | the frame at the end of an archive, a refusal, or the text of a header frame and its size |
| `CompressedLoops.Lz4Round` | src/wcx_cache.cpp:452-576 | one round of the LZ4 scanner on any file does what the function says to the index and the position |
| `CompressedLoops.ZstdRound` | src/wcx_cache.cpp:613-662 | one round of the Zstd scanner on any file, also behind its end |
| `CompressedLoops.ScanPaxLz4` | src/wcx_cache.cpp:428-582 | on any file the scan fails or fills the index with exactly the items of the scan function |
| `CompressedLoops.ScanPaxZst` | src/wcx_cache.cpp:584-668 | on any file the scan fails or fills the index with exactly the items of the scan function |
| `CompressedRoundTrip.ZstdRoundTrip` | src/wcx_cache.cpp:584-668 | the scan of a Zstd archive made of the frames of any list of entries finds exactly the entries, each at its place and with its packed size |
| `CompressedRoundTrip.Lz4RoundTrip` | src/wcx_cache.cpp:428-582 | the same for an LZ4 archive, which ends with the file or with something that is no frame |
| `CompressedRoundTrip.Lz4HoldsOneHeader` | src/wcx_cache.cpp:500-520 | the text of an LZ4 header frame is a header of several blocks and nothing else, or begins with one of a single block |
| `CompressedRoundTrip.ZstdMayHoldMore` | src/wcx_cache.cpp:640-652 | the text of a Zstd header frame may go on behind the header |
| `CompressedTiling.RoundLists` | src/wcx_cache.cpp:303-351 | what a round adds starts at its position and has the packed size that the round moves on by, and it adds nothing exactly for an entry that is no file or directory or has no name behind its prefix |
| `CompressedTiling.Tiling` | src/wcx_cache.cpp:452-576 | the items of any scan follow each other inside the file, there are none exactly if every entry is skipped, and they leave no gap if and only if no skipped entry stands in front of a listed one |
| `CompressedTiling.Lz4Tiling` | src/wcx_cache.cpp:428-582 | so it is for the LZ4 scanner on any file |
| `CompressedTiling.ZstdTiling` | src/wcx_cache.cpp:584-668 | so it is for the Zstd scanner on any file |
| `CompressedTiling.Disjoint` | src/wcx_cache.cpp:573-575 | in such a list every item ends in front of every later one and inside the file |
| `CompressedTiling.RootLeavesGap` | src/wcx_cache.cpp:317-327 | with the directory "./" in front an archive is listed as without it, so that whatever is listed starts behind a gap |
| `CacheTable.CacheList.constructor` | src/wcx_cache.cpp:685-692 | an empty table |
| `CacheTable.CacheList.GetFreeItem` | src/wcx_cache.cpp:759-766 | the first slot without object and references, or zero |
| `CacheTable.CacheList.Create` | src/wcx_cache.cpp:768-794 | a new object with one reference in the first free slot, or no change |
| `CacheTable.CacheList.GetCache` | src/wcx_cache.cpp:803-841 | an object of the same file is waited for while it is being built; a reference to it if it then is ready and up to date; otherwise it becomes a zombie, if it was out of date, and a new one is created; `CacheLookup.GetsWhatWasAsked` says what that means for the objects |
| `CacheLookup.Reused` | src/wcx_cache.cpp:803-841 | a cache of the file that is ready and current is returned, with one reference more and no other change but the end of the wait |
| `CacheLookup.Replaced` | src/wcx_cache.cpp:803-841 | otherwise a new one is made, after the old one has become a zombie if there was one |
| `CacheLookup.Added` | src/wcx_cache.cpp:741-793 | the new object goes into the first free slot, with one reference |
| `CacheLookup.NotAdded` | src/wcx_cache.cpp:741-793 | it is refused if it is not possible or no slot is free, and then nothing else changes |
| `CacheLookup.GetsWhatWasAsked` | src/wcx_cache.cpp:803-841 | on every table: a returned slot holds an object with the file and state that were asked for, ready or new; a refusal happens exactly if a new object is needed and is not possible; no object of another file changes |
| `CacheLookup.OutdatedIsReplaced` | src/wcx_cache.cpp:816-826 | the cache of an archive that has changed becomes a zombie and is not returned |
| `CacheTable.CacheList.Release` | src/wcx_cache.cpp:677-736 | the time of use is noted and one reference given back, never below zero |
| `CacheTable.CacheList.DeleteZombies` | src/wcx_cache.cpp:883-914 | deletes exactly the unreferenced objects that are zombies or unused for long, and counts the others |
| `CacheLookup.SweptExactly` | src/wcx_cache.cpp:896-912 | exactly the unreferenced objects go that are zombies or were not used for the lifetime in minutes |
| `CacheLookup.KeptForItsLifetime` | src/wcx_cache.cpp:672-678 | a cache that is given back for the last time stays for its lifetime from then on, and no longer |
| `CacheLookup.CountExactly` | src/wcx_cache.cpp:883-914 | the count of objects is their number |
| `CacheTable.CacheList.ClearAll` | src/wcx_cache.cpp:706-722 | deletes exactly the objects without references |
| `CacheSessions.StepKeeps` | src/wcx_plugin.cpp:70-121 | every step of every open, close, clean-up or clear keeps the counts exact and every referenced object in its slot |
| `CacheSessions.RefcountsAreExact` | src/wcx_plugin.cpp:70-121 | after every interleaving, with failing opens, the count of a slot is the number of archives and unfinished opens on it, and each of them finds the object it got |
| `CacheSessions.CacheStays` | src/wcx_archive.cpp:18-34 | whatever happens next, an archive keeps the same cache object until it gives its reference back itself |
| `CacheSessions.DeletedOnlyUnused` | src/wcx_cache.cpp:883-914 | an object is deleted only by the clean-up or by clear, and only while no archive or open refers to it, so never while its read lock is held |
| `CacheSessions.NothingLeaks` | src/wcx_cache.cpp:706-722 | when all archives are closed no reference is left and clear deletes everything |
| `CacheRuns.StepSound` | src/wcx_cache.cpp:795-858 | every step keeps the ties between sessions, builders and objects |
| `CacheRuns.SessionsHaveTheirFile` | src/wcx_cache.cpp:803-841 | over every run, each session has an object of the file and of the state of the archive that it asked for |
| `CacheRuns.AskedInItsSearch` | src/wcx_cache.cpp:795-812 | what a session has asked for is what it searched for |
| `CacheRuns.WaitEnds` | src/wcx_cache.cpp:812-815 | whoever waits with the write lock held waits for an object that another session builds without it, and gets on as soon as that is done: there is no deadlock |
| `CacheRuns.GoesItsWay` | src/wcx_plugin.cpp:70-121 | a session goes from building or sharing to reading and back by its own steps only, and gives its reference back once |
| `CacheRuns.ReadingStays` | src/wcx_plugin.cpp:94-116 | over every further run without its unlock a reader goes on reading the same object |
| `CacheRuns.ZombiesStay` | src/wcx_cache.cpp:816-830 | a cache that has been built changes its status only to that of a zombie, and a zombie stays one |
| `CacheRuns.GetsReady` | src/wcx_cache.cpp:803-841 | leaving the section ends with a share of a ready and current object, a new object in a free slot, or a refusal because there is none |
| `CacheRuns.OneCachePerFile` | src/wcx_cache.cpp:50-53 | a file has only one cache that is no zombie, in every run in which nobody searches while a cache that is being built is a zombie for the moment |
| `CacheRuns.TwoCaches` | src/wcx_cache.cpp:27-29 | a run in which somebody does, and a file gets two |
| `Progress.OneCall` | src/wcx_callback.cpp:23-56 | a call in order tells the exact positive delta, below the limit, and only if it is forced or the first of a file, late, or a step; less than a step stays untold, and nothing if it is forced |
| `Progress.DeltasAddUp` | src/wcx_callback.cpp:23-56 | over every run in order the clamp is never taken, the deltas add up to what was told, and after a forced call to all bytes processed |
| `Progress.SkipInOrder` | src/wcx_callback.cpp:58-68 | the calls for a skipped file of up to 2^64 - 16 bytes keep that order and account for exactly its size |
| `Progress.OneStepLess` | src/wcx_callback.cpp:58-68 | the 64-bit counter of the loop, which may wrap, comes to every size: the loop ends for every file |
| `Progress.SkipKeepsOrder` | src/wcx_callback.cpp:58-68 | the calls for a skipped file keep the order if and only if it has at most 2^64 - 16 bytes |
| `Progress.Callback.constructor` | src/wcx_callback.cpp:6-13 | all counters start at zero |
| `Progress.Callback.TellProcessData` | src/wcx_callback.cpp:23-56 | the counters and deltas after one more call, with 64-bit wrap-around |
| `Progress.Callback.TellSkipFile` | src/wcx_callback.cpp:58-68 | exactly the calls for the whole file unless the user cancels, and then a part of them, for every size in 64 bits |
| `CircularList.ListNode.Head` | src/bst/list.hpp:19-22 | a head node is its own neighbour |
| `CircularList.ListNode.Between` | src/bst/list.hpp:24-30 | a new node is linked between its neighbours |
| `CircularList.ListNode.Destroy` | src/bst/list.hpp:32-38 | the neighbours are linked to each other and the object of the node is deleted |
| `CircularList.RingWith` | src/bst/list.hpp:24-30 | with a node linked in front of the head the ring stays linked both ways |
| `CircularList.RingWithout` | src/bst/list.hpp:32-38 | without a node whose neighbours were linked the ring stays linked both ways |
| `CircularList.List.constructor` | src/bst/list.hpp:54-57 | an empty list |
| `CircularList.List.IsEmpty` | src/bst/list.hpp:78-81 | the flag says whether the list is empty |
| `CircularList.List.IsEmptyInternal` | src/bst/list.hpp:117-120 | the links of the head say whether the list is empty |
| `CircularList.List.FindNode` | src/bst/list.hpp:122-129 | finds a node exactly if the object is in the list, and then its node |
| `CircularList.List.Find` | src/bst/list.hpp:83-87 | true exactly if the object is in the list; a null pointer never is |
| `CircularList.List.Add` | src/bst/list.hpp:89-141 | appends an object that is not in the list yet, and changes nothing otherwise |
| `CircularList.List.Del` | src/bst/list.hpp:98-153 | takes the object out of the list and deletes it, exactly if it is there |
| `CircularList.List.Pop` | src/bst/list.hpp:107-166 | takes the object out of the list without deleting it, exactly if it is there |
| `CircularList.List.Clear` | src/bst/list.hpp:64-71 | deletes all objects, in order, and leaves the list empty |
| `CircularList.AppliedExactly` | src/bst/list.hpp:117-166 | what add, del, pop and clear answer and do: which objects they refuse, which one goes, and what is deleted |
| `CircularList.ObjectsAreConserved` | src/bst/list.hpp:117-166 | over any run of add, del, pop and clear the list has no duplicates, and every added object is in the list, deleted or popped, as often as it was added |

## Left out

- Win32 and NT calls, handles, dialogs, ini and language files, logging, DLL exports: input, output and user interface.
- LZ4, Zstd and XXH32 internals: library code; parsing, decoding and hashing are parameters.
- Packing into LZ4 or Zstd frames and extracting from them: library calls around the modelled packer.
- `srw_lock::unlock()`: it issues both releases, so it needs a discipline of its callers that the code does not state; with it the list enumerator.
- The lifetime of wait blocks on the stacks of their threads, and interleavings inside a contended section: see the assumptions.
- Wrap-around of the shared count (31 bits in a block, 28 or 60 in the word) and weak memory ordering.
- Fairness: that a scheduler gives every thread its turns again and again is the assumption of `LockFair.FairRunsServe`; with new requests coming in all the time, only the order of service is claimed.
- ArchiveScan.ScanPaxFile: the choice of the scanner by the type of the archive and the single entry that `cache::init` adds for other files would only add easy members.
- CacheStore.Cache.AddItem: includes the assignments of `add_pax_info` to the new record, which it makes directly after `add_file_internal`; a name that is empty is refused by the caller in the model.
- ArchiveRoundTrip.EndToEnd: entries have contents of at most 2^63 - 513 bytes, and names start with "./" and can be converted, as `create_header` writes them (`PaxName.RelativeName`) for names that Windows accepts.
- PaxName.CreateNamed: the size and times of the file and its path in UTF-8 come from Windows calls, which are parameters, and the checks of the buffer size in front of them are left out.
- PaxDecoder.PaxDecode.ParseHeader: a name at offset 0, which `get_name` hides, is visible in the model; `add_pax_info` never gets there, because it accepts only headers with an 'x' block.
- CacheSessions.RefcountsAreExact: counts are unbounded, and `cache::release`, which notes the time of use before it takes the lock of the table, is one step.
- CacheRuns.ReadingStays: the read lock of a cache is a place of its session; that the lock itself works is the subject of the `Lock` modules.
- CacheTable.CacheList.GetCache: `set_arcfile` and the allocation of an object succeed; file names, sizes and times are compared as numbers; the status that the builder leaves is a parameter, and that it comes is `CacheRuns.WaitEnds`.
- `cache_list::add_ref`: no modelled code uses it.
- Progress.Callback.TellProcessData: the mode for reading archives, which only shows percentages.
- CircularList.List.Add: the allocation of a node succeeds.
- `paxz.h` frame initialisation and checks, `src/utils.cpp`, `src/bst/string.hpp`: straight-line code or easy members.
