# A verified model of the self-contained cores of ORCOS

ORCOS is a small real-time operating system in C and C++. This project models the parts of it that are pieces of state,
arithmetic or encoding of their own, and proves what they are for. `dafny verify dfyconfig.toml` checks all of it.

Code that changes objects, buffers or local variables in place is modelled by classes, arrays and loops, proved against
specification functions; the laws are lemmas about those functions and about whole runs of calls.

| module | what it is about |
|---|---|
| `LinkedLists` | the intrusive doubly linked list: items that know their list and leave it when they are put elsewhere |
| `BlockCache`, `CacheRuns`, `CacheOrder`, `CacheCalls`, `PartitionCache` | the write-back block cache of the partitions: five slots in least-recently-used order. The first four give its meaning on values (one access, runs of accesses, order and misses, runs of whole calls); the last is the code in place, on the linked list |
| `Wildcard` | the greedy matcher for `*` and `?` |
| `Collections` | missing values, and positions in sequences, for the other modules |
| `Words`, `Numbers` | bytes and 32-bit words, and the numbers that the bits of a word stand for, likewise |
| `Crc32` | the table-driven CRC-32 against the sum bit by bit |
| `Calendar` | seconds to a Gregorian date |
| `UDivMod` | 64-bit division by shifting and subtracting |
| `InetNtop` | printing IPv6 addresses, against a reader of the text forms of RFC 4291 and the one form of RFC 5952 |
| `DirectoryStream` | directory listings: the writer that resumes, and the reader that unpacks 512-byte stretches |
| `ParseArgs` | splitting an argument line in place, in two passes |
| `ArrayList` | the fixed-size ring list |
| `IdMap` | the allocator of ids in a bitmap |
| `BufferDevice` | the byte pipe |
| `Mutex` | the lock of the user library, for any number of threads and every interleaving |
| `Random` | the xorshift128 generator |

## Where the code does less than it seems to

Each of these is a proved statement about the code as it is.

- Cache transfers: the bound check adds in 32 bits, so a request whose start and count wrap around passes it
  (`CacheRuns.InBoundsExact`, and an input in `CacheRuns.WrapWitness`). Of the requests that lie in the partition, those
  that reach its last sector are refused (`CacheRuns.LastSectorRefused`).
- Cache misses: when the device read fails, the slot keeps the label of the block it was to hold. No user sees a
  difference exactly when the stale buffer agrees with the block's sectors that lie in the partition
  (`BlockCache.FailedFetch`), as the next read of the sector is a hit that returns the stale bytes
  (`BlockCache.FailedFetchIsForgotten`; a wrong sector read in `CacheRuns.WrongSectorRead`).
- Flushes whose writes fail: nobody sees it at first, but no block stays marked as modified. The device then has what the
  users see of the partition exactly when each write left there what its slot holds of it (`CacheRuns.FlushExact`); a
  written sector is lost in `CacheRuns.FlushLoses`.
- `time2date`: comments and header speak of 1970; the code counts from 1 January 1900, 02:00
  (`Calendar.EpochOfZero`). With the 32-bit `time_t` of the library every date is exact (`Calendar.ThirtyTwoBits`); with a
  longer one, exactly those are whose year fits the signed 32-bit field for it (`Calendar.ExactIffFits`).
- `insertItemAt` with exactly one free slot overwrites the head of a non-empty list (`ArrayList.InsertExact`,
  `ArrayList.InsertWitness`).
- `IDMap` with a number of ids that fills its last word shifts by the whole word size. It starts complete exactly when
  that shift happens to give 1 (`IdMap.InitialExact`, `IdMap.InitialWitness`). The repository uses 256 and 1024 ids.
- `parseArgs`: an empty quoted argument is counted, but the second pass cannot find it (`ParseArgs.SecondExact`). It then
  finds text that is no argument (`ParseArgs.EmptyAndOpen`) or leaves the buffer (`ParseArgs.EmptyOnly`); the latter exactly
  when there are more empty arguments than open quotes with text behind them (`ParseArgs.SecondPassLeaves`).
- `readBytes` of a directory stores the name field's size in a byte. A comment allows names of 256 characters, and their
  records do hold them; but from one of more than 251 characters `readdir` steps into the name itself
  (`DirectoryStream.StepExact`). Unless the name's bytes 21 and 22 look like the end mark, it goes on there
  (`DirectoryStream.LongNameLeft`), and hands out what it finds (`DirectoryStream.LongNameMisread`).
- `readBytes` stores its padding through the pointer that it has moved already: it stays inside the buffer exactly when no
  record was packed before it, or it is empty (`DirectoryStream.PaddingInside`). Nor is it the end mark 0xffff that
  `readdir` looks for: for an aligned range of more than 20 bytes the kernel's `memset` (source/inc/memtools.cc:159-178)
  stores whole words of the number 0xff, the bytes ff 00 00 00, and zeros in the last places. The model leaves the padding's
  bytes open, and what `readdir` is proved to do does not depend on them.
- A write to a full pipe device takes what fits and reports success; the rest is lost
  (`BufferDevice.BufferDevice.WriteBytes`, `BufferDevice.NothingLost`, `BufferDevice.LossWitness`). A write of length 0 wakes no reader, although a
  comment in `readBytes` counts on that.
- A release of the lock by a thread that does not have it lets a second thread in (`Mutex.ReleaseExact`,
  `Mutex.ForeignRelease`).

## Model

| member | source | states |
|---|---|---|
| LinkedLists.LinkedListItem.Remove | source/db/LinkedListItem.hh:138-141 | an item leaves the one list that hosts it, if any, and every other list keeps its contents |
| LinkedLists.LinkedList.RemoveItem | source/db/LinkedList.cc:216-244 | removing an item of this list takes exactly it out and clears its links; an item hosted elsewhere gives the error code and changes nothing |
| LinkedLists.LinkedList.RemoveHead | source/db/LinkedList.cc:36-57 | the first item is unlinked and returned, null from an empty list; the chain stays well formed |
| LinkedLists.LinkedList.RemoveTail | source/db/LinkedList.cc:66-84 | the same at the other end |
| LinkedLists.LinkedList.AddTail | source/db/LinkedList.cc:122-148 | in a closed world of lists the item leaves its old list, possibly this one, and is the last of this one; no other list or item changes |
| LinkedLists.LinkedList.AddHead | source/db/LinkedList.cc:156-185 | the same at the front |
| LinkedLists.LinkedList.InsertAfter | source/db/LinkedList.cc:281-308 | the item leaves its old list and stands right behind the other one |
| LinkedLists.LinkedList.InsertBefore | source/db/LinkedList.cc:310-337 | the item leaves its old list and stands right in front of the other one |
| LinkedLists.LinkedList.GetItem | source/db/LinkedList.cc:340-349 | the first item with the data, or null exactly if there is none |
| LinkedLists.RunPlacesItems | source/db/LinkedList.cc:36-337 | over any run of operations on any lists, an item is in exactly the list it was last sent to, and once |
| LinkedLists.RunKeepsOthers | source/db/LinkedList.cc:36-337 | a run leaves the items it does not name in every list, in the same order |
| LinkedLists.EffectPlaces | source/db/LinkedList.cc:122-337 | an insertion puts its item last, first, right behind or right in front of the existing one, whatever list it came from |
| BlockCache.AccessRefines | source/filesystem/Partition.cc:80-129 | with working device reads one access does on a flat store of sectors exactly what it says, or reports a failed write-back with nothing changed for any user; the cache stays coherent: no block twice, clean slots as on the device |
| BlockCache.HitIgnoresDevice | source/filesystem/Partition.cc:86-97 | an access to a cached block succeeds whatever the device would do, and calls it neither to read nor to write |
| BlockCache.BlockByMask | source/filesystem/Partition.cc:84-118 | for block sizes that are a power of two, masking a 32-bit sector number gives the first sector of its block, and the remainder in it |
| BlockCache.WriteBackHidden | source/filesystem/Partition.cc:99-105 | writing a victim back, well or badly, changes no sector as any partition sees it |
| BlockCache.FetchHidden | source/filesystem/Partition.cc:107-115 | replacing a clean or written-back slot by a block just read changes no sector as any partition sees it |
| BlockCache.FailedFetch | source/filesystem/Partition.cc:107-115 | a failed device read reports its error, and no user of any partition sees a difference if and only if the stale buffer agrees with every sector of the block that lies in the partition |
| BlockCache.FailedFetchCoherent | source/filesystem/Partition.cc:107-115 | the invariant itself survives if and only if the stale buffer equals the whole block on the device |
| BlockCache.FailedFetchIsForgotten | source/filesystem/Partition.cc:111-120 | the next read of that sector succeeds and returns the stale bytes |
| CacheRuns.EmptyCoherent | source/filesystem/Partition.cc:69-77 | the cache as initialized is coherent and shows the devices |
| CacheRuns.WrongSectorRead | source/filesystem/Partition.cc:107-120 | an input on which a read fails and the next access to the sector succeeds with wrong bytes |
| CacheRuns.FlushExact | source/filesystem/Partition.cc:131-144 | whatever its writes do, a flush changes nothing that any user sees; the device then has the contents of the whole partition if and only if each write left there what its slot holds of the partition's sectors |
| CacheRuns.FlushCoherent | source/filesystem/Partition.cc:131-144 | the invariant itself survives if and only if each write left on the device the whole of what its slot holds |
| CacheRuns.FlushLoses | source/filesystem/Partition.cc:136-141 | an input on which a flush whose write fails leaves the device without a written sector, and no slot marked as modified |
| CacheRuns.FlushRefines | source/filesystem/Partition.cc:131-144 | a flush whose writes succeed leaves the partition's sectors on its device and changes nothing any user sees |
| CacheRuns.InBoundsExact | source/filesystem/Partition.cc:154-157 | the guard keeps all sectors of a request inside the partition exactly when start plus count does not wrap around |
| CacheRuns.WrapWitness | source/filesystem/Partition.cc:154-157 | bounds that wrap around, pass, and ask for a sector far outside |
| CacheRuns.LastSectorRefused | source/filesystem/Partition.cc:153-163 | of the requests inside the partition exactly those that reach its last sector are refused with the error code and no effect; the others are served, and succeed if the devices do |
| CacheRuns.RefusedExactly | source/filesystem/Partition.cc:153-163 | of all requests that do not wrap around, those that reach the partition's last sector or go behind it are refused with the error code and no effect, and no others |
| CacheRuns.TransferRefines | source/filesystem/Partition.cc:153-165 | a transfer returns and stores its sectors in order, all of them or those before the first failed write-back, whose error it then reports, and changes no other |
| CacheRuns.RunRefines | source/filesystem/Partition.cc:80-144 | over every run of accesses and flushes on any partitions, each sector holds the value last written to it, and every read that succeeds returned it |
| CacheOrder.RunOrder | source/filesystem/Partition.cc:82-128 | after every run the list is the last five distinct blocks in order of last use, unused slots last |
| CacheOrder.MissExactly | source/filesystem/Partition.cc:86-97 | an access misses exactly when the block was never used or at least five other blocks were used since |
| CacheOrder.RunMarks | source/filesystem/Partition.cc:80-144 | after every run a slot is marked as modified exactly if a value was stored in its block since the block was last fetched or flushed |
| CacheOrder.WritesExactly | source/filesystem/Partition.cc:99-105 | after every run an access writes a block back exactly if it misses and the block in the last place has such a value, and it fails exactly if that write does, with its error |
| CacheCalls.CallsAreRuns | source/filesystem/Partition.cc:131-234 | every run of calls of the three public functions, refused and failing ones included, is a run of the accesses and flushes it is made of, with the same answers |
| CacheCalls.CallRefines | source/filesystem/Partition.cc:131-234 | one call stores exactly its values for the sectors that it answered, and changes no other sector of any partition |
| CacheCalls.CallsRefine | source/filesystem/Partition.cc:131-234 | over every run of calls on any partitions each sector holds the value of the last call that wrote it, read off the calls and their replies alone |
| CacheCalls.ReadRefines | source/filesystem/Partition.cc:153-165 | a read after any run of calls returns those values, sector by sector, all of them or those before a failed write-back, whose error it then reports |
| CacheCalls.WriteRefines | source/filesystem/Partition.cc:223-234 | a write stores the sectors of its buffer in order from its first sector on, all of them or those before a failed write-back, whose error it reports; no other sector of any partition changes |
| CacheCalls.ReadsWriteNothing | source/filesystem/Partition.cc:80-165 | from a cache with no modified slot a run of calls that store nothing leaves the devices as they are and serves every transfer within bounds, whatever write-backs would do |
| CacheCalls.CallsOrder | source/filesystem/Partition.cc:82-128 | after every run of calls the list is the last five distinct blocks in order of last use, the uses read off the calls and their replies alone |
| CacheCalls.CallsMissExactly | source/filesystem/Partition.cc:86-97 | after every run of calls an access misses exactly when its block was never used or at least five other blocks were used since, the uses read off the calls and their replies alone |
| CacheCalls.CallsWriteExactly | source/filesystem/Partition.cc:99-105 | after every run of calls an access writes back, and fails, exactly if it misses and a call stored a value in the block in the last place since that was last fetched or flushed, as calls and replies tell it |
| PartitionCache.Cache.Initialize | source/filesystem/Partition.cc:69-77 | the list and the slots show an empty cache |
| PartitionCache.Cache.AccessSector | source/filesystem/Partition.cc:80-129 | the code in place, on linked list, slots and devices, does what the value-level access does |
| PartitionCache.Cache.FlushCache | source/filesystem/Partition.cc:131-144 | likewise for a flush |
| PartitionCache.Cache.ReadSectors | source/filesystem/Partition.cc:153-165 | likewise for a read of several sectors |
| PartitionCache.Cache.WriteSectors | source/filesystem/Partition.cc:223-234 | likewise for a write of several sectors |
| PartitionCache.WriteThenRead | source/filesystem/Partition.cc:153-234 | a caller of the code in place that writes a buffer and reads the same sectors gets it back, as far as both calls got |
| Wildcard.StrMatch | library/src/string.c:541-572 | the greedy loop with one restart point returns 1 exactly when the recursive meaning of `*` and `?` matches, for all strings, and terminates |
| Wildcard.StarMatchesAnyRun | library/src/string.c:541-572 | a pattern behind `*` matches exactly when it matches some rest of the string |
| Wildcard.PlainMatches | library/src/string.c:541-572 | a pattern without `*` matches exactly the strings of its length that agree with it but for `?` |
| Wildcard.MatchesConcat | library/src/string.c:541-572 | a pattern in two parts matches exactly the strings in two parts that match them |
| Crc32.TableCorrect | source/inc/crc32.c:12-55 | every literal table entry is eight bit steps with the polynomial from its index |
| Crc32.StepLinear | source/inc/crc32.c:93-98 | the bit step is linear over exclusive or |
| Crc32.Updc32IsSteps | source/inc/crc32.c:57 | one table update is eight bit steps, for every register and octet |
| Crc32.Crc32 | source/inc/crc32.c:65-75 | for all byte sequences the table-driven sum is the one that feeds the message bit by bit |
| Crc32.MakeCrcTable | source/inc/crc32.c:86-103 | the generator fills in the literal table |
| Crc32.UpdateCrc | source/inc/crc32.c:110-122 | updating by the generated table feeds the bits of the buffer |
| Crc32.Crc32ByUpdate | source/inc/crc32.c:125-127 | the second form computes the same sum as the first |
| Crc32.FeedInjective | source/inc/crc32.c:65-75 | different registers stay different under the same message |
| Crc32.BurstDetected | source/inc/crc32.c:65-75 | messages that differ only within 32 consecutive bits, anywhere, get different registers |
| Crc32.WindowDetected | source/inc/crc32.c:65-75 | messages of equal length that differ only within four consecutive bytes have different sums |
| Crc32.CrcOfNothing | source/inc/crc32.c:68-74 | the empty message sums up to 0 |
| Crc32.LeadingZeroCounts | source/inc/crc32.c:68-74 | a zero byte in front of any message changes its sum |
| Crc32.Residue | source/inc/crc32.c:68-74 | every message with its own sum behind it, lowest byte first, sums up to 0x2144df1c |
| Calendar.Time2Date | library/src/time.cc:10-132 | the fields are a valid Gregorian date whose seconds since 1601 are the rebiased input, with its day of the year and its weekday, exactly when the year fits its signed 32-bit field; hour, minute and second are those of the input in any case |
| Calendar.DivisionExact | library/src/time.cc:70-102 | the clamped divisions take exactly the days before the year they name, and leave less than that year |
| Calendar.ExactIffFits | library/src/time.cc:104-130 | a date spelt from its year, day and time is exact if and only if the seconds lie before the first year that does not fit |
| Calendar.ThirtyTwoBits | library/src/time.cc:60-63 | every 32-bit second count lies before the first that does not fit, so `Time2Date` is exact on it |
| Calendar.FindMonth | library/src/time.cc:118-126 | the search finds the month and day of every day of the year |
| Calendar.DaysBeforeYearClosed | library/src/time.cc:55-60 | counting years one by one agrees with the leap-year cycles |
| Calendar.WeekdayOfDays | library/src/time.cc:65 | counting days from Monday, 1 January 1601, agrees with the weekday congruence of the calendar |
| Calendar.DateOrder | library/src/time.cc:10-132 | dates are ordered field by field as their seconds are; the seconds determine the date |
| Calendar.EpochOfZero | library/src/time.cc:55-63 | zero seconds are Monday, 1 January 1900, 02:00 |
| UDivMod.UDivModDI4 | source/inc/libgccmath.cc:22-49 | quotient and remainder for all 64-bit operands, with no overflow on the way; a zero denominator gives 0 and stores no remainder |
| UDivMod.UDivDI3 | source/inc/libgccmath.cc:64-66 | the quotient alone |
| InetNtop.InetNtop6 | library/src/net.c:150-236 | the text of the address with its leftmost longest zero run left out, if it fits the caller's buffer with its terminator, and nothing otherwise; 46 bytes always suffice. The text reads as the address, is in the form of RFC 5952, and has dots exactly for addresses that stand for an IPv4 one |
| InetNtop.LongestRun | library/src/net.c:175-198 | the search finds the leftmost longest run of at least two zero groups, or that there is none |
| InetNtop.PutGroups | library/src/net.c:203-222 | the loop writes the text, embedded IPv4 form included |
| InetNtop.InetNtop4 | library/src/net.c:130-141 | the dotted text filled up with zeros if it is shorter than the buffer, and nothing otherwise |
| InetNtop.RoundTrip | library/src/net.c:203-226 | reading the text by RFC 4291, section 2.2, gives back all eight groups, whichever run is left out |
| InetNtop.TextCanonical | library/src/net.c:203-226 | the text has small hexadecimal digits, colons and dots only, and no leading zeros (sections 4.1 and 4.3 of RFC 5952) |
| InetNtop.TextShows | library/src/net.c:203-226 | what `::` leaves out is exactly the run: the groups before and behind it stand on its two sides |
| InetNtop.DotsExact | library/src/net.c:213-218 | the text has dots if and only if the first ten bytes are zero and the next two are zero before a group that is not, or both 255 |
| InetNtop.TextDetermines | library/src/net.c:150-236 | two addresses with the same text are the same sixteen bytes |
| InetNtop.BestUnique | library/src/net.c:175-198 | there is only one run that may be left out |
| DirectoryStream.Directory.ReadBytes | source/filesystem/Directory.cc:163-225 | the buffer holds whole records of the next entries in order, as many as leave a byte free, and the position moves by their number; behind them nothing but the padding's places changes |
| DirectoryStream.PaddingInside | source/filesystem/Directory.cc:193-199 | the padding stays inside the buffer if and only if no record was packed before it or it is empty |
| DirectoryStream.RecordRoundTrip | source/filesystem/Directory.cc:198-219 | reading a record of a name of up to 256 characters back gives the entry it was made from |
| DirectoryStream.RecordFields | source/filesystem/Directory.cc:202-216 | a written record holds, at the places of `Directory_Entry_t`, the id and kind of the resource and 16 zero bits, and for a kind with the bit of files its flags, size and date, for others zeros |
| DirectoryStream.RecordName | source/filesystem/Directory.cc:180-219 | then the size set aside for the name, and the name with its terminator |
| DirectoryStream.RecordShows | source/filesystem/Directory.cc:202-219 | what is read back of a record has each field of the resource in the field of that name |
| DirectoryStream.StepExact | source/filesystem/Directory.cc:185-201 | for every written record the reader's step leads to its end if and only if the name has at most 251 characters; otherwise it leads into the name |
| DirectoryStream.LongNameLeft | library/src/io.c:157-163 | behind a record with a longer name the reader stops if and only if the name's bytes 21 and 22 are both 0xff |
| DirectoryStream.LongNameMisread | library/src/io.c:158-160 | a directory of one resource on which the second call hands out an entry that is not in it |
| DirectoryStream.Reader.ReadDir | library/src/io.c:132-167 | whatever the buffer holds, the place that a call hands out, how far it moves, when it fills the buffer with which records, and when it starts over |
| DirectoryStream.Reader.ReadNext | library/src/io.c:132-167 | with names of at most 251 characters a call hands out the next entry of the directory, across refills, or null after the last |
| DirectoryStream.ReadAll | library/src/io.c:132-167 | any number of calls on an unchanged directory yields every entry once and in order, then the end, and so on |
| DirectoryStream.ListFresh | library/src/libexec/ps.cc:89-95 | the loop of the shell commands, from a fresh reader, lists exactly the directory, each entry with the fields of its resource |
| ParseArgs.ExtractNextArg | library/src/static.c:66-121 | takes out the next argument of the line, zeroes the spaces and quotes around it, and leaves the rest alone |
| ParseArgs.CountArgs | library/src/static.c:131-135 | the first pass counts the arguments and cuts the line up into them and the text behind them |
| ParseArgs.SecondExact | library/src/static.c:141-146 | the second pass finds exactly the arguments of the first if and only if none is empty |
| ParseArgs.SecondPassLeaves | library/src/static.c:141-146 | the second pass leaves the buffer if and only if there are more empty arguments than open quotes with text behind them |
| ParseArgs.EmptyOnly | library/src/static.c:141-146 | a line with one empty argument on which it does |
| ParseArgs.EmptyAndOpen | library/src/static.c:141-146 | a line with one empty argument for which it finds text that is no argument |
| ParseArgs.FindArgs | library/src/static.c:137-146 | the second pass computes that, inside the buffer |
| ParseArgs.ParseArgs | library/src/static.c:124-149 | on every line on which the second pass stays inside the buffer, the pointers are what it finds, with a null behind them; without empty arguments that is the arguments of the line in order, each a terminated string |
| ParseArgs.LineRoundTrip | library/src/static.c:58-65 | a line made of plain and quoted arguments, with any number of spaces around them, parses back into them, also in front of a quote that is never closed |
| ArrayList.ArrayList.AddTail | source/db/ArrayList.cc:60-70 | appends, or reports a full list and changes nothing |
| ArrayList.ArrayList.AddHead | source/db/ArrayList.cc:78-96 | prepends likewise |
| ArrayList.ArrayList.RemoveHead | source/db/ArrayList.cc:103-120 | takes the first item, null from an empty list |
| ArrayList.ArrayList.RemoveTail | source/db/ArrayList.cc:127-137 | takes the last item likewise |
| ArrayList.ArrayList.RemoveItemAt | source/db/ArrayList.cc:145-162 | takes exactly the item at a place out of the ring, null outside the list |
| ArrayList.ArrayList.RemoveItem | source/db/ArrayList.cc:205-212 | takes out the first occurrence of the item, or nothing |
| ArrayList.ArrayList.InsertItemAt | source/db/ArrayList.cc:169-188 | the exact list after an insertion, error codes included, and with a single free slot the overwritten head |
| ArrayList.InsertExact | source/db/ArrayList.cc:178-183 | the insertion is right exactly if two slots are free, the list is empty, or the free slot happens to hold the head |
| IdMap.IDMap.constructor | source/inc/Bitmap.hh:247-256 | stores the initial map, which has all ids and no others exactly as `InitialExact` says |
| IdMap.InitialExact | source/inc/Bitmap.hh:247-256 | the map starts with all its ids and no others if and only if the last word is not full or the over-wide shift gives 1 |
| IdMap.InitialWitness | source/inc/Bitmap.hh:247-256 | a map of 32 ids that starts with none of them, where the shift gives 0 |
| IdMap.IDMap.GetNextID | source/inc/Bitmap.hh:266-282 | returns and removes the smallest free id, -1 exactly if there is none |
| IdMap.IDMap.InvalidateID | source/inc/Bitmap.hh:292-298 | removes an id of the map from the free ones and touches no other |
| IdMap.IDMap.FreeID | source/inc/Bitmap.hh:309-315 | adds an id of the map to the free ones and touches no other |
| IdMap.HandedOutOnce | source/inc/Bitmap.hh:266-315 | in any run an id handed out twice was freed in between, and every id handed out is in range |
| IdMap.FreedIsFree | source/inc/Bitmap.hh:309-315 | in any run an id of the map that was freed, and not handed out or invalidated since, is free |
| IdMap.HandOutsCount | source/inc/Bitmap.hh:266-282 | hand-outs alone from a complete map give 0, 1, 2 and so on, and then -1 |
| BufferDevice.BufferDevice.WriteBytes | source/hal/BufferDevice.cc:95-129 | takes the bytes there is room for, in order behind those held, succeeds unless that is none, and wakes the waiting reader |
| BufferDevice.BufferDevice.BeginRead | source/hal/BufferDevice.cc:49-58 | a reader blocks exactly on an empty buffer |
| BufferDevice.BufferDevice.FinishRead | source/hal/BufferDevice.cc:60-88 | hands out the oldest bytes, as many as are asked for and there, and keeps the others in order |
| BufferDevice.RunFifo | source/hal/BufferDevice.cc:49-129 | over every run of reads and writes of any lengths, the bytes given out are a prefix of the bytes taken, and the rest is in the pipe |
| BufferDevice.ReadGives | source/hal/BufferDevice.cc:60-88 | after any run a read is given the next bytes that were taken in, as many as it asks for or as there are |
| BufferDevice.WriteTakes | source/hal/BufferDevice.cc:95-129 | after any run a write adds the first of its bytes, all of them or as many as there is room for |
| BufferDevice.NothingLost | source/hal/BufferDevice.cc:99-106 | a run loses no byte that was written if and only if each write finds room for all its bytes |
| Mutex.MutualExclusion | library/src/Mutex.cc:30-55 | in every reachable state of any number of threads at most one has the lock, and the counter is 1 exactly if none has |
| Mutex.StepSafe | library/src/stdlib.c:198-232 | every single step of either form keeps that: testing and setting, the later store, the release, the signal |
| Mutex.HandOver | library/src/Mutex.cc:30-55 | between two different threads' holding the lock the first one released it |
| Mutex.TryExact | library/src/Mutex.cc:30-46 | in every reachable state the next step of a thread that tries takes the lock if and only if no thread has it; otherwise the thread waits if it blocks, and else is done |
| Mutex.AcquireExact | library/src/Mutex.cc:30-46 | a call of acquire has the lock after its test if and only if no thread had it, and else waits exactly if it was asked to block |
| Mutex.ReleaseExact | library/src/Mutex.cc:48-55 | a release is safe if and only if no other thread has the lock |
| Random.StepInverse | library/src/random.c:10-15 | the step is a bijection on 128-bit states |
| Random.StepBits | library/src/random.c:10-15 | the recurrence bit by bit: which bits of the last number and of the oldest word make each bit of the next number (`Numbers.OnNumber`: they are the bits of the numbers that the words spell) |
| Random.SecondSeed | library/src/random.c:17-22 | the second word of a seeded state, bit by bit |
| Random.ThirdSeed | library/src/random.c:17-22 | the third word is the second plus 17, modulo 2^32 |
| Random.FourthSeed | library/src/random.c:17-22 | the fourth word, bit by bit |
| Random.PurelyPeriodic | library/src/random.c:10-15 | from every state on the states repeat from the first one, with a period of at most 2^128 |
| Random.NeverZero | library/src/random.c:10-15 | a state that is not zero never becomes zero |
| Random.Generator.SRand | library/src/random.c:17-22 | every seed gives a state that is not zero |
| Random.Generator.XorShift128 | library/src/random.c:10-15 | one call is one step and returns its last word |

## Left out

- The cache's results assume what its code needs: one block size for all partitions (the evicting partition's size is used
  for the victim, Partition.cc:101), a power of two where the code masks with it (`BlockCache.BlockByMask`); and
  block-rounded device ranges of different partitions that do not overlap. Buffers are sequences of whole sectors.
- CacheRuns.RunRefines: flushes that fail and device reads that fail are excluded from the runs. What one of them does is
  said exactly by `CacheRuns.FlushExact` and `BlockCache.FailedFetch`; the runs stop there, as users may then read wrong
  sectors.
- CacheCalls.CallsRefine: the same, and transfers whose bounds wrap around 32 bits, which `CacheRuns.InBoundsExact`
  is about.
- `Partition::clearBytes` and `Partition::~Partition`, which go past the cache.
- The spinlocks inside lists; the overloads of the linked list that allocate or delete items. The 8-bit `size` is in the
  list's invariant.
- Wildcard.StrMatch: strings are sequences without zero characters, and pointers are positions in them.
- InetNtop.InetNtop6: bytes are unsigned; where `char` is signed the shifts at net.c:174 would extend the sign.
- DirectoryStream.Directory.ReadBytes: names of more than 256 characters, which would run into the next record, and lengths
  close to 2^32. Of the padding of Directory.cc:194 the places in the buffer are modelled, not the bytes stored there; when
  a record was packed and a further one does not fit, as in every refill of `readdir` but the last, it goes on for up to as
  many bytes behind the caller's buffer as were packed, less one. The list of entries is a sequence.
- DirectoryStream.Reader.ReadNext: one directory at a time, as all directories share the static buffer, which does not
  change between calls; failing reads are left out, as a directory's read does not fail.
- ParseArgs.ParseArgs: lines on which the second pass leaves the buffer, of which `ParseArgs.SecondPassLeaves` says exactly
  which they are.
- IdMap.IDMap.FreeID: negative ids, for which the code indexes in front of its array; words have 32 bits.
- IdMap.IDMap.InvalidateID: negative ids likewise.
- BufferDevice.BufferDevice.WriteBytes: lengths that wrap around when added to the bytes held; short writes succeed
  without telling how much was taken, as in the code. The scheduler is not modelled: blocking and waking are results.
- Mutex: liveness and lost wake-ups; waiting is not atomic with the failed test, and only safety holds.
- Signed division, time zones, sockets, the FAT and USB code, system calls and drivers.
