# Verified cores of a small userspace

Dafny models of the algorithmic cores of a collection of small system tools and
the library under them, with proofs of what those cores are for.  Each core is
a module or a few; pointers are indices, system calls are parameters or a small
kernel model, and what the code updates in place is updated in place here.

- `Qsort`: the Bentley-McIlroy three-way quicksort that all indexes below use.
- `LzmaCoder`, `LzmaPackets`, `Lzma`: the LZMA decoder.  Its invariants hold on
  every input; a reference encoder, written as interval narrowing, gives the
  round trip.
- `Calendar`: seconds to date and back, two independent algorithms against one
  definition of the Gregorian calendar.
- `Gf256`, `AesTables`, `Fips197`, `Aes128`: AES-128 on words and in place, against
  the cipher and the key expansion of FIPS 197 on bytes, and its inverse for any
  key schedule.
- `KeyWrap`, `Xts`, `Scrypt`: key wrapping, XTS sectors written by one process or
  many, and the unrolled ROMix of scrypt.
- `PacIndex`, `PacTree`, `PacScan`, `PacCreate`, `PacExact`, `PacExtract`, `PacRoundTrip`:
  the archive writer, recursive over a tree, against the reader, iterative over
  a flat index.
- `CtoolIndex`, `CtoolList`, `CtoolRemove`, `CtoolPackage`, `PacAccepted`: the
  package tool's index check, file list and removal, alone and put together,
  and its agreement with the archive writer.
- `Depmod`: the name index, its binary search and the dependency closure.
- `Nlusctl`, `NetlinkRecv`: message buffers.
- `ApphubRing`, `Crc32`: an output ring and a table-driven checksum.
- `PathWalk`: how the kernel finds its way along a path.
- `Basics`, `Arith`, `Octets`: shared types, small arithmetic facts and numbers as
  bytes.

`dafny verify dfyconfig.toml` checks everything, with the options that file sets:
`--resource-limit 2000000 --verification-time-limit 0
--warn-contradictory-assumptions`.  The last one matters: without it the solver
needs more than the limit for some lemmas on bit-vectors.

Where the code falls short of what it is for, the model follows the code and
says exactly when it does what it promises:

- `tm2tv` divides negative years rounding towards zero, so dates before March of
  year 0 come out a day late unless their March year is a leap year
  (`Calendar.Tm2tv`, `Calendar.YearZero`).
- `tv2tm` adds three days in an `int` to find the weekday, which comes out wrong
  on the last three days an `int` can count (`Calendar.Tv2tm`, `Calendar.LastDay`).
- `put_link` writes a two-byte size high byte first and the reader expects the low
  byte first.  An archive that is made gives back its tree if and only if the
  tree is not empty, its index is under 16 MB and each link target is at most
  255 bytes long or has a length whose two bytes are equal
  (`PacRoundTrip.RoundTrip`, `PacRoundTrip.LongLink`).
- No archive is made of a tree with a file of 2^31 bytes or more or a link over
  4096 bytes, although both pass the first scan (`PacCreate.Create`); nor of one so
  large that the index of a directory lies 2^31 bytes or more into the heap, which
  is kept in 32 bits and taken as an `int` (`PacRoundTrip.FarIndex`).  Neither the
  heap nor the header estimate ever stands in the way of a tree whose index is
  under 16 MB (`PacCreate.SmallIsArchivable`).
- The counter of the key wrap has 32 bits where RFC 3394 has 64: the two agree
  exactly while 6n is below 2^32 (`KeyWrap.WrapIsRfc`).
- The size of the file list is passed on as an `int`: a list whose size, rounded
  up, is none is not written (`CtoolList.WriteFiledb`, `CtoolList.TooLong`).
- The remover stops at a plain file, or a name longer than the file system takes,
  where a line needs a directory; `rm` would go on with the next line
  (`CtoolRemove.Remover.UnlinkFiles`, `CtoolRemove.Stuck`, `CtoolRemove.LongStops`).
- Once more than 50 names are reachable, `depmod` can print a path again for every
  call its stack has room for (`Depmod.NeverEnds`); not if no chain of dependencies
  comes back to a name, when a stack for the longest chain is enough
  (`Depmod.ChainsEnd`, `Depmod.Top.ResolveModule`).

## Model

| member | source | states |
|---|---|---|
| `Qsort.Exch` | lib/util/qsort.c:19-25 | Exchanges two cells and keeps the range a permutation of what it was. |
| `Qsort.ScanLeft` | lib/util/qsort.c:40-105 | The left scan stops at the right pointer or on an element above the pivot; pivot-equal elements it meets are parked at the left end. |
| `Qsort.ScanRight` | lib/util/qsort.c:40-105 | The mirror image for the right scan. |
| `Qsort.Scan` | lib/util/qsort.c:40-105 | After both scans every cell is classified: equal run, smaller, one meeting cell, larger, equal run, pivot. |
| `Qsort.Fold` | lib/util/qsort.c:40-105 | The centring loops compute one fixed rearrangement of the range, also when a pair is exchanged twice. |
| `Qsort.LeftCentred` | lib/util/qsort.c:40-105 | That rearrangement moves a run of pivot-equal cells from the left end of a stretch to its right end, whichever of the two parts is longer. |
| `Qsort.RightCentred` | lib/util/qsort.c:40-105 | The same for the right end. |
| `Qsort.MeetingStaysEqual` | lib/util/qsort.c:40-105 | When the scans meet on a pivot-equal element, that element ends up in the part handed to the recursion, still equal to the pivot. |
| `Qsort.Centred` | lib/util/qsort.c:40-105 | From any picture the scans can leave, including a pivot-equal meeting cell, centring makes a three-way partition. |
| `Qsort.Partition` | lib/util/qsort.c:40-105 | The range ends up as not-above, equal, not-below the pivot, a permutation of itself, with both outer parts strictly shorter. |
| `Qsort.Sort2` | lib/util/qsort.c:109-116 | Two cells end up in order, as a permutation. |
| `Qsort.Sort3` | lib/util/qsort.c:118-130 | Three cells end up in order, as a permutation. |
| `Qsort.Network3` | lib/util/qsort.c:118-130 | The three compare-and-exchange steps sort any three values under any total preorder. |
| `Qsort.SortedAroundPivot` | lib/util/qsort.c:40-105 | Sorted outer parts around a pivot-equal middle make a sorted whole. |
| `Qsort.PartedIsAboutContents` | lib/util/qsort.c:40-105 | Permuting inside an outer part keeps a partition a partition, so the first recursive call does not spoil the second. |
| `Qsort.Sort` | lib/util/qsort.c:40-105 | Partition and the two recursive calls sort the range and permute it. |
| `Qsort.Srec` | lib/util/qsort.c:132-144 | Every range of any length ends up sorted and a permutation; cells outside are untouched. |
| `Qsort.Qsortx` | lib/util/qsort.c:146-152 | For every array and every comparator that is a total preorder: terminates, sorted, a permutation, later cells untouched. |
| `LzmaCoder.ProbabilityStays` | lib/lzma.c:239-259 | Each probability stays in 31..2017 whichever way it is adapted. |
| `LzmaCoder.SplitIsWide` | lib/lzma.c:230-259 | Either half of a split of a range of at least 2^24 is at least 2^16, so one normalisation restores 2^24. |
| `LzmaCoder.FollowStep` | lib/lzma.c:239-278 | If the input follows a list of decisions, the next comparison of code and bound picks the next decision and the rest of the input follows the rest. |
| `LzmaCoder.EncodeFollows` | lib/lzma.c:203-259 | Any byte string that begins with a point of the interval the decisions narrow to, read four bytes ahead, follows exactly those decisions, whatever comes behind. |
| `LzmaCoder.EncodingExists` | lib/lzma.c:203-259 | Every list of decisions has such a byte string. |
| `LzmaPackets.CopyBackIsPeriodic` | lib/lzma.c:389-397 | Copying n bytes from rep+1 back appends the periodic extension of the last rep+1 bytes, overlapping or not. |
| `LzmaPackets.SlotSpan` | lib/lzma.c:399-447 | The model cells a distance slot from 4 to 13 uses lie inside the array. |
| `LzmaPackets.SlotCellsAre` | lib/lzma.c:399-447 | The cells of a slot are the inner nodes of a tree of its size at its offset. |
| `LzmaPackets.SlotCellsDisjoint` | lib/lzma.c:399-447 | Different distance slots never share a model cell; with the frame of DecDistance, decoding one slot leaves the models of the others alone. |
| `LzmaPackets.SlotsTile` | lib/lzma.c:399-447 | The slots from 4 to 63 cover all distances from 4 up, without gap or overlap. |
| `LzmaPackets.EveryDistanceHasASlot` | lib/lzma.c:399-447 | Every 32-bit distance is the distance of some slot and extra bits. |
| `LzmaPackets.ReverseTwice` | lib/lzma.c:303-314 | Reversing the low n bits twice gives the number back. |
| `LzmaPackets.ReverseIsTree` | lib/lzma.c:303-314 | Decoding the bits low first, as a reverse tree, is decoding the reversed number through a tree. |
| `LzmaPackets.TreeOpsAt` | lib/lzma.c:290-301 | Decision k of a tree: the node is the number of its depth and of the bits above, the bit the next one, most significant first. |
| `LzmaPackets.ReverseOpsAt` | lib/lzma.c:303-314 | Decision k of a reverse tree is bit k, least significant first, and each node is twice the one before plus its bit. |
| `LzmaPackets.DirectOpsAt` | lib/lzma.c:261-278 | Equal-odds decisions are the bits, most significant first. |
| `LzmaPackets.MatchedOpsAt` | lib/lzma.c:316-345 | Decision k of a literal after a match: as long as the bits above agree with those of the other byte, its next bit chooses among two more trees. |
| `LzmaPackets.AfterLiteral` | lib/lzma.c:362-387 | The arithmetic on the state after a literal is the transition table of the format. |
| `LzmaPackets.ApplyAllGrows` | lib/lzma.c:473-516 | Performing packets only appends to the output, at least one byte and at most 273 for each. |
| `LzmaPackets.StreamFits` | lib/lzma.c:473-516 | Every decision an encoder makes for a list of packets uses an existing model. |
| `Lzma.Inflater.constructor` | lib/lzma.c:156-170 | A fresh decoder has even odds, 1024, everywhere, zero distances, and meets the invariant. |
| `Lzma.Inflater.PutByte` | lib/lzma.c:103-117 | Appends a byte and keeps posState equal to the bytes written modulo 4, or reports output overrun and writes nothing. |
| `Lzma.Inflater.GetByte` | lib/lzma.c:119-134 | The next input byte, or input overrun exactly at the end of the buffer. |
| `Lzma.Inflater.PeekBack` | lib/lzma.c:136-151 | The byte i+1 places back, or the invalid-reference error when there is none. |
| `Lzma.Inflater.CheckBuffers` | lib/lzma.c:172-228 | The first call reads exactly four bytes of code, most significant first, and starts with the full range; errors only for missing or exhausted buffers. |
| `Lzma.Inflater.ReadCode` | lib/lzma.c:203-228 | Four bytes, most significant first. |
| `Lzma.Inflater.Normalize` | lib/lzma.c:230-237 | One normalisation brings the range back to at least 2^24 and takes at most one byte. |
| `LzmaCoder.PartsOfInterval` | lib/lzma.c:239-278 | A decision divides the range in halves or in the proportion of the model, which moves a 32nd of the way towards the bit. |
| `Lzma.Inflater.DecBit` | lib/lzma.c:239-259 | On any input: the bit is 0 exactly when the code is below its share of the range, range and code are what that leaves, normalised, only the given model changes and moves a 32nd of the way towards the bit, and at most one byte is taken; on input that follows a decision, that decision comes out. |
| `Lzma.Inflater.DirectBit` | lib/lzma.c:261-278 | One equal-odds bit on any input: the range is halved, the bit is 0 exactly when the code is below the half. |
| `Lzma.Inflater.DecDirect` | lib/lzma.c:261-278 | Decodes limit equal-odds bits, at most one byte each, below 2^limit; code may equal range but the range stays at least 2^24. |
| `Lzma.Inflater.RangeCheck` | lib/lzma.c:280-288 | Sets the range error exactly when the index is outside. |
| `Lzma.Inflater.DecTree` | lib/lzma.c:290-301 | When the tree fits its array, every model index is inside and the range error cannot occur; only the inner nodes of the tree change; an encoded value is decoded. |
| `Lzma.Inflater.DecRtree` | lib/lzma.c:303-314 | The same for trees read low bit first. |
| `Lzma.Inflater.DecMatch` | lib/lzma.c:316-345 | A literal after a match: at most 8 bytes, all indices inside 0x300 cells, an encoded byte is decoded. |
| `Lzma.Inflater.DecLength` | lib/lzma.c:347-355 | Lengths below 272 in at most 10 bits; an encoded length is decoded. |
| `Lzma.Inflater.DecExtra` | lib/lzma.c:399-447 | The extra bits of a slot: only models of that slot, or the aligned ones, change; an encoded distance is decoded. |
| `Lzma.Inflater.DecDistance` | lib/lzma.c:399-447 | Slot and extra bits in at most 36 bits, a 32-bit distance in the span of the decoded slot; only models of one slot tree, of that slot and the aligned ones change; an encoded distance is decoded. |
| `Lzma.Inflater.DecLiteral` | lib/lzma.c:362-387 | Literal decoding with the model chosen by the previous byte and state, from the plain or the matched tree. |
| `Lzma.Inflater.InflateLiteral` | lib/lzma.c:362-387 | At most 8 bytes in and one out; the state becomes one of the literal ones; an encoded literal is performed. |
| `Lzma.Inflater.RepeatFromDict` | lib/lzma.c:389-397 | n bytes are appended, each a copy of the byte at the distance, up to the end of the buffer. |
| `Lzma.Inflater.CopyOut` | lib/lzma.c:389-397 | On any input the output grows by copying from the distance; without an error by exactly n bytes and from inside the output. |
| `Lzma.Inflater.InflateMatch` | lib/lzma.c:399-447 | At most 46 bits and 273 bytes; on any input what is appended repeats the decoded distance and the older distances move down; the range-check or end error only on the all-ones distance, end of stream exactly for length 2. |
| `Lzma.Inflater.InflateShortrep` | lib/lzma.c:449-454 | One byte repeated from the last distance; the state moves to 9 or 11. |
| `Lzma.Inflater.InflateLongrep` | lib/lzma.c:456-471 | Between 2 and 273 bytes repeated from one of the four last distances, which moves to the front; the state moves to 8 or 11. |
| `Lzma.Inflater.PickRep` | lib/lzma.c:456-471 | The chosen distance moves to the front, the others keep their order. |
| `Lzma.Inflater.DecKind` | lib/lzma.c:473-516 | The cascade of flag bits: at most five bits, and encoded flags are decoded. |
| `Lzma.Inflater.Decode` | lib/lzma.c:473-516 | Flag bits and body of one packet: at most 48 bits in and 273 bytes out on any input; without an error one literal byte, or the periodic extension of the output; a packet in the input is performed. |
| `Lzma.Inflater.Step` | lib/lzma.c:473-516 | One iteration on any input decodes at most 48 bits and writes 1 to 273 bytes or sets an error, keeping the invariant; an error-free match or repeat appends the periodic extension of the last rep+1 bytes, an error-free literal one byte; a packet in the input is performed, the end marker ends the stream. |
| `Lzma.Inflater.Run` | lib/lzma.c:473-516 | The loop terminates; with slack past the marks it overruns neither buffer; the error can be a range check only through an end marker whose length is not 2. |
| `Lzma.Inflater.Inflate` | lib/lzma.c:473-516 | On any input: returns, keeps the invariant, appends only, and a call that starts at or below both marks with 52 and 273 bytes of slack never reports an overrun; on an encoded stream it performs the packets, over any number of calls. |
| `Lzma.InflateEncoded` | lib/lzma.c:473-531 | Round trip: a fresh decoder turns any encoding of any valid packet list into the output those packets stand for and reports the end of the stream. |
| `Lzma.EveryStreamHasAnEncoding` | lib/lzma.c:473-531 | Every valid packet list has an encoding. |
| `Calendar.YearLength` | lib/time/tv2tm.c:43-96 | The closed form used for years is the sum of year lengths, anchored at 1970. |
| `Calendar.KnownDates` | lib/time/tv2tm.c:43-96 | The calendar, the days of the year and of the week agree with five known dates. |
| `Calendar.SplitCycle` | lib/time/tv2tm.c:43-96 | 400-year cycles rounding down, also for negative days. |
| `Calendar.SplitYear` | lib/time/tv2tm.c:43-96 | Days from March 2000 to a March year and the day in it; the 366th day exists only before a leap year. |
| `Calendar.SplitMonth` | lib/time/tv2tm.c:43-96 | Day of the March year to month and day. |
| `Calendar.SplitDate` | lib/time/tv2tm.c:43-96 | The result is a valid Gregorian date with the right day number and day of the year. |
| `Calendar.Tv2tm` | lib/time/tv2tm.c:43-96 | For every second whose day count fits an int: a valid date and time denoting that second, with the right day of the year; the weekday is right if and only if the day count plus three fits an int. |
| `Calendar.WeekShift` | lib/time/tv2tm.c:54-56 | A sum that wraps around moves the weekday, one that does not leaves it right. |
| `Calendar.LastDay` | lib/time/tv2tm.c:54-56 | The last day an int can count comes out with a wrong weekday. |
| `Calendar.LeapsAgree` | lib/time/tm2tv.c:13-39 | Counting leap years with divisions rounding towards zero is right exactly from year 0 on and in leap years before. |
| `Calendar.AddMonths` | lib/time/tm2tv.c:13-39 | Adds the days of the months before the given one. |
| `Calendar.Tm2tv` | lib/time/tm2tv.c:13-39 | Gives the second of the date if and only if the March year is 0 or later, or leap; otherwise exactly one day late. |
| `Calendar.DayNumberInjective` | lib/time/tm2tv.c:13-39 | Different valid dates have different day numbers. |
| `Calendar.SecondsInjective` | lib/time/tm2tv.c:13-39 | The second of a valid date determines all its fields. |
| `Calendar.SecondsThereAndBack` | lib/time/tm2tv.c:13-39 | Seconds survive tv2tm then tm2tv exactly under that condition, hence from year 1 on; the weekday in between under its own. |
| `Calendar.DateThereAndBack` | lib/time/tm2tv.c:13-39 | Valid dates survive tm2tv then tv2tm exactly under that condition, with weekday and day of the year filled in; otherwise they come back a day later. |
| `Calendar.YearZero` | lib/time/tm2tv.c:13-39 | The first of January of year 0 comes out one day late. |
| `AesTables.RboxUndoesSbox` | lib/crypto/aes128.c:15-52 | The inverse table undoes the forward one on every byte. |
| `AesTables.SboxUndoesRbox` | lib/crypto/aes128.c:15-52 | And the other way round. |
| `AesTables.SboxMeaning` | lib/crypto/aes128.c:15-32 | The forward table takes a byte to its inverse in GF(2^8), and sums bits i, i+4, i+5, i+6, i+7 of that and of 0x63: section 5.1.1 of FIPS 197. |
| `Aes128.XmulLoop` | lib/crypto/aes128.c:82-93 | The loop computes the sum of shifted products over the bits of the factor. |
| `Aes128.XmulIsProduct` | lib/crypto/aes128.c:77-93 | xmul is multiplication in GF(2^8), a carry-less product of eight bits reduced modulo x^8+x^4+x^3+x+1, by any factor below 32. |
| `Aes128.XmulLinear` | lib/crypto/aes128.c:82-93 | xmul distributes over exclusive or. |
| `Aes128.UnmixMix` | lib/crypto/aes128.c:154-174 | A row of the inverse matrix applied to a mixed column gives back the column. |
| `Aes128.MixUnmix` | lib/crypto/aes128.c:154-174 | And mixing undoes unmixing. |
| `Aes128.ShiftRowsInverse` | lib/crypto/aes128.c:105-132 | The two row shifts undo each other. |
| `Aes128.SubBytesInverse` | lib/crypto/aes128.c:142-152 | The two substitutions undo each other on whole states. |
| `Aes128.MixColumnsInverse` | lib/crypto/aes128.c:154-174 | The two column mixes undo each other on whole states. |
| `Aes128.Colmul` | lib/crypto/aes128.c:134-140 | The product of a column with one matrix row. |
| `Aes128.Context.KeyStep` | lib/crypto/aes128.c:95-99 | Adds the four words of a round key in place. |
| `Aes128.Context.FwdShiftRows` | lib/crypto/aes128.c:122-132 | The forward row shift in place. |
| `Aes128.Context.InvShiftRows` | lib/crypto/aes128.c:110-120 | The inverse row shift in place. |
| `Aes128.Context.FwdSubBytes` | lib/crypto/aes128.c:148-152 | Every byte of the state goes through the forward table, which is that of the standard (SboxMeaning). |
| `Aes128.Context.InvSubBytes` | lib/crypto/aes128.c:142-146 | Every byte goes through the inverse table, which undoes that of the standard. |
| `Aes128.Context.FwdMixColumns` | lib/crypto/aes128.c:165-174 | The forward column mix in place. |
| `Aes128.Context.InvMixColumns` | lib/crypto/aes128.c:154-163 | The inverse column mix in place. |
| `Aes128.DecryptEncrypt` | lib/crypto/aes128.c:226-268 | Decryption undoes encryption for every state and every schedule of 44 words. |
| `Aes128.EncryptDecrypt` | lib/crypto/aes128.c:226-268 | Encryption undoes decryption. |
| `Aes128.BlockRoundTrip` | lib/crypto/aes128.c:176-268 | Both directions on 16-byte blocks, through loading and saving. |
| `Aes128.TempBytes` | lib/crypto/aes128.c:205-224 | Word i of the schedule is, byte by byte, word i-4 plus the word before, which at every fourth step is rotated, goes through the table and takes a power of x. |
| `Aes128.RconIs` | lib/crypto/aes128.c:55-57 | The table of round constants holds the powers of x in GF(2^8). |
| `Aes128.Context.Init` | lib/crypto/aes128.c:205-224 | The schedule becomes the expansion of the key, section 5.2 of FIPS 197. |
| `Aes128.ShiftByte` | lib/crypto/aes128.c:105-132 | Byte r of output word c of the row shift is byte r of word c + r, modulo 4. |
| `Aes128.MixedBytes` | lib/crypto/aes128.c:134-174 | Byte r of a mixed word is the sum of field products of its bytes from r on with 2, 3, 1, 1. |
| `Aes128.EncryptIsCipher` | lib/crypto/aes128.c:248-268 | Working on words is the cipher of section 5.1 of FIPS 197 on sixteen bytes: nine rounds with the column mix and one without. |
| `Aes128.Context.EncryptInPlace` | lib/crypto/aes128.c:248-268 | The block in memory becomes its image under the cipher of section 5.1 of FIPS 197; the schedule is untouched. |
| `Aes128.Context.DecryptInPlace` | lib/crypto/aes128.c:226-246 | The block in memory becomes the one whose image it was; the schedule is untouched. |
| `KeyWrap.InPlaceIsShifting` | lib/crypto/aes128_wrap.c:27-38 | After every number of steps below 2^32, working in place is the shift register of section 2.2.1 of RFC 3394, which adds the step number as 64 bits, up to a rotation. |
| `KeyWrap.MaskAgrees` | lib/crypto/aes128_wrap.c:7-14 | The counter of the code is the 64-bit step number of the RFC exactly below 2^32. |
| `KeyWrap.Mask64Means` | lib/crypto/aes128_wrap.c:7-14 | The eight bytes the RFC adds, read most significant first, are the step number. |
| `KeyWrap.WrapIsRfc` | lib/crypto/aes128_wrap.c:7-38 | After six rounds the rotation is complete: the code computes the wrapping of the RFC, whatever the cipher, if and only if the last step number 6n is below 2^32, for every buffer whose length a 64-bit number can hold. |
| `KeyWrap.WrapWord` | lib/crypto/aes128_wrap.c:27-38 | One pass of the inner loop is one step: the cipher of the first word and word i, in that order, whose first half takes in the counter and whose second half becomes word i. |
| `KeyWrap.WrapInPlace` | lib/crypto/aes128_wrap.c:16-41 | The buffer becomes the result of 6n steps. |
| `KeyWrap.UnwrapWrap` | lib/crypto/aes128_unwrap.c:27-38 | Undoing any number of steps in reverse order gives back the words, for any cipher and its inverse. |
| `KeyWrap.WrapUnwrap` | lib/crypto/aes128_unwrap.c:27-38 | And wrapping undoes unwrapping. |
| `KeyWrap.UnwrapWord` | lib/crypto/aes128_unwrap.c:27-38 | One pass of the inner loop undoes one step. |
| `KeyWrap.UnwrapInPlace` | lib/crypto/aes128_unwrap.c:16-41 | The buffer becomes the result of undoing 6n steps. |
| `KeyWrap.WrapThenUnwrap` | lib/crypto/aes128_unwrap.c:16-41 | For every schedule and every buffer of at least two words, wrapping then unwrapping changes nothing. |
| `Xts.PrepTweak` | src/dcrypt/deitool.c:48-56 | The first tweak is the encryption of the sixteen bytes that stand for the sector number, low byte first. |
| `Xts.NextTweakInPlace` | src/dcrypt/deitool.c:58-69 | The byte loop computes the next tweak. |
| `Xts.NextTweakDoubles` | src/dcrypt/deitool.c:58-69 | That step is multiplication by x in GF(2^128), as in section 5.2 of IEEE 1619. |
| `Xts.BlkXor` | src/dcrypt/deitool.c:71-81 | Exclusive or of 16 bytes into a place, nothing else touched. |
| `Xts.OneBlock` | src/dcrypt/deitool.c:85-99 | One pass of the sector loop leaves the blocks still to come to the next tweak. |
| `Xts.BlocksUndone` | src/dcrypt/deitool.c:85-109 | Decrypting the blocks of a sector undoes encrypting them, from any first tweak. |
| `Xts.SectorImage` | src/dcrypt/deitool.c:85-99 | What is computed for a sector is the transformation of section 5.3 of IEEE 1619, block by block and byte by byte. |
| `Xts.AesXts` | src/dcrypt/deitool.c:85-99 | The output buffer holds the XTS image of the input: a first tweak that is the encrypted sector number, each next one the one before times x, and every byte masked, through the cipher, and masked again. |
| `Xts.SectorRoundTrip` | src/dcrypt/deitool.c:101-109 | Decrypting a sector undoes encrypting it under the same number, for all keys. |
| `Xts.PipeSingle` | src/dcrypt/deitool.c:111-129 | The single process runs aesxts on every whole sector, in order, and fails exactly on a last sector that is not whole. |
| `Xts.TurnKeeps` | src/dcrypt/deitool.c:131-156 | Any turn of any worker writes a sector of its own that was not written before, with the tweak of that sector. |
| `Xts.RunMoves` | src/dcrypt/deitool.c:131-156 | A worker moves on by n sectors a turn until it is done. |
| `Xts.WorkersAgreeWithSingle` | src/dcrypt/deitool.c:131-185 | For any number of workers and any interleaving: all are done exactly when each has had the turns its sectors need, and then each sector was written exactly once and the file is that of the single process. |
| `Scrypt.BlockMixInto` | lib/crypto/scrypt.c:98-112 | Two steps per turn, one to each half: even blocks then odd blocks, as scryptBlockMix in section 4 of RFC 7914. |
| `Scrypt.AndMask` | lib/crypto/scrypt.c:122-152 | Masking with N-1 is the remainder modulo N for powers of two. |
| `Scrypt.Low64Enough` | lib/crypto/scrypt.c:114-120 | Two words of the last block are enough to take the remainder of the whole number. |
| `Scrypt.FillTable` | lib/crypto/scrypt.c:122-152 | The first loop, with the two buffers taking turns, fills the table of scryptROMix. |
| `Scrypt.MixStep` | lib/crypto/scrypt.c:122-152 | A half-turn of the second loop is one step of the second loop of the RFC. |
| `Scrypt.MixTwice` | lib/crypto/scrypt.c:122-152 | A whole turn is two of them and ends in the first buffer again. |
| `Scrypt.SecondLoop` | lib/crypto/scrypt.c:122-152 | After all turns the first buffer holds X after N steps. |
| `Scrypt.RoMixUnfolds` | lib/crypto/scrypt.c:98-152 | scryptROMix unfolds to a table of n mixes and n steps that take in the entry picked by the two low words of the last block. |
| `Scrypt.SalsaMix` | lib/crypto/scrypt.c:122-152 | For every power of two from 2 on and every r whose table offsets fit an int, the block becomes its scryptROMix, sections 4 and 5 of RFC 7914, also as it unfolds step by step. |
| `Crc32.FoldsAreBitSteps` | src/kmod/common_zip.c:55-80 | Taking in the bits of a byte one at a time, or all at once before folding, is the same. |
| `Crc32.TableStep` | src/kmod/common_zip.c:55-80 | One byte through the table is eight bits of the bit-serial CRC. |
| `Crc32.MakeTable` | src/kmod/common_zip.c:55-80 | Every table entry is eight folds of its index. |
| `Crc32.CalcCrc` | src/kmod/common_zip.c:55-80 | On every byte string the result is the bit-by-bit CRC-32 of section 8 of RFC 1952. |
| `Crc32.PolyTerms` | src/kmod/common_zip.c:55-80 | The polynomial has the powers 26, 23, 22, 16, 12, 11, 10, 8, 7, 5, 4, 2, 1 and 0 besides 32. |
| `Crc32.CheckValue` | src/kmod/common_zip.c:55-80 | The CRC of the nine digits is the published check value. |
| `ApphubRing.PointerFolds` | src/apphub/apphub_proc.c:40-67 | The stored pointer determines the position in the ring and stays below 16384, whatever is added. |
| `ApphubRing.ReadInto` | src/apphub/apphub_proc.c:40-67 | The two stretches of a read fill the ring from the pointer on, wrapping round. |
| `ApphubRing.HoldsMore` | src/apphub/apphub_proc.c:40-67 | If the ring holds the last stretch of the stream before a read, it does after it. |
| `ApphubRing.Proc.PrepPipeBuf` | src/apphub/apphub_proc.c:19-38 | The ring is mapped on first use and kept afterwards. |
| `ApphubRing.Proc.HandlePipe` | src/apphub/apphub_proc.c:40-67 | A read extends the stream the ring stands for; a failed one changes nothing. |
| `ApphubRing.Proc.UnmapPipe` | src/apphub/apphub_proc.c:82-97 | A flush that takes effect starts an empty stream. |
| `ApphubRing.RingIsLast` | src/apphub/apphub_ctrl.c:289-320 | Either form of the reply is the last min(total, 8192) bytes of the stream. |
| `ApphubRing.Proc.Fetch` | src/apphub/apphub_ctrl.c:289-338 | The reply is exactly those bytes, in order. |
| `ApphubRing.RunAndFetch` | src/apphub/apphub_ctrl.c:289-338 | After any run of reads and flushes, with any failures, the reply is the last 8192 bytes since the last flush. |
| `NetlinkRecv.NrBuf.constructor` | lib/netlink/recv.c:10-16 | An empty buffer. |
| `NetlinkRecv.NrBuf.Recv` | lib/netlink/recv.c:18-34 | Received bytes are appended to the pending ones; without room or on a failed receive nothing changes. |
| `NetlinkRecv.NrBuf.Shift` | lib/netlink/recv.c:65-94 | Moving the pending bytes to the front, overlapping or not, keeps them. |
| `NetlinkRecv.NrBuf.Next` | lib/netlink/recv.c:65-94 | Returns the message at the front exactly when it is complete and drops it; otherwise the pending bytes stay and lie at the start of the buffer. |
| `NetlinkRecv.FrontMessage` | lib/netlink/cast_msg.c:4-19 | On pending bytes cut from a stream of well-formed messages, the front is complete exactly when all of the next message is there, and then it is that message. |
| `NetlinkRecv.DrainAll` | lib/netlink/recv.c:65-94 | Repeated calls return exactly the messages that have fully arrived. |
| `NetlinkRecv.ReceiveAll` | lib/netlink/recv.c:18-94 | However a stream of messages of 16 bytes up to the buffer size is chopped, the loop returns exactly its messages in order and never runs out of room. |
| `Nlusctl.UcBuf.PutHdr` | lib/nlusctl/pack.c:9-15 | A message of just its header. |
| `Nlusctl.WireFormat` | lib/nlusctl/pack_attr.c:12-45 | An attribute in bytes: length and key, low byte first, then the payload with zeros up to a multiple of four that the length leaves out, or the attributes inside. |
| `Nlusctl.UcBuf.Put` | lib/nlusctl/pack_attr.c:12-45 | Appends an attribute header and room, or marks the message overflowed; an overflowed message is not touched at all. |
| `Nlusctl.UcBuf.PutBin` | lib/nlusctl/pack_long.c:5-23 | Appends header, payload and zero padding, or overflows. |
| `Nlusctl.UcBuf.CopyPadded` | lib/nlusctl/pack_long.c:5-23 | Clearing the last word before the copy leaves payload and zeros. |
| `Nlusctl.UcBuf.PutNest` | lib/nlusctl/pack_nest.c:6-9 | Appends an empty nest or overflows. |
| `Nlusctl.UcBuf.EndNest` | lib/nlusctl/pack_nest.c:11-33 | Patches the nest length to reach the end of the message, unless the message overflowed; nothing else changes. |
| `Nlusctl.PutAttr` | lib/nlusctl/pack_nest.c:6-33 | Packing any nested attribute appends its encoding exactly when it fits the buffer and 64 KB, and marks overflow exactly otherwise. |
| `Nlusctl.PutAttrs` | lib/nlusctl/pack_nest.c:6-33 | The same for lists; on an overflowed message a no-op. |
| `Nlusctl.IovHdr` | lib/nlusctl/send_hdr.c:4-24 | Sends everything but the length field; fails exactly for overflowed messages and buffers without a header. |
| `Nlusctl.AttrIn` | lib/nlusctl/attr.c:4-19 | A returned attribute lies inside the buffer and ends by the limit. |
| `Nlusctl.GetFirst` | lib/nlusctl/attr.c:21-28 | The first attribute lies behind the header, inside the buffer. |
| `Nlusctl.GetNext` | lib/nlusctl/attr.c:30-46 | The next attribute starts at least four bytes on, inside the buffer, on any bytes. |
| `Nlusctl.WalkFrom` | lib/nlusctl/attr.c:21-46 | On any bytes the walk is finite, inside the buffer and strictly forward. |
| `Nlusctl.Get` | lib/nlusctl/attr.c:48-57 | On any bytes terminates with the first attribute of the key, or none exactly if the walk meets none. |
| `Nlusctl.WalkHeld` | lib/nlusctl/attr.c:21-46 | Walking over packed attributes meets exactly where each was put. |
| `Nlusctl.HeldShows` | lib/nlusctl/attr.c:21-57 | Any packed tree is read back as it was: keys, payloads, nesting, order. |
| `Nlusctl.ShowsOne` | lib/nlusctl/attr.c:21-57 | Two trees of one shape read from the same bytes are equal. |
| `Nlusctl.Receive` | lib/nlusctl/recv_msg.c:4-16 | The received message is the sent one with its length put back in front. |
| `Nlusctl.Exchange` | lib/nlusctl/send_hdr.c:4-24 | Pack, send, receive, walk: sending succeeds exactly when the tree fits, and the receiver reads back the same tree. |
| `Nlusctl.PutAfterOverflow` | lib/nlusctl/pack_attr.c:12-45 | After an overflow all further puts leave the buffer as it is and sending fails. |
| `Depmod.Eqstrnncmp` | src/kmod/depmod.c:139-156 | The loop computes dictionary order with underscores taken as dashes. |
| `Depmod.EqCmpZero` | src/kmod/depmod.c:134-156 | Names compare equal exactly when they are equal up to underscores and dashes. |
| `Depmod.EqCmpTransitive` | src/kmod/depmod.c:139-156 | The comparison is transitive. |
| `Depmod.ByNameOrder` | src/kmod/depmod.c:169-180 | The comparator of the name index is a total preorder. |
| `Depmod.Top.IndexModules` | src/kmod/depmod.c:182-206 | The name index is a sorted permutation of the modules. |
| `Depmod.FindInIff` | src/kmod/depmod.c:514-541 | From any interval the loop can reach, the search finds a module exactly when one with that stem exists. |
| `Depmod.FindIff` | src/kmod/depmod.c:514-541 | On a sorted index the search succeeds if and only if the name is, with dashes and underscores alike, what some file name has in front of its first dot, or all of it; it returns such a module. |
| `Depmod.StemLength` | src/kmod/depmod.c:208-215 | The loop stops at the first dot, or at the end. |
| `Depmod.NamesMeaning` | src/kmod/depmod.c:599-613 | The entries of a dependency list have commas between them, and one may be behind. |
| `Depmod.Top.FindIndexedModule` | src/kmod/depmod.c:514-541 | The loop is that search, and finds a module of that name exactly when there is one. |
| `Depmod.Top.SeenThisModule` | src/kmod/depmod.c:543-568 | Tells whether the name was seen, and records it while fewer than 50 are. |
| `Depmod.Top.TryResolveName` | src/kmod/depmod.c:572-597 | On any index, with any stack, the run is the depth-first visit of the name: table, output and complaints. |
| `Depmod.Top.TryResolveDeps` | src/kmod/depmod.c:599-613 | The same for all names of a dependency list. |
| `Depmod.VisitNamesKeeps` | src/kmod/depmod.c:543-613 | On any index, with any stack: all names taken up are reachable, those in the table are distinct and taken up once, and none is missing from the table before it is full. |
| `Depmod.VisitNamesShut` | src/kmod/depmod.c:572-613 | If the stack is enough, whatever the names lead to has been taken up. |
| `Depmod.VisitNamesEnd` | src/kmod/depmod.c:572-613 | If the table can hold all reachable names, nesting is bounded by what the table still lacks, and all names taken up are in it. |
| `Depmod.ChainsEnd` | src/kmod/depmod.c:572-613 | Chains of dependencies are bounded exactly when none comes back to a name, and then by the number of names. |
| `Depmod.VisitNamesShort` | src/kmod/depmod.c:572-613 | A stack for the longest chain is enough, however many names there are. |
| `Depmod.Endless` | src/kmod/depmod.c:543-613 | Once the table is full, a name that is not in it and depends on itself is taken up again for every call the stack has room for. |
| `Depmod.NeverEnds` | src/kmod/depmod.c:543-613 | An index with 51 reachable names on which no stack is enough. |
| `Depmod.TrailInside` | src/kmod/depmod.c:572-613 | No chain of dependencies leaves a set that contains the first names and is closed. |
| `Depmod.NoteAllMeans` | src/kmod/depmod.c:572-597 | The log of a list of names is one path for each that has a module, and complaints only before the first that has. |
| `Depmod.Top.ResolveModule` | src/kmod/depmod.c:615-628 | On any index the line has only paths of reachable names, and none in the table twice; if the stack is enough it has one for every reachable name with a module; if at most 50 names are reachable the stack needs no more calls than that, and no name is repeated; for any number of names it needs no more than the longest chain of dependencies. |
| `PacIndex.StrcmpMeans` | lib/string/strcmp.c:3-15 | On strings without zeros the sign is strict dictionary order, and zero means equal. |
| `CtoolIndex.Indexer.ParseSize` | src/ctool/ctool_lib_index.c:31-52 | One to four bytes, low byte first; fails exactly when truncated. |
| `CtoolIndex.Indexer.ParseName` | src/ctool/ctool_lib_index.c:54-70 | A zero-terminated name under 4096 bytes; fails only when there is none. |
| `PacIndex.NodeFormat` | src/ctool/ctool_lib_index.c:31-52 | An index entry in bytes: 128 plus a depth, or two low bits for the bytes of size that follow, low byte first; then the name and a zero. |
| `CtoolIndex.GoodNameMeans` | src/ctool/ctool_lib_index.c:93-104 | A fit name has 1 to 4095 bytes, no dot in front, no slash and no control character. |
| `CtoolIndex.Indexer.ValidateName` | src/ctool/ctool_lib_index.c:93-111 | Accepts exactly fit names that come after the remembered neighbour. |
| `PathWalk.StraightStays` | src/ctool/ctool_lib_index.c:86-104 | A path of names that are neither dots nor contain a slash leads, from any directory, down to itself and never out. |
| `CtoolIndex.GoodInside` | src/ctool/ctool_lib_index.c:86-104 | The path of every entry of an accepted index stays, as the kernel walks it, inside whatever directory it starts from. |
| `CtoolIndex.Indexer.EnterDir` | src/ctool/ctool_lib_index.c:116-131 | Pushes the directory; fails exactly at depth 8. |
| `CtoolIndex.Indexer.RewindPath` | src/ctool/ctool_lib_index.c:133-150 | Back to a shallower directory, whose last child becomes the neighbour; fails exactly when asked to go deeper. |
| `CtoolIndex.Indexer.TakeNode` | src/ctool/ctool_lib_index.c:163-191 | Keeps: entries so far encode the bytes read, all paths rise in tree order; an entry that may follow is taken. |
| `PacIndex.PathForward` | src/ctool/ctool_lib_index.c:116-150 | Going down, or to a later sibling at any level, moves forward in tree order. |
| `CtoolIndex.AddDir` | src/ctool/ctool_lib_index.c:93-150 | Comparing a directory with one neighbour keeps it after every earlier directory. |
| `CtoolIndex.AddLeaf` | src/ctool/ctool_lib_index.c:93-111 | Comparing a leaf with one neighbour keeps its full path apart from that of every earlier leaf. |
| `PacIndex.TextInjective` | src/ctool/ctool_lib_flist.c:66-82 | Different paths of slash-free names have different texts. |
| `CtoolIndex.OrderedApart` | src/ctool/ctool_lib_index.c:93-191 | Rising order keeps the texts of all directories and of all leaves pairwise distinct. |
| `CtoolIndex.IndexNodes` | src/ctool/ctool_lib_index.c:225-235 | Accepts exactly the encodings of admissible entry lists; every accepted index is less than eight deep, has pairwise distinct full directory paths and pairwise distinct full file paths, and no path that leads out of the directory it is unpacked in. |
| `CtoolList.SumPathLength` | src/ctool/ctool_lib_flist.c:84-92 | The sum of the lengths of the first levels. |
| `CtoolList.LensSum` | src/ctool/ctool_lib_flist.c:84-128 | For recorded lengths that is the length of the directory part of a line. |
| `CtoolList.FileListSize` | src/ctool/ctool_lib_flist.c:94-128 | The length of the listing in a 32-bit count; fails exactly on an index with a level out of place. |
| `CtoolList.Flist.Fmtstr` | src/ctool/ctool_lib_flist.c:66-82 | Appends as much as there is room for. |
| `CtoolList.Flist.AppendFile` | src/ctool/ctool_lib_flist.c:66-82 | Appends the full path and a newline. |
| `CtoolList.LineFormat` | src/ctool/ctool_lib_flist.c:66-82 | The listing in bytes: the names of each path with slashes between them and a line break after it. |
| `CtoolList.Flist.FormatEntries` | src/ctool/ctool_lib_flist.c:130-161 | Writes the listing, cut at the end of the buffer. |
| `CtoolList.WriteFiledb` | src/ctool/ctool_lib_flist.c:163-223 | The list is written exactly when its length, with the slack and rounded up for allocation, fits an int, and then it is the listing, whole. |
| `CtoolList.AllocEnough` | src/ctool/ctool.c:54-59 | The rounded int size moves the heap pointer by enough exactly when size plus three fits an int. |
| `CtoolList.TooLong` | src/ctool/ctool_lib_flist.c:94-128 | An admissible index of under half a megabyte whose list is too long to be written. |
| `CtoolRemove.StackPop` | src/ctool/ctool_remove.c:72-99 | Closing the top directory, and possibly removing it, keeps every other level right. |
| `CtoolRemove.Remover.BacktrackPath` | src/ctool/ctool_remove.c:72-99 | Pops to the given level; each directory left goes exactly when it is empty then and not at the top; opened minus closed stays the number of live levels. |
| `CtoolRemove.Remover.Matches` | src/ctool/ctool_remove.c:104-131 | Compares a stacked name with a component of the line. |
| `CtoolRemove.Remover.MatchDirs` | src/ctool/ctool_remove.c:104-131 | Finds the longest common beginning of the stack and the directory part of the line. |
| `CtoolRemove.Remover.SkipOpenDirs` | src/ctool/ctool_remove.c:104-131 | Leaves exactly that beginning on the stack; the directories left are those of the longest common beginning upwards. |
| `CtoolRemove.Remover.PushLevel` | src/ctool/ctool_remove.c:136-171 | Overwrites the slash and pushes the directory, or the skip mark for a missing one; fails exactly when the stack is full, a file is in its place, or its name is longer than the file system takes and looked up in a directory that is there. |
| `CtoolRemove.Remover.EnterNewDirs` | src/ctool/ctool_remove.c:136-171 | The stack becomes the directory part of the line; fails exactly when a plain file, or too long a name in a directory that is there, is on the way. |
| `CtoolRemove.Remover.UnlinkTail` | src/ctool/ctool_remove.c:182-201 | The file goes if it is there, also when its directory is marked missing, and nothing else goes. |
| `CtoolRemove.Remover.RemoveLine` | src/ctool/ctool_remove.c:173-201 | Goes back to the last directory in common, and then fails exactly when the line is blocked there; otherwise the stack is its directory part and the file is gone, and nothing else has changed. |
| `CtoolRemove.Remover.UnlinkFiles` | src/ctool/ctool_remove.c:203-225 | Removes exactly the listed files that are there, in list order, as one rm per line, up to the first line that meets a file, or too long a name, where it needs a directory; it goes through exactly when there is none, and then leaves no descriptor open and no empty directory below the top on the way to a listed file. Only directories on the way go. Where it stops, the files are as after rm of the lines before, and the open descriptors are the live levels. |
| `CtoolRemove.AfterFiles` | src/ctool/ctool_remove.c:203-225 | Whatever becomes of the directories, the files are those that one rm per line leaves. |
| `CtoolRemove.AfterSwept` | src/ctool/ctool_remove.c:72-99 | At any time the directories gone are on the way to a line and not at the top. |
| `CtoolRemove.AfterTidy` | src/ctool/ctool_remove.c:72-99 | At any time the directories on the way to a line that have been left are not empty, except at the top. |
| `CtoolRemove.LongStops` | src/ctool/ctool_remove.c:136-171 | A directory name longer than the file system takes stops the removal. |
| `CtoolRemove.Stuck` | src/ctool/ctool_remove.c:203-225 | A file in the way of the first line keeps the second, which rm would have removed. |
| `CtoolPackage.RemovedAll` | src/ctool/ctool_remove.c:203-225 | Removing distinct files that are all there removes each of them, in order. |
| `CtoolPackage.PresentClear` | src/ctool/ctool_remove.c:136-171 | Files that are all there never block one another, nor does the length of a name. |
| `CtoolPackage.LeavesListed` | src/ctool/ctool_lib_flist.c:130-161 | Every line of a listing of an accepted index is one the remover handles. |
| `CtoolPackage.LeavesDistinct` | src/ctool/ctool_lib_flist.c:130-161 | The lines of the listing of an accepted index are pairwise distinct. |
| `CtoolPackage.RemoveInstalled` | src/ctool/ctool_remove.c:203-225 | Index, list and removal together: an admissible index whose list is short enough gets its list, and an installed package loses exactly its files, each once, in index order, none of them outside the directory the package is in; of the directories on the way to them, below the top, none stays empty, and no others go. |
| `PacScan.CmpEntOrder` | src/mpac/mpac_create.c:29-43 | The comparator is a total preorder. |
| `PacScan.Scanner.IndexDir` | src/mpac/mpac_create.c:45-83 | A sorted permutation of the directory, behind what is on the heap; fails exactly when its size is no int. |
| `PacScan.SortedFilesFirst` | src/mpac/mpac_create.c:29-43 | In a sorted tree files come before directories everywhere. |
| `PacScan.Scanner.CheckDents` | src/mpac/mpac_create.c:85-144 | Fails exactly on oversized files and links and when the header estimate passes an int; the heap grows by one record for each entry. |
| `PacScan.Scanner.EnterDir` | src/mpac/mpac_create.c:146-190 | Scans one directory and records where its index lies; on a proper tree fails exactly for the reasons of the scan inside and for a place that is no 32-bit number. |
| `PacScan.Scanner.ProcessDir` | src/mpac/mpac_create.c:192-207 | All directories of a sorted index are scanned in order, each from where the heap then stands. |
| `PacScan.Scanner.ScanDirectory` | src/mpac/mpac_create.c:85-247 | The tree comes out rearranged with every directory sorted; on a proper tree fails exactly on oversized entries, nesting over 32, a header estimate of 2^31 or more, an index whose size is no int and one at a place that is no 32-bit number; tells exactly when all places fit an int. |
| `PacScan.InFront` | src/mpac/mpac_create.c:192-207 | The directories in front of one in the sorted index are those of smaller name, so the place of an index does not depend on the order in which entries were read. |
| `PacScan.FitsBelow` | src/mpac/mpac_create.c:146-161 | If everything on the heap lies below 2^31, every index does. |
| `PacScan.RearrangedHolds` | src/mpac/mpac_create.c:163-247 | Rearranging changes nothing about what is found at any path. |
| `PacCreate.RearrangedSize` | src/mpac/mpac_create.c:163-247 | Nor the length of the index. |
| `PacScan.RearrangedEvery` | src/mpac/mpac_create.c:163-247 | Nor what holds of every entry. |
| `PacCreate.EstimateCovers` | src/mpac/mpac_create.c:85-98 | The header estimate is at least the length of the index. |
| `PacCreate.Packer.PutFile` | src/mpac/mpac_create.c:316-344 | Writes the entry a reader finds: the size in one to four bytes, low byte first, through a signed int. |
| `PacCreate.Packer.PutLink` | src/mpac/mpac_create.c:295-314 | Writes the entry of a link, the two-byte size high byte first; fails exactly over 65535. |
| `PacCreate.Packer.PutDir` | src/mpac/mpac_create.c:278-293 | Writes the directory and all that is in it; fails exactly when the place of an index in it, taken as an int, is zero or negative. |
| `PacCreate.Packer.PutEntries` | src/mpac/mpac_create.c:346-362 | Writes the index of the tree; fails exactly when an index in it is not where an int can say. |
| `PacCreate.Packer.DumpContent` | src/mpac/mpac_create.c:364-451 | Writes the content in the order of the index; fails exactly when the tree has a link over a page or a file of 2^31 bytes or more. |
| `PacCreate.Packer.DumpSymlink` | src/mpac/mpac_create.c:364-382 | Appends the link target; fails exactly when it does not fit the one-page buffer. |
| `PacCreate.Packer.DumpBindata` | src/mpac/mpac_create.c:384-401 | Appends the file; fails exactly when its length is no int. |
| `PacCreate.LeafFormat` | src/mpac/mpac_create.c:295-344 | The entry of a leaf in bytes: 4 or 8 and one less than the bytes of the size, as few as will do, low byte first; or 12 and one byte, or 13 and two, high byte first; then the name and a zero. |
| `PacCreate.DirFormat` | src/mpac/mpac_create.c:278-293 | The entry of a directory in bytes: 128 plus its depth, the name and a zero, then all that is in it. |
| `PacCreate.ArchiveFormat` | src/mpac/mpac_create.c:453-489 | An archive in bytes: the letters PAC, one less than the bytes of the index size, that size, the index, the content. |
| `PacCreate.PutFileTag` | src/mpac/mpac_create.c:453-489 | The header with one to four bytes of index size. |
| `PacCreate.HeapBySize` | src/mpac/mpac_create.c:85-161 | A proper tree takes at most ten times as much heap as index, and twice as much of the header estimate. |
| `PacCreate.SmallIsArchivable` | src/mpac/mpac_create.c:146-161 | An index under 16 MB is always in reach. |
| `PacCreate.Create` | src/mpac/mpac_create.c:511-553 | For every proper tree: an archive is made exactly when nesting, header estimate, links and files are within their limits and every index lies where an int can say; it is header, index and content of a sorted rearrangement of the tree. |
| `PacTree.FileFaithful` | src/mpac/mpac_create.c:316-344 | A file size is read back exactly when it is below 2^31. |
| `PacTree.LinkFaithful` | src/mpac/mpac_create.c:295-314 | A link size is read back exactly when it is at most 255 or its two bytes are equal. |
| `PacTree.FsNameMeans` | src/mpac/mpac_create.c:209-247 | The names a directory can hold: not empty, neither dots, no slash, no zero. |
| `PacTree.FlatHolds` | src/mpac/mpac_create.c:346-362 | Spreading a tree out by full paths loses and adds nothing. |
| `PacExtract.ParseHeaderSize` | src/mpac/mpac_common.c:88-114 | Accepts exactly the magic with up to three size bytes. |
| `PacExtract.LoadIndex` | src/mpac/mpac_common.c:161-196 | Cuts the archive into header, index and content; fails exactly on what is not loadable. |
| `PacExtract.HeadRead` | src/mpac/mpac_common.c:161-196 | A written header is loadable exactly when the index is at least 3 bytes and under 16 MB, and then gives its length. |
| `PacExtract.Extractor.ParseSize` | src/mpac/mpac_common.c:116-138 | One to four bytes, low byte first; fails exactly when truncated. |
| `PacExtract.Extractor.ParseName` | src/mpac/mpac_common.c:140-159 | A terminated name that is neither dots nor has a slash, so that looking it up never leaves the directory; fails only when there is none. |
| `PacExtract.Extractor.NextEntry` | src/mpac/mpac_common.c:330-353 | An encoded entry is read as it was written. |
| `PacExtract.Extractor.RewindPath` | src/mpac/mpac_extract.c:139-156 | The current directory becomes the ancestor at that depth; fails exactly when asked to go deeper. |
| `PacExtract.Extractor.UnpackDir` | src/mpac/mpac_extract.c:158-182 | Goes back to the depth of the entry, makes the directory there or takes the one that is there, and goes in; fails exactly when that is too deep or something else has the name: what replaying the entry does. |
| `PacExtract.Extractor.UnpackLeaf` | src/mpac/mpac_extract.c:35-137 | Takes the content of the entry and makes a file of it, executable or not, or a link to what stands in front of its first zero, in place of what is there; fails exactly when a directory is, when content is missing, when its size is no int or when a link would be empty. |
| `PacExtract.Extractor.UnpackData` | src/mpac/mpac_extract.c:184-202 | On the encoding of any readable entries the stack-driven loop does what replaying them in order does. |
| `PacTree.RunTree` | src/mpac/mpac_extract.c:139-202 | Replaying the index of a tree with files first rebuilds that tree, at the right paths, and uses up exactly its content. |
| `PacExact.RunTook` | src/mpac/mpac_extract.c:139-202 | A replay that gets through took the recorded sizes, touched only the paths of the tree and left no leaf longer than recorded. |
| `PacExact.EnoughIsExact` | src/mpac/mpac_create.c:295-344 | If no recorded size is too small and together they do not exceed the content, all are right. |
| `PacExact.RunIff` | src/mpac/mpac_extract.c:139-202 | Replaying rebuilds exactly the tree if and only if every recorded size is the real one. |
| `PacRoundTrip.ExactIff` | src/mpac/mpac_create.c:295-344 | For trees whose content can be dumped, recorded sizes are real exactly when link targets fit one byte of size or have equal size bytes. |
| `PacRoundTrip.Extract` | src/mpac/mpac_extract.c:204-218 | Extraction of a well-formed archive is the replay of its entries over its content. |
| `PacRoundTrip.RoundTrip` | src/mpac/mpac_extract.c:204-218 | For every proper tree: when an archive is made, and that extracting it into an empty directory then shows the tree and nothing else if and only if the tree is not empty, the index is under 16 MB and the sizes of its links fit; hence that a tree comes back if and only if besides it is at most 32 deep and its links and files can be dumped. |
| `PacRoundTrip.FarIndex` | src/mpac/mpac_create.c:278-293 | A tree within every limit but one: an index 2^31 bytes or more into the heap, and no archive. |
| `PacRoundTrip.LongLink` | src/mpac/mpac_create.c:295-314 | A tree with a link of 256 bytes is archived and does not come back. |
| `PacAccepted.SortedStrict` | src/mpac/mpac_create.c:29-43 | In a sorted tree of distinct names, names rise strictly among files and among directories. |
| `PacAccepted.MadeIsAdmissible` | src/ctool/ctool_lib_index.c:93-191 | The index of such a tree, with package names and at most eight deep, passes every check of the package indexer. |
| `PacAccepted.IndexCreated` | src/ctool/ctool_lib_index.c:225-300 | What mpac creates, ctool accepts, with the entries that were written; when it creates anything is exact. |

## Left out

- System calls, sockets, polling, processes and memory mapping: a read gives some
  of what is there, a write appends, and a failure ends the run.  Descriptors in
  the archive reader are the directories they refer to; reads and `sendfile`
  transfer what was asked for when it is there.
- SHA-1, SHA-256, Salsa20/8 and PBKDF2 inside the ciphers: arbitrary functions here.
- Byte order of the host: multi-byte fields in memory are little-endian, as on the
  platforms the key-wrap mask and the message headers are written for.
- Qsort.Qsortx: the extra argument passed through to the comparator is part of the
  comparator, and pointer arithmetic is on indices.
- Lzma.Inflater.constructor: `lzma_create` clears only as many bytes as a pointer
  has; the model starts from cleared fields, as callers with zeroed memory do.
- Xts.PipeSingle: the file is in memory; the workers of `pipe_data_child` are a
  state machine whose turns may interleave in any way.
- Depmod.Top.ResolveModule: the stack is a number of nested calls there is room
  for; running out of it ends the program.  The `depends` entries are read from
  module files before resolution; scanning directories, aliases and the built-in
  list are parameters or not modelled.
- CtoolRemove.Remover.UnlinkFiles: stated for lists whose lines are paths of
  package names at most eight directories deep, as the list writer produces them;
  lines with dots, empty components or a missing last newline are not covered.
- CtoolRemove.Kernel: descriptors are numbered from 3 and never reused; nobody else
  changes the file system during the run; there are no symbolic links, which
  `openat` of a directory would follow.
- CtoolList.WriteFiledb: a buffer the heap has no room for ends the run; what the
  code does past the end of its heap is not modelled.
- PacScan.Scanner.ScanDirectory: pointers have eight bytes and the heap can grow as
  far as it has to; entries come one from each `getdents` record.
- PacCreate.Packer.PutDir: with a negative place the code reads in front of its
  heap; the model ends there without an archive.
- PacCreate.Create: names are as long as the kernel allows, so that the length of a
  directory entry fits its `short`.
- Xts.WorkersAgreeWithSingle: for files of whole sectors.
- Scrypt.SalsaMix: `scrypt_init` computes the size of the table in 32 bits; the
  model starts from a table that is large enough.
- Linux moves at most 0x7ffff000 bytes in one read, write or `sendfile`; transfers
  here are whole, so sizes between that and 2^31 are not refused.
- PacRoundTrip.Extract: into an empty directory; replacing existing files is in
  `PacExtract.Extractor.UnpackLeaf`.  Compressed archives, which go through a pipe
  and a transfer buffer, are not modelled.
- Nlusctl.UcBuf.Put: lengths are unbounded integers; the buffer is aligned.
- `uc_add_str`, `uc_put_tail`, `uc_put_str`, integer attributes and ancillary data.
- The package policy and configuration of `mpkg`, list parsing in `mpac pack`, link
  slots in `ifmon`, module insertion order in `modprobe`, terminal drawing, hardware
  listings, ELF printing, shell builtins and number formatting: mostly input and
  output, with nothing further to prove about them.
