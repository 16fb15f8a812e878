# A verified model of dacs7

dacs7 is a C# client and server library for Siemens S7 PLCs. This project models its most intricate parts in Dafny
and proves what they promise, for all inputs, all runs and all interleavings. Nothing was executed; the C# code was
read, not run.

## What is modelled

**Packing, cutting and reassembly of jobs** (`Packing`, `Generator`, `Coverage`, `PackingOrder`, `TelegramCounts`,
`AnyData`, `ReadPackages`, `WritePackages`, `Telegrams`, `Encoder`, `ReadJobs`, `WriteCodes`, `WriteMemory`,
`WriteOrder`, `WriteOrderExamples`, `WriteJobs`). `CreateReadPackages` and `CreateWritePackages` sort the items by
length, place them first-fit into telegrams of at most one PDU, cut items that are too long and yield telegrams as soon
as they are full. They are modelled as classes and methods with the loops, mutable packages and 16-bit counters of the
source, and are proved equal to the function `Generator.CreatePackages`; the properties are proved about that function.
`Plc` is the in-memory PLC; one whole read or write of an item on it is the meaning that packing, cutting, answering and
gluing must preserve. The constants are those of `SiemensPlcProtocolContext`. `Telegrams` and `Encoder` count the bytes
that the datagrams really have. A whole call takes a connection state and, job by job, what becomes of it on the
connection: answered, not sent, or not answered in time.

**Job correlation** (`ReferenceIds`, `Jobs`, `JobRuns`, `JobAnswers`). The reference counter, the job semaphore, the
handler dictionaries and the acknowledgements as interleaved steps of arbitrarily many jobs. A run is any sequence of
steps; a step that is not possible leaves the state as it is.

**The asynchronous auto-reset event** (`AutoResetEvent`, `EventRuns`). Its lock sections as methods of a class, and what
every interleaving of waits, sets, cancellations, completions and resets keeps. Every run behaves like an ideal event
that is defined on the list of steps alone.

**Alarm subscriptions** (`Alarms`, `AlarmRuns`). A concurrent queue and an auto-reset event used together.

**Tags** (`Numbers`, `Tags`, `LenientTags`, `TagRoundTrip`, `TagTexts`). The tag printer, the separator-driven parser
with and without exceptions, the spellings of areas and types, the right-to-left decimal loop in wrapping 32-bit
arithmetic, as compiled without `SPANSUPPORT`, and the item that is built from a tag.

**Block lists in fragments** (`Fragments`). The loop that reassembles a block list in a growing buffer, and its decoder.

## What the proofs found

Some expectations hold only under a condition. The exact condition is proved in each case.

- A read needs a PDU of at least 24 bytes, a write one of at least 28; with less every placement throws
  (`Generator.GeneratorSucceeds`).
- With a PDU of exactly 28 bytes the write loop never ends for a non-empty item that starts below 65536: it yields empty
  children for ever (`Generator.WriteSpins`). From 65536 on its first turn throws.
- The start of a write child is cut to 16 bits, so a cut write whose last child starts at 65536 or beyond throws
  (`Generator.GeneratorSucceeds`, predicate `Packable`).
- The check of the read side adds the size of the package before an item to the size with it, each the longer one of
  request and answer. So a telegram takes about half of what would fit: of ten one-byte reads at a PDU of 240 nine travel
  together (`TelegramCounts.TenReadsExample`). The number of items per telegram and of telegrams is proved in plain
  arithmetic for items of equal length, reads and writes (`TelegramCounts.EqualItems`, function `Capacity`).
- When a run throws, only full packages have been yielded; what was still open is lost (`Coverage.FullBeforeThrow`).
- The packages count elements, the wire carries bytes. Telegrams of single-byte items fit the PDU, the fill bytes of read
  answers included (`Telegrams.TelegramsFit`). The telegrams for one item fit if and only if its bytes, not only its
  elements, are at most the maximum length, or its elements are single bytes (`Telegrams.OneItemFits`); with a PDU of
  240 an accepted read is answered with 818 bytes and an accepted write sends 428 (`Telegrams.WideReadExample`,
  `Telegrams.WideWriteExample`). For a list that is not enough: two reads of 200 bytes each travel together and are
  answered with 422 bytes (`Telegrams.WideListExample`). All telegrams of a list fit when the bytes of all its items
  have room in one (`Telegrams.ListFits`), and when one telegram takes them all only then (`Telegrams.OneTelegramFits`).
- Cutting counts elements as well. A read throws exactly when an item with elements of several bytes is cut and its first
  or its last slice, counted in bytes, is in range (`ReadJobs.ReadRefines`, predicate `BufferTooSmall`). A write throws
  in the encoder exactly when such an item is cut (`WriteJobs.WriteAsync`, `Encoder.FirstUnsendable`).
- A cut write that runs beyond the end of its block still overwrites memory with those slices that are in range,
  although its code is OutOfRange (`WriteMemory.UncleanWriteLeaks`). Memory is nevertheless that of whole writes exactly
  when those slices find the item's data in place already (`WriteMemory.UncleanWriteIff`).
- Overlapping items of one call are not always written in request order. The memory is that of request order, whatever
  data the items carry, exactly when at every bit the item requested last also travels last (`WriteOrder.AnyDataIff`).
  - Of two items the longer one is placed first. Its last piece, unless it fills a telegram by itself, is overtaken by
    the full slices of the other one, and by the last piece of the other one when that fills a telegram and does not fit
    behind it; nothing else is overtaken (`PackingOrder.PairTravels`). Two items keep request order exactly when at
    every bit that both write the second one then travels last or the values agree (`WriteOrder.TwoItemsIff`); if
    neither is cut it travels last exactly when it is not longer (`WriteOrder.UncutPair`). The shorter item can win
    (`WriteOrderExamples.ShorterWinsExample`), and so can the tail of an item that is cut
    (`WriteOrderExamples.TailWinsExample`).
  - Items that have room in one telegram travel whole and in sorted order (`PackingOrder.SortedTravel`). They keep
    request order for all data exactly when no item overlaps a longer one requested later, except where an item requested
    later still is written as well (`WriteOrder.RoomForAllIff`). Without the exception the condition is sufficient
    (`WriteOrder.NoLongerLaterKeeps`) but not necessary (`WriteOrderExamples.ShieldedExample`).
  - In longer lists the longer item can win as well (`WriteOrderExamples.LongerWinsExample`), and even items of equal
    length can change their order (`WriteOrderExamples.EqualLengthsExample`).
- The item built from the printed tag of a request asks for the same bits exactly for bytes of data blocks, inputs, flags
  and outputs within the bounds of predicate `Portable` (`TagRoundTrip.RoundTrip`). A bit is printed as the byte of that
  number (`TagRoundTrip.BitExample`), and the tag of timers or counters asks for twice their bytes
  (`TagRoundTrip.TimerExample`).
- TryParseTag succeeds where ParseTag throws exactly when the first three segments are a tag and the fourth is no number,
  or is empty with more to follow; it then reads the first three (`LenientTags.OnlyTryParseTag`).
- TryParseTag gives the state TypeValidation for every malformed tag, whatever is wrong with it
  (`LenientTags.TryParseTagFails`).
- A fifth segment changes a tag exactly when its type is a bit and shifting the offset a second time changes the offset
  (`Tags.ExtraSegments`, `TagRoundTrip.ExtraSegmentExample`).
- An empty fragment after one with data sets the total length back to zero (`Fragments.ReadFragments`), and the decoder
  drops the last block of every list (`Fragments.LastBlockLost`).
- An acknowledgement is matched by its 16-bit reference alone. A job returns one that answers another job's request only
  if at least 65535 ids were drawn between the two (`JobAnswers.OwnAnswer`), and with exactly that many it can happen
  (`JobAnswers.LateAnswerExample`).

## How to read it

Functions describe, methods and classes with `modifies` clauses are the imperative code proved against them, lemmas
state the properties. `Rules(kind, pdu)` selects the read or the write side. `Flat(packages)` lists the pieces that
travel in order, and `Of(pieces, x)` those of item `x`. Exceptions are values of an outcome datatype. `dafny verify
dfyconfig.toml` checks the whole project.

## Model

| member | source | states |
|---|---|---|
| Plc.SetBitLaw | dacs7/src/Dacs7/Helper/Converter.cs:299-323 | setting a bit makes it the given value and keeps the other seven |
| Plc.BitsOfByte | dacs7/src/Dacs7/Helper/Converter.cs:299-323 | a byte is the sum of its bits, the lowest one first |
| Plc.StatusLaw | dacs7/src/Dacs7/DataProvider/SimulationPlcDataProvider.cs:80-172 | DataError exactly for an unregistered block; a bit request succeeds exactly when its bit and each further byte it asks for exist, a byte request when its bytes do; OutOfRange otherwise |
| Plc.ReadBit | dacs7/src/Dacs7/DataProvider/SimulationPlcDataProvider.cs:100-111 | every existing bit can be read alone under its bit number |
| Plc.WriteBit | dacs7/src/Dacs7/DataProvider/SimulationPlcDataProvider.cs:147-157 | every existing bit can be written alone, by one it is set and by any other value cleared, and no other bit changes |
| Plc.ReadBytes | dacs7/src/Dacs7/DataProvider/SimulationPlcDataProvider.cs:112-124 | a request for bytes that are there returns each of them |
| Plc.WriteBytes | dacs7/src/Dacs7/DataProvider/SimulationPlcDataProvider.cs:158-168 | a write of bytes that are there changes exactly these, each to its own data |
| Plc.WriteLaw | dacs7/src/Dacs7/DataProvider/SimulationPlcDataProvider.cs:129-172 | one write changes exactly the bits it covers, and none when it fails |
| Plc.MemoryLaw | dacs7/src/Dacs7/DataProvider/SimulationPlcDataProvider.cs:129-172 | after any list of writes every bit holds what the last successful write covering it put there |
| Plc.ReadLaw | dacs7/src/Dacs7/DataProvider/SimulationPlcDataProvider.cs:80-127 | a byte or bit read after any list of writes returns the last successful write covering it |
| Plc.SimulationPlcDataProvider.Register | dacs7/src/Dacs7/DataProvider/SimulationPlcDataProvider.cs:26-47 | a new block is added under its id, an existing one is kept, and no other block changes |
| Plc.SimulationPlcDataProvider.ReadAsync | dacs7/src/Dacs7/DataProvider/SimulationPlcDataProvider.cs:80-127 | the loop over the byte memory answers every request as the pure read does |
| Plc.SimulationPlcDataProvider.WriteAsync | dacs7/src/Dacs7/DataProvider/SimulationPlcDataProvider.cs:129-172 | the in-place loop leaves the memory of executing the requests in order and reports each one's status |
| Plc.SimulationPlcDataProvider.WriteExternal | dacs7/src/Dacs7/DataProvider/SimulationPlcDataProvider.cs:26-47 | a block lives in the memory the caller gives, and later writes show there |
| Packing.FilledFits | dacs7/src/Dacs7/Protocols/ReadPackage.cs:39-54 | the totals that a package keeps, one unit per element, stay within the PDU for request and response although the check compares the cumulative size with the space left; a write size stays even and exceeds an odd PDU by at most the padding byte |
| Telegrams.AnswersAtMost | dacs7/src/Dacs7/Protocols/SiemensPlc/Datagrams/S7ReadJobAckDatagram.cs:24-62 | no acknowledgement of a read is longer than the one in which every item succeeds |
| Telegrams.NarrowFits | dacs7/src/Dacs7/Protocols/ReadPackage.cs:39-54 | the telegrams of a package of single-byte items fit the PDU, with the fill bytes between the answers |
| Telegrams.TelegramsFit | dacs7/src/Dacs7/Protocols/ProtocolHandler.Read.cs:232-308 | all telegrams of a call for single-byte items fit the PDU |
| Telegrams.OneItemFits | dacs7/src/Dacs7/Protocols/SiemensPlc/Datagrams/S7DataItemSpecification.cs:78-81 | the telegrams of a call for one item fit if and only if its elements are single bytes or its bytes are at most the maximum length |
| Telegrams.ListFits | dacs7/src/Dacs7/Protocols/ProtocolHandler.Read.cs:232-308 | when the bytes of all items together have room in one telegram, the call throws nothing and all its telegrams fit |
| Telegrams.OneTelegramFits | dacs7/src/Dacs7/Protocols/ProtocolHandler.Read.cs:232-308 | when one telegram takes all items, it fits if and only if the bytes of all items together have room in it |
| Telegrams.WideListExample | dacs7/src/Dacs7/Protocols/ReadPackage.cs:39-54 | two reads of fifty elements of four bytes, each of which fits, travel in one telegram whose answer has 422 bytes |
| Telegrams.WideReadExample | dacs7/src/Dacs7/Protocols/SiemensPlc/Datagrams/S7DataItemSpecification.cs:78-81 | an accepted read of 200 elements of four bytes is answered with 818 bytes at a PDU of 240 |
| Telegrams.WideWriteExample | dacs7/src/Dacs7/Protocols/SiemensPlc/Datagrams/S7WriteJobDatagram.cs:63-66 | an accepted write of 100 elements of four bytes sends 428 bytes at a PDU of 240 |
| Packing.SlicesTile | dacs7/src/Dacs7/Protocols/ProtocolHandler.Read.cs:240-279 | an item's pieces cover its range in increasing order without gap or overlap, each within the maximum length |
| ReadPackages.ReadPackage.TryAdd | dacs7/src/Dacs7/Protocols/ReadPackage.cs:39-54 | for a package not yielded yet: accepts exactly when the cumulative telegram sizes leave room, and otherwise changes nothing |
| WritePackages.WritePackage.TryAdd | dacs7/src/Dacs7/Protocols/WritePackage.cs:40-57 | for a package not yielded yet: accepts exactly when the item fits behind the padded predecessors, and otherwise changes nothing |
| ReadPackages.ReadPackageIterator.SplitItem | dacs7/src/Dacs7/Protocols/ProtocolHandler.Read.cs:240-279 | the slicing loop over 16-bit counters and mutable packages does what the function Split says and ends |
| WritePackages.WritePackageIterator.SplitItem | dacs7/src/Dacs7/Protocols/ProtocolHandler.Write.cs:213-252 | the same for writes, with the 16-bit start of the child and the slicing of its data |
| ReadPackages.CreateReadPackages | dacs7/src/Dacs7/Protocols/ProtocolHandler.Read.cs:232-308 | the yielded packages are those of CreatePackages, pairwise distinct and all handled; a handled package is neither offered an item nor yielded again, which are preconditions of TryAdd and Return |
| WritePackages.CreateWritePackages | dacs7/src/Dacs7/Protocols/ProtocolHandler.Write.cs:205-281 | the same for write packages |
| Generator.SortedStably | dacs7/src/Dacs7/Protocols/ProtocolHandler.Read.cs:235 | the items are taken longest first, and items of one length in request order |
| Generator.Constants | dacs7/src/Dacs7/Protocols/SiemensPlc/SiemensPlcProtocolContext.cs:26-52 | what is at most the maximum length fits an empty package and a full slice fills it, exactly from the minimum PDU on |
| Generator.GeneratorSucceeds | dacs7/src/Dacs7/Protocols/ProtocolHandler.Write.cs:205-281 | the run ends without an exception if and only if every item can be packed |
| Generator.WriteSpins | dacs7/src/Dacs7/Protocols/ProtocolHandler.Write.cs:217-251 | with a PDU of 28 and a start below 65536 the write loop yields one empty child per turn and never advances |
| Coverage.NothingLostOrDuplicated | dacs7/src/Dacs7/Protocols/ProtocolHandler.Read.cs:232-308 | every requested item travels exactly once, whole or as its slices in order, nothing else travels, and every package is non-empty and within its limits |
| Coverage.PiecesGenuine | dacs7/src/Dacs7/Protocols/ProtocolHandler.Write.cs:205-281 | also what was yielded before an exception belongs to requested items and stays inside them |
| Coverage.FullBeforeThrow | dacs7/src/Dacs7/Protocols/ProtocolHandler.Write.cs:230-249 | before an exception only full packages have been yielded |
| PackingOrder.PlaceItemForm | dacs7/src/Dacs7/Protocols/ProtocolHandler.Write.cs:210-275 | placing an item yields its full slices at once and then places its last piece, or the whole item, first-fit |
| PackingOrder.PairTravels | dacs7/src/Dacs7/Protocols/ProtocolHandler.Write.cs:205-281 | the order of all pieces of a call for two items in closed form, cut or not |
| PackingOrder.PairPacked | dacs7/src/Dacs7/Protocols/ProtocolHandler.Write.cs:205-281 | the telegrams of a call for two items, in plain arithmetic over the PDU and the lengths of their last pieces |
| TelegramCounts.EqualItems | dacs7/src/Dacs7/Protocols/ReadPackage.cs:39-54 | items of equal length travel in request order, as many to a telegram as the closed form Capacity says, reads and writes, and their telegrams are as many as that takes |
| TelegramCounts.TenReadsExample | dacs7/src/Dacs7/Protocols/ReadPackage.cs:44-45 | ten one-byte reads at a PDU of 240 take telegrams of nine and one although request and answer of all ten would fit |
| PackingOrder.SortedTravel | dacs7/src/Dacs7/Protocols/ProtocolHandler.Write.cs:205-281 | writes that have room in one telegram travel whole and in sorted order |
| PackingOrder.OneTelegram | dacs7/src/Dacs7/Protocols/ProtocolHandler.Read.cs:232-308 | a call that takes one telegram cuts nothing and sends all items in sorted order |
| AnyData.SameTravel | dacs7/src/Dacs7/Protocols/ProtocolHandler.Write.cs:205-281 | with other data of the same lengths the same pieces travel in the same order |
| ReadJobs.MergeByItem | dacs7/src/Dacs7/Protocols/ProtocolHandler.Read.cs:152-184 | an item's result depends only on its own pieces in their order, however the telegrams interleave items |
| ReadJobs.GatherSlices | dacs7/src/Dacs7/Protocols/ProtocolHandler.Read.cs:152-184 | the slices of a single-byte item, glued together, have the code of the whole read, which is that of the tail slice, and its bytes on success |
| ReadJobs.GlueAny | dacs7/src/Dacs7/Protocols/ProtocolHandler.Read.cs:152-184 | whatever the PLC answers to the slices of an item, the result has their bytes in order, filled up with zeros, and the code of the last one |
| ReadJobs.GatherWide | dacs7/src/Dacs7/Protocols/ProtocolHandler.Read.cs:152-184 | gluing slices of a multi-byte item throws if and only if one of them is readable, else all report the failure of the whole |
| ReadJobs.BildResults | dacs7/src/Dacs7/Protocols/ProtocolHandler.Read.cs:152-184 | the loop over items and answers of a telegram updates the dictionary as Merge says |
| ReadJobs.SomeSliceReadable | dacs7/src/Dacs7/Protocols/ProtocolHandler.Read.cs:246-247 | some slice of a cut item is readable if and only if its block is registered and its first or its last slice is in range |
| ReadJobs.ReadRefines | dacs7/src/Dacs7/Protocols/ProtocolHandler.Read.cs:46-62 | packing, answering and gluing throws if and only if some buffer is too small, else every item has the code and the bytes of one whole read |
| ReadJobs.MergeThrows | dacs7/src/Dacs7/Protocols/ProtocolHandler.Read.cs:152-184 | merging any part of the pieces throws if and only if one of them is a readable child of an item with elements of several bytes |
| ReadJobs.BufferExample | dacs7/src/Dacs7/Protocols/ProtocolHandler.Read.cs:162-175 | reading 223 elements of two bytes at a PDU of 240 throws although all of them are there |
| ReadJobs.ReadAsync | dacs7/src/Dacs7/Protocols/ProtocolHandler.Read.cs:46-62 | each way in which a read call ends, also a lost connection, a failed send and a missing answer, has its exact condition, and a finished one returns every item's whole read |
| WriteJobs.BildResults | dacs7/src/Dacs7/Protocols/ProtocolHandler.Write.cs:158-181 | the loop over items and codes of a telegram updates the dictionary as Merge says |
| WriteCodes.MergeByItem | dacs7/src/Dacs7/Protocols/ProtocolHandler.Write.cs:158-179 | an item's code depends only on its own pieces in their order, however the telegrams interleave items |
| WriteCodes.GatherIsFirstFailure | dacs7/src/Dacs7/Protocols/ProtocolHandler.Write.cs:158-179 | a cut write ends with the first code in offset order that is not Success, or Success when there is none |
| WriteCodes.SlicesFail | dacs7/src/Dacs7/Protocols/ProtocolHandler.Write.cs:158-179 | that first failure is the code of the whole write |
| WriteCodes.SendableIff | dacs7/src/Dacs7/Domain/WriteItem.cs:92-98 | the children of an item carry the data they announce if and only if it is not a cut multi-byte item |
| WriteCodes.AllCodes | dacs7/src/Dacs7/Protocols/ProtocolHandler.Write.cs:158-179 | every item's code after all jobs is the code of its whole write |
| WriteMemory.CleanIff | dacs7/src/Dacs7/Protocols/ProtocolHandler.Write.cs:213-252 | a slice succeeds although the whole write fails exactly when the item is cut, not in range, and its first slice is |
| WriteMemory.WriteOrderIff | dacs7/src/Dacs7/Protocols/ProtocolHandler.Write.cs:205-281 | for all accepted items the memory is that of whole writes in request order if and only if every bit gets the same value from the item that hits it last and from the last one requested to hit it |
| WriteMemory.InOrderRefines | dacs7/src/Dacs7/Protocols/ProtocolHandler.Write.cs:205-281 | when overlapping pieces travel in request order the memory is that of whole writes in request order, whatever the data |
| WriteMemory.WriteRefines | dacs7/src/Dacs7/Protocols/ProtocolHandler.Write.cs:52-68 | for clean items that do not overlap, sorting, cutting and packing leave exactly the memory of whole writes in request order |
| WriteOrder.AnyDataIff | dacs7/src/Dacs7/Protocols/ProtocolHandler.Write.cs:52-68 | a call leaves the memory of whole writes in request order for every choice of data of the same lengths if and only if at every bit the item requested last also travels last |
| WriteOrder.TwoItemsIff | dacs7/src/Dacs7/Protocols/ProtocolHandler.Write.cs:205-281 | two clean items, cut or not, leave the memory of request order if and only if at every bit that both write the second one travels last by the closed form of PairTravels or the values agree, and for all data if and only if it travels last |
| WriteOrder.UncutPair | dacs7/src/Dacs7/Protocols/ProtocolHandler.Write.cs:208 | of two items that are not cut the second one travels last exactly when it is not longer |
| WriteOrder.RoomForAllIff | dacs7/src/Dacs7/Protocols/ProtocolHandler.Write.cs:208-261 | items that have room in one telegram leave the memory of request order for all data if and only if no item overlaps a longer one requested later, except where an item requested later still is written as well |
| WriteOrder.NoLongerLaterKeeps | dacs7/src/Dacs7/Protocols/ProtocolHandler.Write.cs:208-261 | it is enough that no item shares a bit with a longer one requested later, as is so for items of equal length |
| WriteOrderExamples.ShorterWinsExample | dacs7/src/Dacs7/Protocols/ProtocolHandler.Write.cs:208 | one byte and then two bytes at the same offset leave other memory than whole writes in request order |
| WriteOrderExamples.TailWinsExample | dacs7/src/Dacs7/Protocols/ProtocolHandler.Write.cs:213-252 | 222 bytes and then 212 bytes at PDU 240: the tail of the first item travels last and overwrites the second one |
| WriteOrderExamples.ShieldedExample | dacs7/src/Dacs7/Protocols/ProtocolHandler.Write.cs:208 | an item that is overtaken by a shorter one keeps all data safe when a third one covers both |
| WriteOrderExamples.LongerWinsExample | dacs7/src/Dacs7/Protocols/ProtocolHandler.Write.cs:210 | of three items the last one travels before a longer one that it overlaps, and the longer one wins |
| WriteOrderExamples.EqualLengthsExample | dacs7/src/Dacs7/Protocols/ProtocolHandler.Write.cs:264-280 | of two items of equal length the one requested last travels first, because its telegram fills up while the other's is open |
| WriteMemory.UncleanWriteLeaks | dacs7/src/Dacs7/Protocols/ProtocolHandler.Write.cs:213-252 | every slice in range of an unclean item puts its data although the code of the item is OutOfRange |
| WriteMemory.UncleanWriteIff | dacs7/src/Dacs7/Protocols/ProtocolHandler.Write.cs:213-252 | for items that do not overlap the memory is that of whole writes if and only if those slices find their data in place already |
| WriteMemory.UncleanExample | dacs7/src/Dacs7/Protocols/ProtocolHandler.Write.cs:213-252 | 230 bytes written to a block of 220 report OutOfRange and change memory |
| Encoder.ExactEncodes | dacs7/src/Dacs7/Protocols/SiemensPlc/Datagrams/S7WriteJobDatagram.cs:71-97 | items that bring as much data as they announce are laid out within the telegram |
| Encoder.BehindTheEnd | dacs7/src/Dacs7/Protocols/SiemensPlc/Datagrams/S7WriteJobDatagram.cs:86-94 | an item whose data would start where the telegram ends is copied exactly when it announces at most eight bytes |
| Encoder.FirstUnsendable | dacs7/src/Dacs7/Protocols/SiemensPlc/Datagrams/S7WriteJobDatagram.cs:71-97 | the first package that brings less than it announces is the first slice of a cut multi-byte item alone, and exactly then the encoder throws |
| WriteJobs.Translates | dacs7/src/Dacs7/Protocols/SiemensPlc/Datagrams/S7WriteJobDatagram.cs:86-94 | the encoder's loop over the items throws exactly when the layout has no room for what an item announces |
| WriteJobs.RunJobs | dacs7/src/Dacs7/Protocols/ProtocolHandler.Write.cs:60-66 | the jobs run one after the other up to the first that is not encoded, sent and answered, and leave the memory and the codes of the pieces before it |
| WriteJobs.WriteAsync | dacs7/src/Dacs7/Protocols/ProtocolHandler.Write.cs:52-68 | each way in which a write call ends has its exact condition and its memory; a finished one returns every item's code in request order and leaves the memory of whole writes exactly under the condition of WriteOrderIff |
| ReferenceIds.ReferenceCounter.GetNextReferenceId | dacs7/src/Dacs7/Protocols/ProtocolHandler.cs:43-51 | advances the 32-bit counter, recurses at most once and never returns zero |
| ReferenceIds.IncrementWraps | dacs7/src/Dacs7/Protocols/ProtocolHandler.cs:43-51 | counting is addition modulo 2^32 |
| ReferenceIds.IdsRunInACircle | dacs7/src/Dacs7/Protocols/ProtocolHandler.cs:43-51 | from any counter value the ids run round 1 to 65535, also across the 32-bit wrap-around |
| ReferenceIds.IdsAreDistinct | dacs7/src/Dacs7/Protocols/ProtocolHandler.cs:43-51 | any 65535 consecutive ids are non-zero and pairwise different, and the next one repeats the first |
| AutoResetEvent.RemoveFirstLaw | dacs7/src/Dacs7/Helper/InternalExtensions.cs:20-41 | only the first occurrence of the value is removed and the rest keeps its order |
| AutoResetEvent.RemoveMidQueue | dacs7/src/Dacs7/Helper/InternalExtensions.cs:20-41 | rotating the queue once around removes that occurrence in place and reports whether there was one |
| AutoResetEvent.AsyncAutoResetEvent.WaitAsync | dacs7/src/Dacs7/Helper/AsyncAutoResetEvent.cs:52-99 | takes a stored signal, returns at once when cancelled, or parks a fresh completion source at the end of the queue |
| AutoResetEvent.AsyncAutoResetEvent.OnCancelled | dacs7/src/Dacs7/Helper/AsyncAutoResetEvent.cs:73-85 | a cancelled waiter is removed and completed with the default only if it is still queued |
| AutoResetEvent.AsyncAutoResetEvent.Reset | dacs7/src/Dacs7/Helper/AsyncAutoResetEvent.cs:109-113 | clears the signal and its value and keeps the waiters |
| AutoResetEvent.AsyncAutoResetEvent.Set | dacs7/src/Dacs7/Helper/AsyncAutoResetEvent.cs:120-142 | hands the value to the first waiter, else stores one signal, else is rejected |
| EventRuns.EveryRunKeeps | dacs7/src/Dacs7/Helper/AsyncAutoResetEvent.cs:52-142 | in every run a signal excludes waiters, every successful Set is accounted for, and handed waiters followed by queued ones are the uncancelled waiters in arrival order |
| EventRuns.ServedInOrder | dacs7/src/Dacs7/Helper/AsyncAutoResetEvent.cs:120-142 | Set calls serve waiters in arrival order, each at most once |
| EventRuns.OneCompleter | dacs7/src/Dacs7/Helper/AsyncAutoResetEvent.cs:73-142 | a completed waiter was removed either by its cancellation, with the default, or by one Set, with its value |
| EventRuns.EveryRunBehaves | dacs7/src/Dacs7/Helper/AsyncAutoResetEvent.cs:52-142 | in every run the fields and the history are those of an ideal event defined on the steps alone: waiters in order, or one stored value |
| EventRuns.TakenSignal | dacs7/src/Dacs7/Helper/AsyncAutoResetEvent.cs:56-62 | a WaitAsync that finds a signal returns the value of the Set that stored it, unless it was cleared in between |
| EventRuns.RemovedCompletes | dacs7/src/Dacs7/Helper/AsyncAutoResetEvent.cs:80-141 | whoever was handed a value is completed with it, and whoever was cancelled with the default |
| Alarms.AlarmSubscription.TryGetDatagram | dacs7/src/Dacs7/Domain/AlarmSubscription.cs:22-25 | takes the oldest datagram, or none from an empty queue |
| Alarms.AlarmSubscription.AddDatagram | dacs7/src/Dacs7/Domain/AlarmSubscription.cs:27-31 | appends the datagram and sets the event |
| AlarmRuns.EveryRunKeeps | dacs7/src/Dacs7/Protocols/ProtocolHandler.Alarms.cs:284-301 | the receiver is queued in the event exactly while parked, and a datagram it may sleep on is announced |
| AlarmRuns.NoLostWakeUp | dacs7/src/Dacs7/Protocols/ProtocolHandler.Alarms.cs:284-301 | in every interleaving a receiver parked on a non-empty queue has a producer between its enqueue and its Set |
| AlarmRuns.PendingSetWakes | dacs7/src/Dacs7/Protocols/ProtocolHandler.Alarms.cs:284-301 | after that Set, whatever steps follow, the receiver is not parked again before it has returned the oldest datagram |
| AlarmRuns.AlarmsConserved | dacs7/src/Dacs7/Domain/AlarmSubscription.cs:22-31 | in every run datagrams returned followed by those queued are the datagrams of the Enqueue steps, in order |
| AlarmRuns.ReturnsOnlyBy | dacs7/src/Dacs7/Protocols/ProtocolHandler.Alarms.cs:284-301 | a call returns the oldest datagram, or none and only from the second try on an empty queue |
| AlarmRuns.ReceivesLater | dacs7/src/Dacs7/Protocols/ProtocolHandler.Alarms.cs:284-301 | a call that finds no datagram is parked and returns the one that arrives then |
| AlarmRuns.WokenOtherwise | dacs7/src/Dacs7/Protocols/ProtocolHandler.Alarms.cs:284-301 | a cancellation and the end of alarm handling wake a parked call as well |
| JobRuns.EveryRunKeeps | dacs7/src/Dacs7/Protocols/ProtocolHandler.Read.cs:65-130 | every run of concurrent jobs keeps events, handlers, history and permits consistent |
| JobRuns.Correlated | dacs7/src/Dacs7/Protocols/ProtocolHandler.Read.cs:82-109 | a result that a job returns came with an acknowledgement of its kind and id whose lookup found this job's own handler |
| JobAnswers.OwnAnswer | dacs7/src/Dacs7/Protocols/ProtocolHandler.Read.cs:82-109 | a job returns the answer to another job's request only if at least 65535 ids were drawn between the two |
| JobRuns.LookupsHappened | dacs7/src/Dacs7/Protocols/ProtocolHandler.Read.cs:187-205 | an acknowledgement is looked up for a job exactly when it arrives while that job has a handler under its kind and id |
| JobRuns.LookupDelivers | dacs7/src/Dacs7/Protocols/ProtocolHandler.Read.cs:187-205 | it is then delivered to that job |
| JobRuns.FirstDeliveryDecides | dacs7/src/Dacs7/Protocols/ProtocolHandler.Read.cs:82-109 | whatever happens afterwards, a job whose request is sent gets what is delivered to it first, also before it enters the wait |
| JobRuns.EarlyAnswerReturned | dacs7/src/Dacs7/Protocols/ProtocolHandler.Read.cs:90-102 | an acknowledgement delivered between the send and the wait is what the job returns |
| JobRuns.EveryJobCanReturn | dacs7/src/Dacs7/Protocols/ProtocolHandler.Read.cs:82-109 | with at least one permit there is no deadlock: from every reachable state every job can still return |
| JobAnswers.LateAnswerExample | dacs7/src/Dacs7/Protocols/ProtocolHandler.Read.cs:187-191 | a run in which that happens after exactly 65535 draws |
| JobRuns.PermitBound | dacs7/src/Dacs7/Protocols/ProtocolHandler.Write.cs:89-115 | free permits and live guards, also those of alarm and metadata jobs, add up to MaxAmQCalling, and handlers never outnumber the guards of read and write jobs |
| JobRuns.OwnHandler | dacs7/src/Dacs7/Protocols/ProtocolHandler.Read.cs:84-108 | a key maps to a job if and only if that job is between adding and removing its handler under that key |
| JobRuns.OnlyOwnRemoved | dacs7/src/Dacs7/Protocols/ProtocolHandler.Write.cs:92-113 | no step but the removal by its own job takes a handler away or overwrites it, also when ids clash |
| JobRuns.NothingLeaks | dacs7/src/Dacs7/Helper/SemaphoreGuard.cs:23-50 | once all jobs have returned, all permits are free and no handler is left |
| Numbers.TryParseSpanToNumber | dacs7/src/Dacs7/Domain/TagParser.cs:403-422 | succeeds exactly on digits and returns their value modulo 2^32, although sum and multiplier wrap around |
| Numbers.PrintedNumber | dacs7/src/Dacs7/Domain/RequestItem.cs:79 | exactly the non-negative numbers are read back, as what was printed |
| Tags.ParseTag | dacs7/src/Dacs7/Domain/TagParser.cs:149-195 | the loop over the characters computes the specification Parsed, exceptions included |
| Tags.ParseTagMeaning | dacs7/src/Dacs7/Domain/TagParser.cs:149-284 | for every string the state machine gives exactly the meaning of its separated segments: area, offset, type, optional length |
| Tags.ExtraSegments | dacs7/src/Dacs7/Domain/TagParser.cs:161-174 | from the fifth segment on a tag means the same as its first four if and only if it is no bit or the second shift gives the offset back |
| LenientTags.TryParseTagMeaning | dacs7/src/Dacs7/Domain/TagParser.cs:67-71 | for every string TryParseTag gives the meaning of its segments, with a bad length and all behind it ignored, and reports no success otherwise |
| LenientTags.OnlyTryParseTag | dacs7/src/Dacs7/Domain/TagParser.cs:185-195 | TryParseTag succeeds where ParseTag throws if and only if the first three segments are a tag and the length is bad; where ParseTag succeeds both agree |
| LenientTags.TryParseTagFails | dacs7/src/Dacs7/Domain/TagParser.cs:182-200 | the error state of a tag that TryParseTag rejects is always TypeValidation |
| TagTexts.LowerLaw | dacs7/src/Dacs7/Domain/TagParser.cs:156 | upper-case letters become lower-case ones and all other characters stay |
| TagTexts.TrimLaw | dacs7/src/Dacs7/Domain/TagParser.cs:152 | white space around a text is cut off, nothing else |
| TagTexts.AreasSpelled | dacs7/src/Dacs7/Domain/TagParser.cs:73-144 | an area is detected exactly by one of its names, English, German or old, in any letter case, or by db and a number other than zero |
| TagTexts.TypesSpelled | dacs7/src/Dacs7/Domain/TagParser.cs:286-364 | a type is detected exactly by one of its names, with the array flag and the offset that go with it |
| TagTexts.FourPartTag | dacs7/src/Dacs7/Domain/TagParser.cs:149-195 | a tag of area, offset, type and length is parsed to a result if and only if its parts are spelled so, with either separator, in any letter case and with white space around it |
| TagTexts.ThreePartTag | dacs7/src/Dacs7/Domain/TagParser.cs:149-195 | the same without a length, which is then one |
| TagTexts.TagAsksFor | dacs7/src/Dacs7/Domain/ReadItem.cs:57-215 | the item built from a tag asks for one bit, or for its elements times the width of its type, from the offset on |
| TagTexts.ShortExample | dacs7/src/Dacs7/Domain/TagParser.cs:318-334 | I.1,i,1 is a short and e.1,W,3 an array of ushort |
| TagRoundTrip.AreaRoundTrip | dacs7/src/Dacs7/Domain/TagParser.cs:73-144 | the printed area is detected again, except for data block zero |
| TagRoundTrip.PrintedFields | dacs7/src/Dacs7/Domain/RequestItem.cs:41-80 | what the parser makes of every printed tag: the fields of the request, or which exception |
| TagRoundTrip.RoundTrip | dacs7/src/Dacs7/Domain/RequestItem.cs:41-80 | the item built from the printed tag asks for the same bits if and only if the request is for bytes of a data block, inputs, flags or outputs with a number, an offset and a byte length that a tag can say |
| TagRoundTrip.BitExample | dacs7/src/Dacs7/DataProvider/RelayPlcDataProvider.cs:28 | the tag of bit 5 of byte 1 asks for byte 13 |
| TagRoundTrip.TimerExample | dacs7/src/Dacs7/Domain/ReadItem.cs:174-179 | the tag of two timers asks for eight bytes instead of four |
| TagRoundTrip.ExtraSegmentExample | dacs7/src/Dacs7/Domain/TagParser.cs:353-363 | i.1,x3,1 is bit 11 and i.1,x3,1,2 is bit 91 |
| Fragments.ReadFragments | dacs7/src/Dacs7/Protocols/ProtocolHandler.Metadata.cs:191-253 | the growing buffer holds all fragments in order unless an empty fragment follows one with data, and never then |
| Fragments.TranslateFromSslData | dacs7/src/Dacs7/Protocols/SiemensPlc/Datagrams/S7PlcBlocksOfTypeAckDatagram.cs:29-50 | the decoding loop returns (size - 1) / 4 blocks, each made of its own four bytes |
| Fragments.LastBlockLost | dacs7/src/Dacs7/Protocols/SiemensPlc/Datagrams/S7PlcBlocksOfTypeAckDatagram.cs:34 | decoding an encoded list returns all blocks but the last one |
| Fragments.ReadBlocksOfTypesAsync | dacs7/src/Dacs7/Protocols/ProtocolHandler.Metadata.cs:175-263 | a list that arrives completely, with no empty fragment after data, is decoded from all its bytes in order; a lost connection, a failed send and a missing answer give the exception or null of the source |

## Left out

- WriteJobs.WriteAsync: requires items as their creation checks them, and a run that terminates; the others never end (`WriteSpins`).
- WriteJobs.RunJobs: requires the same.
- WritePackages.CreateWritePackages: requires the same.
- WritePackages.WritePackageIterator.SplitItem: requires the same.
- WriteOrder.TwoItemsIff: for clean items; for others the conditions are `WriteMemory.WriteOrderIff` and `WriteOrder.AnyDataIff`.
- WriteOrder.RoomForAllIff: lists that need more than one telegram have no closed form beyond two items; the exact condition for them is `WriteOrder.AnyDataIff`.
- WriteMemory.InOrderRefines: sufficient only; the exact condition is `WriteOrder.AnyDataIff`.
- Telegrams.ListFits: sufficient only; it is exact when one telegram takes all items (`OneTelegramFits`).
- AlarmRuns.NoLostWakeUp: one subscription with one receiver; the fan-out of an indication to several subscriptions repeats it.
- EventRuns.EveryRunKeeps: a token that is cancelled between the check and the registration, so that its callback runs inside the lock section before the enqueue, is not modelled. `Reset` takes no lock; a `Reset` between the test of the signal and the assignments in a lock section is not a run of the model, and there one signal would count both as consumed and as dropped.
- JobRuns.PermitBound: alarm and metadata jobs are steps that take and release a permit and draw ids; their own dictionaries are not modelled.
- Tags.ParseTag: lower case is that of the letters A to Z only; PlcEncoding is left out, it is Windows1252 whenever parsing succeeds.
- Fragments.ReadFragments: the memory pool is a monotone function from requested to rented size.
- Plc.SimulationPlcDataProvider.Register: the nested dictionaries by area and by block number are one map; memory given by the caller is at least as long as the registered length and not given for two blocks.
- Plc.SimulationPlcDataProvider.ReadAsync: offsets are not negative, as on the wire; a bit request for no item at all is left out, it indexes behind the block when it ends there.
- Plc.SimulationPlcDataProvider.WriteAsync: the same, and requests bring the data they announce; the provider throws on others.
- The wire: sockets, reconnects, TPKT and COTP framing, 24-bit addresses, the 8-bit item count, the 16-bit length fields and what happens when they wrap, so items and answers travel unchanged; transport sizes and lengths in results.
- Offsets near 2^31; string and Unicode items, whose byte counts differ from their item counts.
- Which exception a missing answer becomes, replacement of the semaphore after renegotiation, disposal, `Release` and `ReleaseAll`.
- Pending-alarm parsing, enabling and disabling of alarm updates, block info and other user data.
- The `SPANSUPPORT` build of the tag parser, whose number parsing is that of the runtime.
- The relay provider beyond the tags it sends, value conversion, reflection on types, logging, the command line and benchmarks.
