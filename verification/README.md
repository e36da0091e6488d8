# log2mem in Dafny: a verified model

log2mem logs from many threads into a circular buffer of rows kept in one memory-mapped region; a
separate utility decodes the region into text. This project models the library and the utility, and
proves what a user relies on: whatever the threads' interleaving, however often the 32-bit row counter
has wrapped and whatever stale bytes a reused row still holds, the utility lists the live rows, each
with exactly the values that its own calls logged.

The arithmetic is the source's: 32-bit wrap of the row counter, of the rounding and of the option
index, `int` and `size_t` conversions in the layout, masking with `n-1`, 4- and 8-byte little-endian
words (x86_64 sizes and byte order), padding that is never written.

## The modules

| module | what it holds |
|---|---|
| `Bits`, `Bytes`, `CStrings`, `Options` | machine words and their operators on binary digits, power-of-two rounding; memory as bytes; C strings |
| `RegionLayout` | configuration rounding, the layout computation in machine arithmetic, soundness of the layout, create and attach |
| `Records`, `Rows` | type/length/value records, appends into a bounded row, the unrolled fast path, the whole life of one row |
| `Slots`, `RingWriter` | rows as slots of the region, tickets and slots; the writer as a class over the byte array |
| `Stores`, `Schedule` | every call as a list of single memory accesses; all interleavings of any number of threads |
| `Survivors`, `LateRow`, `LateLoad`, `HoldTime` | what the slots hold when only the stores come in order; what goes wrong without order; how long a row may be used, exactly |
| `Timestamps`, `Printing`, `Reader`, `Window` | clocks and time stamps, the text of a row, `print_rows` as loops, the arithmetic of the live window |
| `EndToEnd`, `SerialRuns` | from any permitted run to the printed listing; every program has permitted runs |
| `InitLock`, `Counters`, `Variables` | double-checked initialisation, atomic counters, shared variables |
| `Arguments`, `CommandLine`, `Utility`, `Names`, `Flags` | option parsing, the meaning of the arguments, the two passes of the utility over a map, setting by name, whole command lines |
| `LoggedAndListed` | from the threads of the program to the output of the utility's command line |

## How the parts connect

`RingWriter.Writer` updates a byte array in place, and each of its methods is proved against a function
on the bytes of one row (`Rows`). `Writer.PlayAll` runs the tickets one after the other and ends in
`Slots.RunTickets`. `Schedule` runs the same calls as interleaved single accesses, including `memcpy`
byte by byte; `InterleavingIsSerial` shows that it ends in the same `RunTickets`. `Reader.PrintRows` is
a method with the utility's loops whose result is `Reader.Listing`, `EndToEnd` shows what that listing
is for the region of any permitted run, and `LoggedAndListed` that `Utility.RunUtility` prints it.

Three conditions on a run appear, each implied by the one before (the first step is
`Schedule.DisciplineOrders`): `Disciplined`, no access through a row once the ticket `num_rows` later
has been drawn; `InOrder`, the accesses to each slot come in ticket order, which is enough for the
region; `StoresInOrder`, the stores to each slot do, which is enough for the listing.

## What turned out false, and when it holds

- A writer that is still using its row when the slot is given away again can destroy the newer row.
  `HoldTime.SerialIffHeld` and `HoldTime.IntactIffHeld`: for every region, every run in which rows are
  used only until d others have been drawn ends in the region of ticket order, and leaves the live rows
  intact, if and only if d is at most `num_rows`. `LateRow.DisciplineNeeded` is the failing schedule, for
  every region and every kind of opening call.
- The region is not that of ticket order if only the stores are bounded, although the live rows and the
  listing are not affected (`HoldTime.IntactIffHeld`, `EndToEnd.PrintedAfterAnyRun`).
  `HoldTime.SerialByStoresIff`: with rows of 11 payload bytes or more, it is for every such run if and only
  if d is 0. `LateLoad.LoadsMatter` is the failing schedule: a late append that finds the newer row full is
  dropped, where in ticket order it would have been kept and left other stale bytes.
- The listing is not always chronological. `Window.ChronologicalIff`: it is exactly when no multiple of
  2^32 lies strictly inside the window of live tickets; otherwise it is that window rotated to begin at
  the row whose id is 0.
- The number of variables is rounded but not bumped from 0, so an id can index outside the section.
  `RegionLayout.VarIndexInBounds`: every id stays inside exactly when the requested count was between 1
  and 2^31; `RegionLayout.NoVarsIndexEscapes` is the failing case with count 0.
- The help text (`util/log2memutil.c:108`) offers `--NAME=N` for any variable name. The parser compares
  the beginning of an argument with `--double`, `--int` and `--string` first, splits at the first `=`,
  ignores an empty name, and compares with a label that was cut to 63 characters.
  `Names.DoubleSetIff` and `Names.IntSetIff`: the option gives a variable the number N through its label
  exactly when the label has 1 to 63 characters, no equals sign, and does not begin with `double`, `int`
  or `string`. With N as the next argument, `help` and `version` are lost as well
  (`Names.NameReachableNext`). The model follows the code.

The preconditions on configurations are met by the library's own default: `RegionLayout.DefaultFits`.

## Model

| member | source | states |
|---|---|---|
| `EndToEnd.PrintedAfterAnyRun` | util/log2memutil.c:256-427 | after every interleaving of any number of threads on a cleared region whose stores to each slot come in ticket order, at quiescence, for any number of rows ever created, the text printed is the concatenated lines of the live tickets, each with its own id, thread, the time that was read or last set, location and accepted values; rows without a record print nothing |
| `EndToEnd.PrintedInOrder` | util/log2memutil.c:265-283 | the same with the lines in order of creation, whenever no multiple of 2^32 lies strictly inside the live window |
| `EndToEnd.PrintedInOrderAtFirst` | util/log2memutil.c:265-283 | which is so for up to 2^32 rows ever created |
| `EndToEnd.PrintedUnderDiscipline` | liblog2mem/log2mem.c:541-594 | the same for a program in which no thread uses a row after num_rows others have been created |
| `EndToEnd.PrintedAfterTickets` | liblog2mem/log2mem.c:536-594 | the same for tickets run one at a time |
| `EndToEnd.ListingOfRun` | util/log2memutil.c:265-283 | the listing of any region whose live slots are their tickets' own, in the order in which the walk meets them |
| `LoggedAndListed.PrintedByUtility` | util/log2memutil.c:692-712 | for arguments that parse, run on the region of any such run, the utility prints its warnings and the sections asked for, and the rows section is exactly those lines, formatted as the arguments say |
| `LoggedAndListed.PrintedForWords` | util/log2memutil.c:679-687 | for any words: warnings, then as far as asked for the summary, the lines of the live rows, the counters and the variables, in this order |
| `LoggedAndListed.PrintedByRowsOption` | util/log2memutil.c:607-687 | for any arguments made of -r, one file name, and any of -F with a delimiter, -z and -t, in any order, they parse and the whole output is those lines in the display settings given |
| `EndToEnd.LowestIdIsFirst` | util/log2memutil.c:265-273 | the scan for the lowest row id finds 0 if a row with id 0 is live or nothing was written, and otherwise the oldest live row, for every ticket count |
| `EndToEnd.TicketLineInFull` | util/log2memutil.c:283-423 | a ticket's line part by part: nothing without records; in terse mode the values with the delimiter between them and a newline; else the ticket number in 32 bits as a signed int, a blank, the clock field, the thread id in brackets if option bit 1 is set, the locations, the values and a newline |
| `SerialRuns.EveryProgramRuns` | liblog2mem/log2mem.c:536-741 | whatever rows a program opens and whatever values it appends, on a region whose rows section is zero there is a finished run with exactly these tickets |
| `EndToEnd.LiveSlot` | liblog2mem/log2mem.c:536-594 | the slot of a ticket that has not been overtaken is readable, carries that ticket's id and prints as that ticket's line, whatever rows used the slot before |
| `EndToEnd.ItemsSplit` | liblog2mem/log2mem.c:581-585 | a row's accepted items are locations first and values after, which is what the delimiter loop relies on |
| `EndToEnd.CreatedRegionStarts` | liblog2mem/log2mem.c:305-394 | the region of any created configuration, cleared and then with anything in its header structure, meets the starting conditions of the run theorems |
| `Schedule.InterleavingIsSerial` | liblog2mem/log2mem.c:536-594 | every interleaving of single accesses in which the accesses to each slot come in ticket order ends, at quiescence, in the region of the row operations run in ticket order, with the wrapped ticket count |
| `Schedule.DisciplineOrders` | liblog2mem/log2mem.c:541-551 | if no row is accessed after the ticket num_rows later has been drawn, the accesses to each slot come in ticket order |
| `Schedule.InvAlways` | liblog2mem/log2mem.c:536-594 | in every reachable state of a run in slot order the region is the replay, ticket after ticket, of the accesses made so far, and each thread's register is what the replay gives it |
| `Schedule.ReplayRun` | liblog2mem/log2mem.c:463-481 | an access through a row whose successors in the slot are untouched changes the replay in that slot only, and in the way the access alone would |
| `Schedule.NoStaleStore` | liblog2mem/log2mem.c:541-551 | in a disciplined run no access to a row follows an access to a later row of the same slot |
| `Survivors.SurvivorsIntact` | liblog2mem/log2mem.c:536-594 | if only the stores to each slot come in ticket order, then at quiescence every row not overtaken is what its own operations made of its slot, and slots never drawn are as at the start |
| `Survivors.SerialHoldsLatest` | liblog2mem/log2mem.c:536-594 | the same of tickets run one at a time |
| `LateRow.DisciplineNeeded` | liblog2mem/log2mem.c:541-579 | without the order it fails, for every region and every kind of opening call: a schedule after which the slot of the newest row is the oldest one's, and the region neither that of ticket order nor one with its live rows intact |
| `LateLoad.LoadsMatter` | liblog2mem/log2mem.c:469-481 | in every region with rows of 11 payload bytes or more: a schedule in which every store is by the newest row, and a late append is dropped, ends in another region than ticket order |
| `HoldTime.SerialIffHeld` | liblog2mem/log2mem.c:541-551 | all runs in which rows are used only until d others have been drawn end in the region of ticket order if and only if d is at most num_rows |
| `HoldTime.IntactIffHeld` | liblog2mem/log2mem.c:541-551 | all such runs leave every live row intact under exactly the same bound, and so do all runs in which only the stores are bounded |
| `HoldTime.SerialByStoresIff` | liblog2mem/log2mem.c:469-481 | in regions with rows of 11 payload bytes or more, with only the stores bounded by d, all runs end in the region of ticket order if and only if d is 0 |
| `Stores.ExecTicket` | liblog2mem/log2mem.c:536-594 | the accesses of a ticket executed without interruption have exactly the effect of its row operations |
| `Stores.ExecPush` | liblog2mem/log2mem.c:463-504 | both loads of datalen, type, length, bytewise copy, and the load and store of the datalen update, in sequence, are one append |
| `Stores.ExecFast` | liblog2mem/log2mem.c:694-741 | the same for the unrolled event writer |
| `Stores.ExecOpen` | liblog2mem/log2mem.c:553-585 | the same for row initialisation, with or without thread id, clock and location |
| `Slots.SlotAssignment` | liblog2mem/log2mem.c:543-551 | the j-th row ever drawn gets slot j mod num_rows, across every overflow of the counter |
| `Slots.ConsecutiveTicketsCover` | liblog2mem/log2mem.c:543-551 | any num_rows consecutive tickets take every slot exactly once |
| `Slots.MaskedSlot` | liblog2mem/log2mem.c:546 | masking any row id with num_rows-1 takes it modulo num_rows |
| `Slots.RingOfCreated` | liblog2mem/log2mem.c:305-314 | the rows section of every created configuration is a valid ring inside the region |
| `Slots.RowStoreLeavesOthers` | liblog2mem/log2mem.c:549-551 | replacing one row's bytes changes no byte of any other row, counter, label, variable or of the header |
| `RingWriter.Writer.AtomicIncrFetch` | liblog2mem/log2mem_atomic_gcc.h:22-26 | adds modulo 2^32 and returns the new value |
| `RingWriter.Writer.InitRow` | liblog2mem/log2mem.c:536-594 | draws the next id and selects slot id mod num_rows; only that slot changes: the id is stored, the thread id if option bit 1 is set, the stamp of the clock that bits 2 and 3 choose, and the file name and line that fit if bit 0 is set and a file name is given; whatever is not stored stays stale |
| `RingWriter.Writer.PushRecord` | liblog2mem/log2mem.c:462-481 | the region after an append: the record is in the row behind the others, or nothing changed |
| `RingWriter.Writer.PushStr` | liblog2mem/log2mem.c:483-504 | the same for a string, with its terminating NUL |
| `RingWriter.Writer.AppendItem` | liblog2mem/log2mem.c:614-691 | each append function writes its value's type code and object representation |
| `RingWriter.Writer.TimeEvent4` | liblog2mem/log2mem.c:694-741 | a fresh row with both ints and a string that is given and not empty, if all of it fits, and an empty one otherwise; no other slot changes |
| `RingWriter.Writer.SetTimestamp` | liblog2mem/log2mem.c:753-760 | only the time stamp of that row changes |
| `RingWriter.Writer.PlayTicket` | liblog2mem/log2mem.c:596-741 | all calls of one ticket change only that ticket's slot, to what its row operations make of it |
| `RingWriter.Writer.PlayAll` | liblog2mem/log2mem.c:536-741 | any list of tickets run one at a time ends in the reference region and the wrapped ticket count |
| `Rows.RoundTrip` | liblog2mem/log2mem.c:463-504 | over any stale bytes, emptying a row and appending any items leaves a chain of lengths from 0 exactly to datalen, carrying exactly the greedily accepted items, within the payload space |
| `Rows.PushHolds` | liblog2mem/log2mem.c:463-504 | an append adds the one record if it fits what remains and is dropped whole otherwise; the records before it stay as they were |
| `Rows.FastPathIsAppends` | liblog2mem/log2mem.c:694-741 | on an empty row the unrolled writer needs 24 bytes, and 9 more and its length for a string that is given and not empty; if they fit it is byte for byte the appends of these records, and otherwise leaves the row empty |
| `Rows.OpenedRow` | liblog2mem/log2mem.c:553-585 | the same of either opening call, over any stale bytes, with field offsets, option bits and stamps in numbers |
| `Rows.OptionBits` | liblog2mem/log2mem/log2mem.h:38-44 | the option tests are those of bits 0, 1, and 2 to 3 |
| `Rows.AppendInBytes` | liblog2mem/log2mem.c:463-504 | one append in numbers: type byte, three bytes left alone, length and data behind the records before it, and datalen at offset 20; nothing else changes, and nothing at all if it does not fit |
| `Rows.StartFacts` | liblog2mem/log2mem.c:553-585 | the opened row holds its items for the reader's walk, whatever the slot held before |
| `Rows.RowFacts` | liblog2mem/log2mem.c:536-760 | after all calls of a ticket its row has its id, its tid and last time stamp as far as the options write them, and decodes to its accepted items |
| `Records.ReadBack` | util/log2memutil.c:346-417 | reading a written record by its type code gives the value appended, for all ten types; strings without NUL come back unchanged |
| `Records.RecordInBytes` | liblog2mem/log2mem/log2mem_dev.h:44-53 | type code and data bytes of all ten kinds of value |
| `Bytes.LittleEndian` | liblog2mem/log2mem.c:378-380 | words are stored least significant byte first |
| `Records.KeepAllWhenFitting` | liblog2mem/log2mem.c:472 | when everything fits, nothing is dropped |
| `Reader.PrintRows` | util/log2memutil.c:256-427 | the two loops print, slot after slot from the lowest row id, each row's line |
| `Reader.LowestRowId` | util/log2memutil.c:265-273 | the result is a lower bound of all row ids and is one of them, or the largest 32-bit value |
| `Reader.VisitsEachSlotOnce` | util/log2memutil.c:276-281 | from any first id the walk meets every slot exactly once |
| `Reader.ShowRow` | util/log2memutil.c:283-424 | nothing for an empty row; otherwise, from the bytes, id, clock field and thread id as option bits and terse mode call for, the records and a newline |
| `Reader.ShowRecords` | util/log2memutil.c:327-419 | the record loop stops exactly at datalen and prints every record with the delimiter flag's effect |
| `Reader.ShowRecord` | util/log2memutil.c:346-417 | for each of the ten type codes the text printed, from the bytes behind the record header |
| `Reader.HoldsReadable` | util/log2memutil.c:330-418 | every row written by the library meets the reader's needs: lengths that chain to datalen, payloads of their type's size, terminated strings |
| `Window.ChronologicalIff` | util/log2memutil.c:275-281 | the listing order is chronological if and only if no multiple of 2^32 lies strictly inside the live window |
| `Window.ChronologicalAtFirst` | util/log2memutil.c:275-281 | it always is for the first 2^32 rows |
| `Window.VisitOrder` | util/log2memutil.c:276-281 | the i-th visit meets the slot of the i-th live ticket in listing order, and a slot never written after that |
| `Window.LiveOrderIsPermutation` | util/log2memutil.c:276-281 | the listing order has every live ticket exactly once |
| `Printing.LoopIsJoin` | util/log2memutil.c:327-419 | for locations followed by values, the flag-driven loop prints the location texts and then the value texts joined with the delimiter, or concatenated when delimiters are off |
| `Printing.JoinIs` | util/log2memutil.c:338-341 | joining puts the delimiter between any two neighbours and nowhere else |
| `Printing.LineInFull` | util/log2memutil.c:283-423 | the line of given items, with each value's text by its kind |
| `Printing.TerseHidesLocation` | util/log2memutil.c:348-367 | in terse mode the location texts are empty |
| `Printing.RowTextIsLine` | util/log2memutil.c:283-423 | a row holding these items under this header prints as their line, and header words that the options leave unwritten are not shown |
| `Printing.ClockShown` | util/log2memutil.c:291-320 | the stamp of a row's opening is shown as the reading of the clock that the options name |
| `Printing.TimeInNumbers` | util/log2memutil.c:291-320 | the clock field by option bits 2 and 3: nothing, microseconds, nanoseconds or the raw counter, of the reading at the row's opening |
| `Printing.SetTimeInNumbers` | liblog2mem/log2mem.c:753-760 | after log2mem_set_ts it is the last stamp set, split into seconds and parts of a second |
| `Timestamps.TimespecRoundTrip` | liblog2mem/log2mem.c:984-989 | unpacking a clock_gettime stamp gives back seconds and nanoseconds |
| `Timestamps.TimevalRoundTrip` | liblog2mem/log2mem.c:993-998 | unpacking a gettimeofday stamp gives back seconds and microseconds |
| `Timestamps.StampParts` | liblog2mem/log2mem.c:984-998 | any stamp unpacks into its quotient and remainder by 2^30 |
| `Timestamps.OrderIsTimeOrder` | liblog2mem/log2mem.c:518-530 | numeric order of stamps is time order |
| `Bits.RoundUpNextPowerOf2` | liblog2mem/log2mem.c:127-138 | the bit-smearing code, with the wrap of its decrement and increment, computes the rounding function for every 32-bit input |
| `Bits.RoundedUpIsLeast` | liblog2mem/log2mem.c:111-138 | for 1 to 2^31 that function is the least power of two not below the input |
| `Bits.SmearFills` | liblog2mem/log2mem.c:129-134 | the five shift-and-or lines set every digit below the leading one |
| `Bits.MaskIsMod` | liblog2mem/log2mem.c:441 | masking with 2^k - 1 is remainder modulo 2^k |
| `Bits.MaskHighRoundsDown` | liblog2mem/log2mem.c:176 | masking with the complement rounds down to a multiple of 2^k |
| `RegionLayout.RoundCounts` | liblog2mem/log2mem.c:305-310 | of the stored configuration, the counter and row counts are each the least power of two not below the request for 1 to 2^31 and 1 otherwise, the variable count is the same with 0 otherwise, and nothing else changes |
| `RegionLayout.IndexInCreated` | liblog2mem/log2mem.c:441 | in the stored configuration every counter or row id, negative ones included, selects the element id mod count, inside the section |
| `RegionLayout.IndexIsMod` | liblog2mem/log2mem.c:546 | the same for any power of two up to 2^31 |
| `RegionLayout.VarIndexInBounds` | liblog2mem/log2mem.c:851 | variable ids stay inside their section if and only if the requested count was between 1 and 2^31 |
| `RegionLayout.NoVarsIndexEscapes` | liblog2mem/log2mem.c:310 | with no variables requested every id indexes itself |
| `RegionLayout.AlignSizeTIsAlignUp` | liblog2mem/log2mem.c:176 | the 8-byte alignment expression in size_t rounds up |
| `RegionLayout.AlignIntIsAlignUp` | liblog2mem/log2mem.c:194-195 | the page alignment expression in int rounds up |
| `RegionLayout.Layout.Calculate` | liblog2mem/log2mem.c:169-196 | whenever the exact layout fits an int, the machine computation gives exactly it, with no truncation in any intermediate |
| `RegionLayout.LayoutInNumbers` | liblog2mem/log2mem.c:169-190 | the offsets in numbers: 256 bytes for the header, 8 a counter, 24 and the payload a row, 64 a label, 80 a double, 72 an int variable, each section from the next multiple of 8 |
| `RegionLayout.ElementInside` | liblog2mem/log2mem.c:169-196 | every element of every section lies in its section, and that in the region |
| `RegionLayout.ElementsApart` | liblog2mem/log2mem.c:169-196 | no two elements, of one section or of two, share a byte |
| `RegionLayout.SectionsAligned` | liblog2mem/log2mem.c:174-187 | every section starts on an 8-byte boundary |
| `RegionLayout.SizeIsLeast` | liblog2mem/log2mem.c:188-195 | the size is the least multiple of the page size that holds all sections |
| `RegionLayout.Handle.Create` | liblog2mem/log2mem.c:305-384 | the header stores the rounded configuration, as RoundCounts states it, and nextrow 0; the section pointers are the exact offsets of the stored configuration |
| `RegionLayout.Handle.Attach` | liblog2mem/log2mem.c:200-217 | recomputing from the stored configuration gives the same pointers |
| `InitLock.SafeInitialisation` | liblog2mem/log2mem.c:412-425 | in every interleaving of any number of callers: at most one is between lock and unlock, create is entered at most once, a set handle is completely built, and every caller that returned sees it |
| `InitLock.HandleNeverChanges` | liblog2mem/log2mem.c:412-425 | once set, the handle is the same in every later state of the run |
| `InitLock.NoDeadlock` | liblog2mem/log2mem_atomic_gcc.h:34-50 | until all callers have returned some caller can take a step that brings the end nearer |
| `InitLock.StepsUseWork` | liblog2mem/log2mem.c:412-425 | every step other than a failed test-and-set uses up work |
| `InitLock.WorkBoundsRun` | liblog2mem/log2mem.c:412-425 | no run makes more such steps than the work at its start |
| `Counters.CounterSection.CounterAdd` | liblog2mem/log2mem.c:436-444 | the counter of id mod num_counters grows by the amount, wrapping to an int; the others stay |
| `Counters.CountersConserve` | liblog2mem/log2mem.c:436-444 | in every interleaving each counter of the stored configuration ends as the sum, wrapped to an int, of all amounts added under ids congruent to it |
| `Counters.NextConserves` | liblog2mem/log2mem_atomic_gcc.h:16-20 | at every step a counter and the amounts still to come make up the same final value |
| `Variables.VarSection.InitValue` | liblog2mem/log2mem.c:846-863 | the first initialisation writes value, flags and label; a later one changes nothing; other slots stay |
| `Variables.VarSection.SetValue` | liblog2mem/log2mem.c:867-875 | assignment writes value and used flag of its slot only |
| `Variables.VarSection.GetValue` | liblog2mem/log2mem.c:879-886 | returns the value of the id's slot |
| `Variables.VarSection.SetNamed` | util/log2memutil.c:559-569 | the search loop assigns to every used variable with that label and reports whether there was one |
| `Variables.History` | liblog2mem/log2mem.c:846-951 | after any calls a slot's value is that of the latest effective write, its label that of the first initialisation, its flags say whether it was used and initialised |
| `Variables.FlagsOnlyGrow` | liblog2mem/log2mem.c:846-951 | over any history and any longer one: initialised implies used, no flag is ever cleared, and the label of an initialised variable does not change again |
| `Variables.LabelKept` | liblog2mem/log2mem.c:858-862 | a label without NUL is kept whole up to 63 characters and cut to its first 63 beyond |
| `Names.SetByName` | util/log2memutil.c:555-581 | after any calls and assignments, set_var_by_name gives the number in the text to every double and int variable whose first initialisation left that label, and to no other; nothing else changes, and the empty name sets nothing |
| `Names.FoundByLabel` | util/log2memutil.c:559-580 | a variable is found under the first 63 characters of the label of its first initialisation, and under the whole label exactly if that has at most 63 |
| `Variables.MatchIff` | util/log2memutil.c:563-564 | the search for a non-empty name finds exactly the slots whose first initialisation left that label |
| `Arguments.ReadDigits` | util/log2memutil.c:447-451 | the digit loop stops at the first non-digit, and its 32-bit accumulation is the decimal value modulo 2^32 |
| `Arguments.ProcessSetVarArg` | util/log2memutil.c:436-470 | the pointer loop computes the option's index, value and consumed arguments, with its two errors |
| `Arguments.IndexRead` | util/log2memutil.c:436-470 | any digit string, with or without brackets, followed by =v or by v as the next argument, is read as its value modulo 2^32 and v |
| `Arguments.OptionRoundTrip` | util/log2memutil.c:436-470 | printing an index below 2^32 in decimal and parsing it gives it back, in all four forms |
| `Arguments.AcceptedIff` | util/log2memutil.c:445-467 | an indexed option is accepted exactly if it is the option, an optional bracket, digits and an optional bracket, followed by `=`, or by nothing while there is another argument; and which of the two errors it gives otherwise |
| `Arguments.DecimalDigits` | util/log2memutil.c:449 | digits count to the base ten, most significant first |
| `Utility.TakeArg` | util/log2memutil.c:607-676 | one turn of the argument loop advances, stops and records the same with and without a map; with one, it also assigns |
| `Utility.TakeNamed` | util/log2memutil.c:523-586 | a `--NAME` argument is split at its first `=`, or takes the next argument as value |
| `Utility.Map.Assign` | util/log2memutil.c:500-583 | what one option assigns in an attached map and warns of; a text that is no number leaves an arbitrary value for an indexed option and nothing for a named one |
| `Utility.Map.ShowSections` | util/log2memutil.c:681-687 | prints the sections asked for, in order, the rows section by print_rows |
| `Utility.ParseArgs` | util/log2memutil.c:589-690 | the result and the display settings are a function of the arguments alone; a map decides only whether the assignments and their warnings happen, in order, and, unless only parsing, the sections asked for are printed with the final settings |
| `Utility.RunUtility` | util/log2memutil.c:692-712 | the second pass never stops if the first returned; both give the same file name and sections, the display settings and the output are those of one pass, and each assignment is made once |
| `Flags.DisplayAndSections` | util/log2memutil.c:605-687 | for any words in any order: the delimiter is that of the last -F, shown unless -z came after it; -t is terse; if no section is named and nothing assigned all four are printed, else exactly those named by -s, -c, -r, -v, and -a for all but the summary |
| `Flags.FileAndAssignments` | util/log2memutil.c:648-677 | the file name, and the assignments in order |
| `Flags.CommandLineStops` | util/log2memutil.c:607-676 | help, version, -F without a delimiter and a second file name end the program behind any other words |
| `Flags.DoubleOptionSets` | util/log2memutil.c:491-503 | `--double[I]=N`, in all four forms, gives double I mod num_vars the number N and the used flag, and changes nothing else |
| `Flags.IntOptionSets` | util/log2memutil.c:507-519 | `--int[I]=N` does the same for an int |
| `Flags.StringOptionSetsNothing` | util/log2memutil.c:473-487 | `--string[I]=X` is parsed in the same way and sets nothing |
| `Names.NameReachable` | util/log2memutil.c:648-667 | `--NAME=N` is read as an assignment to NAME of the text N if and only if the name does not begin with double, int or string and has no equals sign |
| `Names.NameReachableNext` | util/log2memutil.c:607-667 | the same with N as the next argument, where the empty name, help and version are lost too |
| `Names.ReachedIff` | util/log2memutil.c:523-581 | `--LABEL=N` reaches the variable first initialised with that label, with N as its text, if and only if the label has 1 to 63 characters, no equals sign, and does not begin with double, int or string |
| `Names.DoubleSetIff` | util/log2memutil.c:559-569 | under exactly that condition the turn and its assignment give a labelled double the number N through the search |
| `Names.IntSetIff` | util/log2memutil.c:571-581 | the same for an int |
| `Names.WarnedIff` | util/log2memutil.c:555-583 | after any calls and assignments, the warning is printed exactly if the name is not empty and no double or int variable was first initialised with that label; nothing else is printed |

## Left out

- The operating system: open, ftruncate, mmap, fstat, gettid, clock readings and the cycle counter are inputs; the page size is any power of two.
- log2mem_attach beyond recomputing the section pointers: it sets the global handle without the lock, and checks the architecture word.
- Header words other than configuration and row counter, and a configuration structure of another size than the library's.
- Configurations whose layout exceeds an int (so that `rowidx * row_total_size` in int is exact), row_len from 2^31 on, and strings whose record would exceed an int or whose length is given as negative.
- Weak memory ordering, and a reader that runs while writers are active: steps are sequentially consistent and reader theorems are about quiescent regions.
- HoldTime.SerialByStoresIff: does not treat rows of fewer than 11 payload bytes, which hold at most one record.
- Two threads appending to one row at the same time: each drawn row has one thread at a time behind it.
- printf number formatting, localtime and sscanf: functions about which nothing is assumed (`Printing.Format`, `Utility.Scanner`).
- Byte orders and structure sizes other than x86_64.
- The reader sees the region as a value, since it changes nothing.
- Variable slots are records rather than bytes, and concurrent access to a variable, which the library does not synchronise, is not modelled.
- The formatting of the summary, counters and variables sections (`Utility.OtherText`), and the help, version and error texts.
- Counter labels and their used flags: plain stores.
- Default file name, user id and environment lookup; the Qt viewer; the examples; the build files.
