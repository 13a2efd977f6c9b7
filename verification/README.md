# Verified model of the repository's runtime and harness algorithms

This project models the self-contained algorithms of the repository in Dafny and
proves what they are for. `dafny verify dfyconfig.toml` checks all of it.

| file | models |
|---|---|
| `WeekDate.dfy` | the ISO 8601 week date of `strftime`: `%G` by walking and comparing dates, `%V` and `%u` by modular arithmetic |
| `TypeRegistry.dfy` | the reentrant resolver of type dependencies |
| `Unicode.dfy` | code units, code points, UTF-8 |
| `Heap.dfy` | little-endian loads and stores on a byte array |
| `Utf8Codec.dfy`, `StdString.dfy` | the UTF-8 codec on the heap and the wire type of `std::string` |
| `WideString.dfy` | the UTF-16 and UTF-32 codecs and the wire type of `std::wstring` |
| `EmvalTable.dfy` | the handle table for JavaScript values |
| `ClassHandles.dfy` | clones, deletion, deferred deletion and finalizers over a shared count |
| `HeapGrowth.dfy` | page-aligned growth of the memory |
| `Packs.dfy` | the two layouts, packs and entries, of a backup archive, and their verifier |
| `Splice.dfy`, `Instrument.dfy`, `BracketNesting.dfy` | instrumentation by insertion at offsets |
| `Repair.dfy`, `ChunkedDigest.dfy` | repair of UTF-16 and hashing by chunks |
| `FixturePlan.dfy` | the planner of backups of an exact size |
| `Yaml.dfy` | the small YAML reader and writer |
| `Stripe.dfy` | the detector of a colour stripe in a row of pixels |
| `MarkerSearch.dfy` | the paged search for a marker |
| `Stamps.dfy`, `Replica.dfy`, `Outcomes.dfy`, `Devices.dfy` | last-writer-wins synchronisation: the clock, one device's tables, what a commit and a pass leave in them, and the device's calls |
| `Convergence.dfy`, `Network.dfy` | what tables show of the changes they count, and runs of many devices |
| `Server.dfy`, `Sync.dfy` | the server's library, and devices that synchronise through it |
| `Wrappers.dfy` | what several files share |

Objects whose methods update them are classes, loops are loops over arrays and
sequences, and each is proved against a function or predicate whose own
properties are proved beside it.

## How to read the results

Some promises hold only under a condition, which the model states exactly:

* Both wire types give a string back if and only if it is well-formed UTF-16 or
  the characters are 16 bits wide; surrogates are paired without being checked.
* `stringToUTF16` and `stringToUTF32` leave their window for some sizes; the
  exact sizes are stated. The wire type never asks for one of them.
* The brackets of instrumented statements nest if and only if no two statements
  start at one offset and none ends where one starts. The empty body of an
  instrumented function ends where it starts, so its brackets come out crossed.
* YAML comes back if and only if every key is in the accepted alphabet and is
  not `__proto__`, every string is trimmed and on one line, and every list is
  non-empty with no empty item.
* `planFixture` refuses a size in its range only when the last text would pass
  3,000,000 bytes. Some size is refused if and only if the prefix and 257 bytes
  for each byte of an object header come to more than 888,944.
* The type registry throws in the middle of a cascade if and only if what it
  stands on has no model that registers each type once. It stands on all that was
  asked for or, after an exception, on what was registered by then and the rules
  that have lost no callback. What it has registered is the least model.
* Devices do not always end with the latest write of a key. What belongs to a
  deleted character or conversation goes with it; of any other key the latest
  write is shown if and only if the key was never deleted for good or its latest
  write is a delete.
* Most versions never reach another device: a queue and the server keep one for
  each key. The missing ones are superseded, and once the queues are empty and
  every device has what the server keeps, all of them drain to what it shows.
* A drain leaves no row held if and only if the owners of every row are known.
  They are when every commit has, or makes, the owners of what it edits.
* Repair of UTF-16 distributes over a cut if and only if the cut splits no pair.
* `%V` tests the leapness of `tm_year` without adding 1900. The answer differs
  only in century years, and none of those begins or ends on the weekday for
  which the test decides.

## Model

| member | source | states |
|---|---|---|
| `WeekDate.LeapIsEuclidean` | public/assets/bergamot-translator-worker.js:2482-2484 | the leap test, with a remainder that takes the sign of a negative year, is the Gregorian rule for every year |
| `WeekDate.AddDays` | public/assets/bergamot-translator-worker.js:2496-2517 | walking a date forward month by month lands on the valid date whose day ordinal is exactly that many days later |
| `WeekDate.CompareIsOrder` | public/assets/bergamot-translator-worker.js:2580-2591 | comparing year, month and day in turn is comparing day ordinals, for all valid dates |
| `WeekDate.WeekStartHoldsFirstThursday` | public/assets/bergamot-translator-worker.js:2592-2615 | the reference week start is a Monday and its Thursday is the first of the year (section 4.1.4 of ISO 8601:2004) |
| `WeekDate.FirstWeekStartDateIsWeekStart` | public/assets/bergamot-translator-worker.js:2592-2615 | the date chosen by the weekday of January 4 is a valid date and is that week start, also where it falls in December |
| `WeekDate.WeekBasedYearOfDate` | public/assets/bergamot-translator-worker.js:2616-2631 | the year chosen by two comparisons is the one whose weeks contain the date |
| `WeekDate.GetWeekBasedYear` | public/assets/bergamot-translator-worker.js:2616-2631 | %G from year and day of year names the week year of that day |
| `WeekDate.WeekStartsGrow` | public/assets/bergamot-translator-worker.js:2616-2631 | week starts never decrease with the year, so a day lies in one week year only |
| `WeekDate.LeapnessOfTmYear` | public/assets/bergamot-translator-worker.js:2701-2716 | testing the leapness of tm_year without adding 1900 is right in every year that begins on a Wednesday, the only ones where the test is reached and matters |
| `WeekDate.LeapnessOfYearBefore` | public/assets/bergamot-translator-worker.js:2701-2716 | the same for the year before, asked of tm_year % 400 - 1, when its December 31 is a Friday |
| `WeekDate.CenturyWeekday` | public/assets/bergamot-translator-worker.js:2701-2716 | the weekdays that the affected century years begin on, by the count of days since year 1 |
| `WeekDate.WeekDateIsIso` | public/assets/bergamot-translator-worker.js:2694-2716 | for every consistent year, day of year and weekday, and the week year of that day, %V lies in 1..53, %u in 1..7, and week start + 7 * (V - 1) + (u - 1) is the ordinal of the day |
| `WeekDate.WeekDateNamesTheDay` | public/assets/bergamot-translator-worker.js:2616-2716 | %G by dates and comparisons and %V, %u by modular arithmetic agree: together they name the day they were computed from |
| `TypeRegistry.TypeRegistry.Register` | public/assets/bergamot-translator-worker.js:969-991 | a registration from outside, for every type and in every state, also one that an exception left: at once it throws exactly for the null type or a duplicate that may not be ignored; otherwise the reentrant cascade terminates, and it throws in the middle if and only if every model of what the registry stands on and the new type registers some type twice; nothing registered is lost or replaced |
| `TypeRegistry.TypeRegistry.AddRule` | public/assets/bergamot-translator-worker.js:825-861 | the same for any rule with nested rules, whatever its targets and whatever was thrown before |
| `TypeRegistry.TypeRegistry.Enter` | public/assets/bergamot-translator-worker.js:982-990 | registering one type fires its waiting callbacks after removing them from the table, each once; it returns with no work left over, or with an exception that only a type registered twice can cause |
| `TypeRegistry.TypeRegistry.Fire` | public/assets/bergamot-translator-worker.js:847-853 | one callback fills its converter slot and completes the rule exactly when it was the last; what rules are still to do never grows |
| `TypeRegistry.TypeRegistry.OnComplete` | public/assets/bergamot-translator-worker.js:829-837 | completion makes every nested call and registers every target, and uses up the work of its own rule |
| `TypeRegistry.TypeRegistry.RegisterTarget` | public/assets/bergamot-translator-worker.js:975-982 | a target registered already throws, and then no model of the rules registers each type once |
| `TypeRegistry.TypeRegistry.Scan` | public/assets/bergamot-translator-worker.js:841-855 | the scan fills the slots of registered dependencies and leaves one callback per missing one, duplicates included |
| `TypeRegistry.TypeRegistry.LeastFixedPoint` | public/assets/bergamot-translator-worker.js:825-861 | the registered types are the least set closed under the bases and rules that the registry stands on, nested ones included, and each comes about exactly once |
| `TypeRegistry.TypeRegistry.FilledSlotsHold` | public/assets/bergamot-translator-worker.js:841-852 | also after an exception a filled slot holds what its dependency is registered as |
| `TypeRegistry.TypeRegistry.ProducedByTarget` | public/assets/bergamot-translator-worker.js:829-837 | a registration that was not given is of the target it names, of a completed rule |
| `TypeRegistry.AbandonStep` | public/assets/bergamot-translator-worker.js:829-853 | after an exception the registry is one that stands on what was registered by then and on the rules that have lost no callback |
| `TypeRegistry.RegisteredWhileAwaited` | public/assets/bergamot-translator-worker.js:969-991 | an input that throws in the cascade: a type registered outright while a rule that targets it waits |
| `TypeRegistry.CompleteAccounted` | public/assets/bergamot-translator-worker.js:825-861 | completing a rule keeps the balance of the registry: what is registered, due to be and owed by waiting rules is the whole outcome of the rules, each type as often as the outcome has it |
| `TypeRegistry.TypeRegistry.CompletesExactlyOnce` | public/assets/bergamot-translator-worker.js:825-861 | a rule has completed once if all its dependencies are registered and no exception took one of its callbacks, and never otherwise; a completed one has every slot filled with what its dependency was registered as |
| `TypeRegistry.TypeRegistry.AwaitingIsExact` | public/assets/bergamot-translator-worker.js:841-855 | a slot waits exactly while its dependency is unregistered; no waiting entry names a registered type and none is queued twice |
| `TypeRegistry.FillStep` | public/assets/bergamot-translator-worker.js:847-853 | the counter of fired callbacks reaches the number that waited exactly when no slot is empty |
| `Unicode.PointsRoundTrip` | public/assets/bergamot-translator-worker.js:162-171 | combining surrogates blindly and splitting code points again gives a string back exactly when it is well-formed UTF-16 |
| `Utf8Codec.LengthBytesUTF8` | public/assets/bergamot-translator-worker.js:200-208 | the length counted is the number of bytes of the encoding, for every string of code units |
| `Utf8Codec.FitIsLongest` | public/assets/bergamot-translator-worker.js:162-194 | the number of code points written is the largest whose bytes fit the room |
| `Utf8Codec.FitAll` | public/assets/bergamot-translator-worker.js:162-208 | room for the counted length takes the whole string |
| `Utf8Codec.PutPoint` | public/assets/bergamot-translator-worker.js:172-190 | one code point is written whole or not at all, and nothing else on the heap changes |
| `Utf8Codec.Utf8Syntax` | public/assets/bergamot-translator-worker.js:172-190 | the bytes written for a code point are as many as section 3 of RFC 3629 says, with the lead in its range and every other byte in 80..BF |
| `Utf8Codec.StrictReadsBack` | public/assets/bergamot-translator-worker.js:172-190 | a strict reader, which takes the shortest form of scalar values and nothing else, reads back what is written |
| `Utf8Codec.StrictReadsOnlyUtf8` | public/assets/bergamot-translator-worker.js:172-190 | and it accepts no other bytes |
| `Utf8Codec.WrittenIsUtf8` | public/assets/bergamot-translator-worker.js:162-194 | whatever the string, well formed or not, every prefix of points written is UTF-8 of those points |
| `Utf8Codec.StringToUTF8Array` | public/assets/bergamot-translator-worker.js:162-194 | with any limit: exactly the longest fitting whole-code-point prefix and a zero are written, inside the window, and the bytes written are returned; with no positive limit nothing changes |
| `Utf8Codec.UTF8ArrayToString` | public/assets/bergamot-translator-worker.js:122-156 | the loop decodes up to the first zero or the limit, or without one to the end of the heap, whatever the bytes |
| `Utf8Codec.EndOfTextIsFirst` | public/assets/bergamot-translator-worker.js:122-126 | reading ends at the first zero, the limit or the end of the heap, whichever comes first |
| `Utf8Codec.DecodesByLead` | public/assets/bergamot-translator-worker.js:130-152 | also of malformed bytes the lead decides the width, and six bits are taken of each byte after it |
| `Utf8Codec.DecodeOnePoint` | public/assets/bergamot-translator-worker.js:130-152 | decoding the one to four bytes of any code point gives its units back and consumes exactly those bytes (section 3 of RFC 3629) |
| `Utf8Codec.DecodeUtf8` | public/assets/bergamot-translator-worker.js:122-156 | decoding inverts encoding for every sequence of code points, with no well-formedness assumed |
| `StdString.ToWireType` | public/assets/bergamot-translator-worker.js:2070-2109 | a length word and the payload are laid in the block, nothing outside it changes, and it throws exactly for a value of another kind or, without UTF-8, for a string with a unit over 255 |
| `StdString.FromWireType` | public/assets/bergamot-translator-worker.js:2041-2069 | the scan for zeros over the payload, segment by segment, computes the reading function |
| `StdString.SplitDecodeInverts` | public/assets/bergamot-translator-worker.js:2044-2059 | decoding between the zeros and putting a zero back for each gives the units of all code points, NULs included |
| `StdString.TextRoundTrip` | public/assets/bergamot-translator-worker.js:2036-2116 | a text read back from its wire form is the text exactly when it is well-formed UTF-16 |
| `StdString.RoundTrip` | public/assets/bergamot-translator-worker.js:2036-2116 | writing and reading back through the heap: identity for well-formed text, Latin-1 text and bytes; thrown exactly as toWireType does |
| `WideString.StringToUTF16` | public/assets/bergamot-translator-worker.js:231-246 | the units that the window takes and a zero are laid from the start, and nothing else changes |
| `WideString.Count16InWindow` | public/assets/bergamot-translator-worker.js:231-246 | the writer stays inside its window exactly when the window is even or large enough for the string |
| `WideString.Count16Fills` | public/assets/bergamot-translator-worker.js:231-246 | and a unit is written exactly while there is one and room before the zero, be it half a unit |
| `WideString.StringToUTF32` | public/assets/bergamot-translator-worker.js:269-288 | the points that the window takes and a zero are laid from the start, the room being looked at only after each write |
| `WideString.Count32InWindow` | public/assets/bergamot-translator-worker.js:269-288 | the writer stays inside its window exactly when there is nothing to write or room for one point and the zero |
| `WideString.Count32Fills` | public/assets/bergamot-translator-worker.js:269-288 | and a point is written exactly if it is the first or it and the zero fit |
| `WideString.LengthBytes` | public/assets/bergamot-translator-worker.js:248-298 | the length asked for is the character size times the characters written |
| `WideString.ToWireType` | public/assets/bergamot-translator-worker.js:2158-2170 | the block holds the character count and the characters, and writing stays inside length + charSize bytes after the count |
| `WideString.FromWireType` | public/assets/bergamot-translator-worker.js:2136-2157 | the scan for zero characters computes the reading function for both sizes |
| `WideString.WideRoundTrip` | public/assets/bergamot-translator-worker.js:212-298 | a string read back is the string exactly when the characters are 16 bits wide or it is well-formed |
| `WideString.RoundTrip` | public/assets/bergamot-translator-worker.js:2118-2177 | writing and reading back through the heap, NULs included, with the same exact condition |
| `EmvalTable.EmvalTable.constructor` | public/assets/bergamot-translator-worker.js:1798-1808 | the table starts with its constants, nothing held and nothing free |
| `EmvalTable.EmvalTable.ToValue` | public/assets/bergamot-translator-worker.js:1842-1847 | throws exactly for the zero handle and for one above 4 that is not live, otherwise gives the value behind the handle |
| `EmvalTable.EmvalTable.ToHandle` | public/assets/bergamot-translator-worker.js:1848-1872 | the handle given reads back as the value; a new one is the one freed last, if there is one, and was not live; every live one keeps its value, and the peak grows only past its former level |
| `EmvalTable.EmvalTable.Decref` | public/assets/bergamot-translator-worker.js:1810-1815 | throws exactly for a handle above 4 that is not live, changing nothing; otherwise releases one reference, and the last one, and no other, takes the handle out of use |
| `EmvalTable.EmvalTable.Incref` | public/assets/bergamot-translator-worker.js:2254-2258 | throws for the same handles; otherwise adds one reference to a handle above the constants |
| `EmvalTable.EmvalTable.Count` | public/assets/bergamot-translator-worker.js:1817-1825 | counts the live slots |
| `EmvalTable.EmvalTable.First` | public/assets/bergamot-translator-worker.js:1827-1834 | gives the slot of the lowest live handle, or none when none is live |
| `EmvalTable.EmvalTable.FreeIsUnheld` | public/assets/bergamot-translator-worker.js:1798-1873 | over every run: a handle above 4 is live or on the free list and never both, the list has no duplicates, and the table length less 5 is the peak number of simultaneously live handles |
| `EmvalTable.EmvalTable.LiveIsHeld` | public/assets/bergamot-translator-worker.js:1817-1825 | the live count is the number of different handles with unreleased references |
| `ClassHandles.Runtime.CountIsLiveHandles` | public/assets/bergamot-translator-worker.js:1067-1081 | over every run: the shared count is the number of unreleased handles of the group, and the destructor has run exactly once if there are none left and never before |
| `ClassHandles.Runtime.ScheduledIsQueued` | public/assets/bergamot-translator-worker.js:1300-1313 | over every run: deleteScheduled holds exactly for handles in the queue, each queued once and still live |
| `ClassHandles.Runtime.Make` | public/assets/bergamot-translator-worker.js:1157-1174 | a new group with one live handle |
| `ClassHandles.Runtime.Clone` | public/assets/bergamot-translator-worker.js:1262-1279 | throws exactly on a deleted handle; otherwise a new live handle joins the group |
| `ClassHandles.Runtime.Delete` | public/assets/bergamot-translator-worker.js:1281-1294 | throws exactly on a deleted or scheduled handle; otherwise releases it and takes its pointer |
| `ClassHandles.Runtime.DeleteLater` | public/assets/bergamot-translator-worker.js:1300-1313 | throws on the same handles; otherwise queues the handle at the end and releases nothing |
| `ClassHandles.Runtime.Finalize` | public/assets/bergamot-translator-worker.js:1244-1258 | the finalizer releases a watched handle that was neither deleted nor queued |
| `ClassHandles.Runtime.Flush` | public/assets/bergamot-translator-worker.js:1115-1121 | never throws, empties the queue, and deletes exactly the queued handles |
| `Packs.OffsetsTile` | benchmarks/file-backup/main.rs:53-56 | the running offset is the length of the current pack, and no later pack has begun |
| `Packs.ExtentsTile` | benchmarks/file-backup/main.rs:53-56 | every payload goes to the end of its pack, so the extents of a pack tile it from 0 without gap or overlap |
| `Packs.PackIsLeftWhenFull` | benchmarks/file-backup/main.rs:53-56 | a pack is left for the next if and only if the payload and what the pack holds come to more than 268,435,456 bytes |
| `Packs.PacksAreBounded` | benchmarks/file-backup/main.rs:53-56 | no pack exceeds 256 MiB when no single payload does |
| `Packs.Write` | benchmarks/file-backup/main.rs:41-88 | after the loop the archive holds every pack or object whole and the catalog holds one row per payload |
| `Packs.StorePayload` | benchmarks/file-backup/main.rs:57-67 | an entry is started only when it is new, and written only when it is the current one; an empty payload in a pack needs none |
| `Packs.ReadChunks` | benchmarks/file-backup/main.rs:227-237 | reading in chunks of the buffer hashes and outputs exactly the extent |
| `Packs.Verify` | benchmarks/file-backup/main.rs:209-239 | accepts exactly when every row names bytes that exist and whose digest is the stored one, and extracts those bytes |
| `Packs.RowRecovers` | benchmarks/file-backup/main.rs:209-239 | each row of what was written names its payload, in both layouts and through the real file positions |
| `Packs.WriteThenVerify` | benchmarks/file-backup/main.rs:41-239 | in both layouts the verifier accepts what the writer produced and restores every payload, so both layouts restore the same objects |
| `Splice.SortsStably` | benchmarks/generation-send/probe.ts:103 | the sort gives the same insertions by descending offset, those of one offset in their list order |
| `Splice.InsertAll` | benchmarks/generation-send/probe.ts:103-105 | splicing one after another equals inserting all texts at once into the original, texts of one offset in reverse list order |
| `Splice.WeaveOneMore` | benchmarks/generation-send/probe.ts:104 | an insertion at or before all made so far goes in at its own offset, unshifted |
| `Instrument.Visitor.Visit` | benchmarks/generation-send/probe.ts:61-88 | by the paths of child indices: what is pushed is, for every reachable node to be wrapped and for no other, once, an opening at its start and a closing at its end, with fresh serials, outer nodes first |
| `Instrument.WrappedAreAll` | benchmarks/generation-send/probe.ts:61-88 | the spans visited are those of all reachable nodes to be wrapped, each once |
| `Instrument.VisitNests` | benchmarks/generation-send/probe.ts:61-88 | the spans wrapped in a well-formed tree nest: a later one lies inside or after an earlier one |
| `Instrument.EraseWeave` | benchmarks/generation-send/probe.ts:103-105 | erasing the inserted texts gives the source back, and what is erased are the texts by offset |
| `BracketNesting.ApartBalances` | benchmarks/generation-send/probe.ts:41-50 | when no two statements start together and none starts where one ends, be it itself, the emitted brackets are balanced, each closing the innermost open one |
| `BracketNesting.BalancedIsApart` | benchmarks/generation-send/probe.ts:41-50 | and only then: statements that share a start, touch or are empty come out crossed |
| `BracketNesting.EmptyBodyIsCrossed` | benchmarks/generation-send/probe.ts:62-71 | the empty body of an instrumented function: its closing bracket comes out before its opening one |
| `BracketNesting.SplicedBracketsNest` | benchmarks/generation-send/probe.ts:61-105 | for every tree: the source survives, and the brackets nest exactly when its wrapped statements are apart |
| `BracketNesting.Transform` | benchmarks/generation-send/probe.ts:61-106 | the whole transform, visit, sort and splice: the source survives; every reachable node to be wrapped has one opening bracket that stands after as many source characters as its start, and one closing bracket at its end, and there are no others; they nest exactly when the nodes are apart |
| `Repair.NormalizeUtf16` | benchmarks/tokenizer/nativeTokenizerBenchmark.ts:36-55 | the loop keeps paired surrogates and replaces lone ones, unit by unit |
| `Repair.WellFormedIsPaired` | benchmarks/tokenizer/nativeTokenizerBenchmark.ts:36-55 | well-formed UTF-16 (section 2 of RFC 2781) is every surrogate standing next to its other half |
| `Repair.RepairIsWellFormed` | benchmarks/tokenizer/nativeTokenizerBenchmark.ts:36-55 | the result is well formed, equals the input exactly when that was, and is a fixed point |
| `Repair.RepairByPieces` | benchmarks/tokenizer/nativeTokenizerBenchmark.ts:36-55 | repairing two pieces apart is repairing the whole exactly when the cut splits no pair |
| `ChunkedDigest.ThreeBytesAUnit` | benchmarks/device-backup/plugin-values.ts:16-17 | three bytes a unit hold the encoding of any well-formed text |
| `ChunkedDigest.EncodesWhole` | benchmarks/device-backup/plugin-values.ts:22-23 | with such a buffer every chunk, malformed or not, is read whole |
| `ChunkedDigest.EncodeByPieces` | benchmarks/device-backup/plugin-values.ts:18-26 | encoding in two pieces is encoding the whole when the cut splits no pair |
| `ChunkedDigest.Digest` | benchmarks/device-backup/plugin-values.ts:14-29 | for every string and every chunk size from 2 on: it never throws, the chunks join to the string, each but the last is as long as the size allows without ending in a high surrogate, no cut splits a pair, and the hash is fed the encoding of the whole |
| `ChunkedDigest.JoinChunks` | benchmarks/device-backup/plugin-values.ts:67-76 | the chunked construction of the value equals the direct one |
| `ChunkedDigest.ExactValueAt` | benchmarks/device-backup/plugin-values.ts:58-76 | unit by unit the value is the pattern over and over, as often as it fits, and then `x` |
| `ChunkedDigest.ExactValueIsExact` | benchmarks/device-backup/plugin-values.ts:67-76 | the value constructed takes exactly the bytes asked for |
| `FixturePlan.Text` | benchmarks/legacy-restore/fixture.ts:15-26 | the loop draws the words of the congruence and cuts them to exactly the bytes asked for, all of them one-byte letters and spaces |
| `FixturePlan.TextIsDrawn` | benchmarks/legacy-restore/fixture.ts:15-26 | whatever seeds follow one another by the congruence, the text is the words they draw, each with a space, cut to the bytes asked for |
| `FixturePlan.CharacterSizeIs` | benchmarks/legacy-restore/fixture.ts:27-36 | the encoded size of a character depends on its kind alone: every full one has one length |
| `FixturePlan.TailGrowth` | benchmarks/legacy-restore/fixture.ts:51-54 | from an empty text to one past 64 KiB the size grows by the text and 4 bytes of header |
| `FixturePlan.PlanFixture` | benchmarks/legacy-restore/fixture.ts:45-58 | throws outside the range; inside it exactly when the tail would pass its upper bound, which no prefix up to the bound causes; a plan returned adds up exactly and its tail is within bounds |
| `FixturePlan.PrefixIsSafe` | benchmarks/legacy-restore/fixture.ts:45-55 | no size in the range is refused exactly when the prefix and 257 bytes for each byte of an object header come to at most 888,944; past that a refused size is given |
| `FixturePlan.FixturePackets` | benchmarks/legacy-restore/fixture.ts:63-73 | the packet lengths sum to the planned size, and come in the order asked for: the list of characters with its key first or the root fields |
| `Yaml.TrimCuts` | public/assets/translator-worker.js:100-107 | trim removes all white space at both ends and nothing else |
| `Yaml.ItemOfIsGreedy` | public/assets/translator-worker.js:97 | a line is an item exactly when the pattern has a match, and the group is that of the greediest |
| `Yaml.KeyOfIsGreedy` | public/assets/translator-worker.js:102 | the same for a key line |
| `Yaml.Parse` | public/assets/translator-worker.js:92-117 | the loop over lines is the fold of the line step, a throw ending it |
| `Yaml.LineIsRead` | public/assets/translator-worker.js:96-113 | one line, by the ways to match the two patterns: an item grows the list under the last key or starts it from a string that is not blank, a key sets its text, a blank line does nothing, and all else throws |
| `Yaml.LinesJoin` | public/assets/translator-worker.js:95 | the lines hold no newline and join to the text |
| `Yaml.RoundTrip` | public/assets/translator-worker.js:92-136 | parsing what was written gives the dictionary back exactly when its keys are in the alphabet and not __proto__, its strings trimmed and on one line, its lists not empty and without empty items |
| `Yaml.StepsStore` | public/assets/translator-worker.js:92-117 | whatever the text, everything stored has such a key and such strings |
| `Yaml.ProtoIsLost` | public/assets/translator-worker.js:102-105 | the value under the key __proto__ is not stored |
| `Stripe.RunsAreMaximal` | benchmarks/appLock/frames.py:43-53 | the runs recorded up to a pixel are the maximal coloured runs that end before it |
| `Stripe.RunsInOrder` | benchmarks/appLock/frames.py:43-53 | and they come in order, without overlap |
| `Stripe.FindStripe` | benchmarks/appLock/frames.py:37-54 | keeping only the last four runs finds the first window of four runs that meets the colour, width, ratio and gap bounds, and none exactly when there is none |
| `Stripe.MarkerIsPairwise` | benchmarks/appLock/frames.py:48-52 | the bounds on widths and gaps, run by run: no width is more than a quarter over another, and a gap over 2 pixels is a tenth of every width at most |
| `Stripe.RunsOfRow` | benchmarks/appLock/frames.py:37-54 | on a row that ends in an uncoloured pixel these are all its maximal coloured runs |
| `Stripe.RunsOfFrameRow` | benchmarks/appLock/frames.py:37-59 | with the uncoloured pixel added to a row of the frame, the runs searched are all the maximal coloured runs of the row itself |
| `Stripe.FindMarker` | benchmarks/appLock/frames.py:57-63 | the box comes from the first even row with such a window; the error is raised exactly when no even row has one |
| `HeapGrowth.AlignUpIsLeast` | public/assets/bergamot-translator-worker.js:2354 | the aligned size is the least multiple not below the argument |
| `HeapGrowth.AttemptsInRange` | public/assets/bergamot-translator-worker.js:2355-2358 | for every way of rounding that keeps the order and whole numbers, doubles among them: every size attempted is a multiple of 65536, at least the request and at most 2^31, and attempts never increase |
| `HeapGrowth.AttemptIsLeast` | public/assets/bergamot-translator-worker.js:2354-2358 | where nothing is rounded, in whole numbers: an attempt asks for the least multiple of 65536 that reaches the request and either the old size and a fifth of it over the cut or 96 MiB past the request, or for 2^31 |
| `HeapGrowth.Memory.Resize` | public/assets/bergamot-translator-worker.js:2347-2365 | for every request and every answer of the host to each attempt: at most three sizes are tried in order, a request over the maximum tries none, a size below the present length is always refused because its page count wraps around, and a successful growth ends at exactly the size tried |
| `HeapGrowth.Memory.Grow` | public/assets/bergamot-translator-worker.js:2339-2345 | the memory grows by the pages that the unsigned arithmetic gives, or not at all |
| `MarkerSearch.FindIndex` | benchmarks/sync-ui/driver.ts:177 | the first message with text that contains the marker |
| `MarkerSearch.SearchPage` | benchmarks/sync-ui/driver.ts:173-180 | one page of conversations, failing exactly when the running count passes 5000 |
| `Stamps.BeforeIsTotal` | crates/sync-wire/src/stamp.rs:51-56 | stamps are totally ordered, also by the bytes of the writer |
| `Stamps.IssueIsNext` | crates/sync-wire/src/stamp.rs:60-80 | the stamp issued is not before the wall clock, later than the last one issued and observed, and the earliest such; the only failures are an invalid writer and a counter past 32 bits |
| `Devices.Store.Reserve` | src-tauri/src/persistent_store/lww.rs:528-541 | a stamp is issued from the two clocks, later than both and not before the wall clock, and only a stamp issued moves one |
| `Devices.Store.Observe` | src-tauri/src/persistent_store/lww.rs:542-551 | the accepted clock ends at the latest stamp of the page or its own |
| `Replica.ExistencesFirstIsOwnersFirst` | src-tauri/src/persistent_store/lww.rs:2465-2494 | the rows of the query, by the text of their keys and then stably with existences first, are all the pending ones, none before one of an owner of its key |
| `Devices.Store.ApplyReceiveRows` | src-tauri/src/persistent_store/lww.rs:2445-2617 | the transaction over the rows of the query, sorted so, is the pass over the tables; every row of the query ends done, held or as it waits, as its owners are here or not; a failure leaves the tables as they were |
| `Outcomes.PassTakesUp` | src-tauri/src/persistent_store/lww.rs:2508-2587 | a row that is taken up ends done under a deleted owner; otherwise, if its key is not deleted, exactly as it waits, or done, where its owners were here, and held where one is missing |
| `Outcomes.PassOverPending` | src-tauri/src/persistent_store/lww.rs:73-73 | a pass takes up what was staged or held, and a drain what was deferred; every other row stays |
| `Outcomes.WaitingKeyStays` | src-tauri/src/persistent_store/lww.rs:2516-2523 | a key all of whose rows wait keeps its unit and what is queued of it, unless an owner of it is deleted |
| `Outcomes.AppliedChangeIs` | src-tauri/src/persistent_store/lww.rs:2524-2580 | what applying a change does, to its key, to what belongs to it if that is deleted for good, and to nothing else |
| `Outcomes.ConflictIsRaised` | src-tauri/src/persistent_store/lww.rs:2525-2540 | applying fails exactly where a change that is not skipped meets another value under its stamp |
| `Devices.Store.Receive` | src-tauri/src/persistent_store/lww.rs:2251-2291 | a page is staged, applied and observed, which is the step of the runs below; a failed application leaves it staged and unobserved |
| `Devices.Store.Drain` | src-tauri/src/persistent_store/lww.rs:2702-2715 | the pass over held and deferred rows, which is the step of the runs below |
| `Devices.Store.Commit` | src-tauri/src/persistent_store/lww.rs:781-815 | a stamp is reserved, and each edit of a key that is not retired, and whose owners the commit leaves, is written, queued and recorded under it if it changes anything, and nothing otherwise |
| `Devices.Store.RecordChanges` | src-tauri/src/persistent_store/lww.rs:781-815 | each edit of a key that is not retired, and whose owners the commit leaves, is written, queued and recorded under the stamp if it changes anything |
| `Outcomes.CommitWritesEdits` | src-tauri/src/persistent_store/lww.rs:797-810 | the same of the tables: the unit is the value edited to, under the stamp, queued as that and recorded, exactly if the value before was another |
| `Outcomes.RequeuedIs` | src-tauri/src/persistent_store/lww.rs:3802-3870 | the owners of a write that are here are queued or known to be published as they are, with one never queued before all its parts, and nothing else of the queue changes |
| `Devices.Store.Acknowledge` | src-tauri/src/persistent_store/lww.rs:2093-2125 | what was published leaves the queue only if it is still queued as published, and is known to be published only if it is still the unit |
| `Devices.AcknowledgedIs` | src-tauri/src/persistent_store/lww.rs:2093-2125 | key by key: what leaves the queue is what the page has as queued, what becomes known to be published is what the page has as the unit |
| `Convergence.ApplyIsFaithful` | src-tauri/src/persistent_store/lww.rs:2521-2580 | applying a change never meets two values under one stamp, and leaves the tables showing the latest delete of a deleted owner, of anything else the latest change, counted with this one |
| `Convergence.LatestIsShown` | src-tauri/src/persistent_store/lww.rs:2536-2575 | of a key with no deleted owner the latest change is shown if and only if the key was never deleted for good or its latest change is a delete |
| `Convergence.EarlierDeleteWins` | src-tauri/src/persistent_store/lww.rs:2536-2575 | a delete of an owner wins over a later write of it, and takes with it all that belongs to the owner |
| `Convergence.SupersededCount` | src-tauri/src/persistent_store/lww.rs:563-602 | tables that show what some changes determine show what more determine when those are superseded: by a later write, by the delete of the key, or by the delete of an owner |
| `Convergence.OnlyTheLaterArrives` | src-tauri/src/persistent_store/lww.rs:580-585 | two writes of one key of which only the later is delivered: the earlier is superseded |
| `Convergence.UnitsSupersede` | src-tauri/src/persistent_store/lww.rs:717-749 | the units of a table supersede every change that the table shows |
| `Convergence.PassDrains` | src-tauri/src/persistent_store/lww.rs:2702-2715 | a drain in which no row waits leaves none open if and only if the owners of every row are known, or there is nothing to do for it |
| `Convergence.SameChangesSameView` | src-tauri/src/persistent_store/lww.rs:2445-2617 | two copies that have applied the same changes, in any order, show the same units |
| `Network.IssuedIsFresh` | src-tauri/src/persistent_store/lww.rs:528-551 | the stamp of a commit is later than every change the device knows of |
| `Network.NewWritesAgree` | crates/sync-wire/src/unit.rs:128-137 | writers with different ids never put two values under one stamp |
| `Network.RunsAreValid` | crates/sync-wire/src/unit.rs:128-137 | over every run of commits, pages received in any order and any number of times, acknowledgements and drains, the rows taken up in any order and any of them waiting: equal-stamp-integrity is never raised |
| `Network.DevicesConverge` | src-tauri/src/persistent_store/lww.rs:2445-2617 | after every run, devices show the same units when what one has applied beyond the other is superseded there |
| `Network.DrainAppliesAll` | src-tauri/src/persistent_store/lww.rs:2702-2715 | a device applies all it has received in one drain, taken up owners first, if and only if the owners of its rows are known to it |
| `Network.EverythingArrives` | src-tauri/src/persistent_store/lww.rs:2702-2715 | after every run, a device that everything has reached but what is superseded, with the owners of its rows, drains to the latest delete or change of each key ever written, whatever was held or deferred there |
| `Network.DevicesEndAlike` | src-tauri/src/persistent_store/lww.rs:2702-2715 | so any two such devices show the same after draining |
| `Server.Library.Push` | server/sync/src/store/lww.rs:286-436 | a push finds the winners against the library as it was and takes them all up in one transaction, or fails and changes nothing |
| `Server.WinsLikeApply` | server/sync/src/store/lww.rs:286-353 | away from deleted owners a change wins at the server exactly when a device would apply it |
| `Server.PushIsFaithful` | server/sync/src/store/lww.rs:286-436 | a push, which has each key once, whose changes agree with all pushed before never fails, and leaves the library showing what all pushed changes determine, whatever their order and whichever they delete |
| `Server.PushFailsExactly` | server/sync/src/store/lww.rs:286-353 | a push fails if and only if one of its changes does not agree with those pushed before, taken up or not |
| `Server.PushKeepsClean` | server/sync/src/store/lww.rs:400-436 | of a deleted owner nothing is kept but what is deleted for good itself, also when owner and parts come in one push |
| `Sync.SystemsRun` | server/sync/src/store/lww.rs:286-436 | over every run of devices and pushes: neither a device nor the server meets two values under one stamp, and every unit of a device is queued or was published as it is |
| `Sync.RequeuedIsNothingNew` | src-tauri/src/persistent_store/lww.rs:3802-3882 | queuing the owners of a write again, with their parts, never adds to the queue of such a device |
| `Sync.WritesAreClosed` | src-tauri/src/persistent_store/lww.rs:781-815 | over every run whose commits have the owners of what they edit, or make them, every write has its owners among the writes, or a deleted one |
| `Sync.PushedCoverSent` | src-tauri/src/persistent_store/lww.rs:580-585 | at rest, each change that was never pushed is superseded by one that was, although a queue keeps one version of a key |
| `Sync.ReceivedCoverPushed` | server/sync/src/store/lww.rs:400-436 | at rest a device has, of all that was pushed, everything but what is superseded |
| `Sync.DrainedShowsWhatTheServerShows` | server/sync/src/store/lww.rs:400-436 | after any run with every queue empty and every device holding what the server keeps, the server shows what all writes ever made determine; a device drains completely if and only if the owners of its rows are known to it, and then shows what the server shows |
| `Sync.AllShowWhatTheServerShows` | server/sync/src/store/lww.rs:400-436 | so when the commits have their owners, every device drains to what the server shows |
| `MarkerSearch.FindMarker` | benchmarks/sync-ui/driver.ts:160-187 | for every way the lists are split into pages: every character and conversation is counted once, it fails exactly past 5000 conversations, and reports the first location in flat order, or none exactly when no message holds the marker |

## Left out

- The `TextDecoder` paths (bergamot-translator-worker.js:126-127, 217-219): a host library; the manual decoders are modelled for every length.
- Loading of WebAssembly, system calls, locale and time-zone tables, and the text substitution and padding of `strftime`: host services and formatting.
- JavaScript `Date`: dates are proleptic Gregorian triples, without time zones and without the special reading of years 0 to 99.
- `typeDependencies` and the errors about unbound types: a diagnostic table that the resolver only fills and clears.
- The check that a callback returns one converter per type: callbacks are modelled as returning the right number.
- Callbacks that register types other than the targets of their rule, and the null type as a target.
- `malloc` and `free`: the block given to a writer is a parameter, its alignment and its release are not modelled.
- The conversion of `ArrayBuffer` and signed byte arrays to bytes before they reach the wire type.
- `preservePointerOnDelete` and the revival of instances through `registeredInstances`, which nothing in the file fills.
- A `delayFunction` that runs the flush at once, and destructors that call back into JavaScript.
- The native destructor itself: only how often it runs.
- The compression and central directory of ZIP, SQLite and SHA-256: the archive is a map from entry to bytes backed by one file, the catalog a sequence of rows, and the hash any function of the bytes.
- The `files` table of aliases, the copy of the catalog inside the archive and the text of entry names, which are datatype values here.
- `Packs.Write`: sizes are unbounded, so the overflow checks of 64-bit sums are not modelled; every payload may have any size, not one of two.
- The `range` insertions and the matching of TypeScript nodes in the probe: which statements are wrapped is given with the tree.
- Statements wrapped inside the parameters of an instrumented function, which come before its body but are pushed after it.
- `Instrument.Visitor.Visit`: the inserted text is one opening or closing mark per statement, not its characters.
- The waiting between chunks of a digest and the hexadecimal form of its result.
- `FixturePlan.PlanFixture`: takes any integer, not `NaN` or a fraction, and the bytes of an object header as a parameter of at most 5; MessagePack values are modelled by the lengths of their strings.
- Numbers and booleans in the YAML writer, which are written as their text and never read back as such.
- `HeapGrowth.AlignUp`: its own operations are exact; the rounding modelled is that of the product before it.
- `Stripe.FindStripe`: the factors 1.25 and 0.1 are compared as exact fractions.
- `Stripe.FindMarker`: the factor .75 of the box height is an exact fraction.
- `MarkerSearch.FindMarker`: the store answers the same pages throughout the search; cursors are positions in the lists of pages.
- The projection of units to the library, message generation but for deferring, and device units.
- `Devices.Store.ApplyReceiveRows`: which rows wait is given, not computed: those of a message being generated or of an archived character, and those that archive or restore one before the device has done so.
- `Devices.Store.Receive`: the archiving and restoring that comes before the pass, a page asked for again after it was finished, a failure between applying a page and observing its stamps, and the refusal of stamps too far ahead of the clock, after which the page counts as not received.
- `Devices.Store.Drain`: the archiving and restoring that comes before the pass.
- `Devices.Store.RecordChanges`: the owners that a value names (the selected persona and preset) are given with the edit.
- `Server.Library.Push`: the checks of the device, its clock and the library's format, and operations asked for again.
- The server's journal, its cursors and pins, and the parts of a publication proof that are not key, stamp and value: devices receive pages of anything ever pushed, in any order and any number of times.
- A device that moves to another library, with the queuing of all its units for it, and rows held from a restored backup, which are the device's own.
- Repair of unpublished writes under a corrected clock, and a device that takes a new writer id.
- Pruning of receive rows, and collisions of the hash that identifies a value.
- `redact` in the driver and the other benchmark drivers: string replacement and user-interface automation.
