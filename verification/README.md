# A model of the memory profilers of mem-manager, with proofs

mem-manager wraps the shared-memory calls of its platform and profiles them; beside it,
mem_trace profiles every allocation of a process. This project models the parts of both
that keep state or transform data, and proves what their answers mean - for every input,
every run and, where threads are involved, every interleaving. Nothing here is executed.

    dafny verify dfyconfig.toml --resource-limit 2000000 --verification-time-limit 0

| module | what it models |
|---|---|
| `LiveTable`, `Accounting`, `Profiler` | the control-plane live set (a growable hash table with tombstones), the counters on top of it, and the object that holds both |
| `SpinLock` | any number of threads in the control-plane profiler and its exit handler, step by step |
| `ShmWrappers` | the wrappers: an OS call first, its record afterwards, other threads in between |
| `EventText`, `EventBuffer` | the data-plane events as text, and the bounded buffer that prints them |
| `JsonScan`, `JsonReader`, `JsonDecode`, `JsonObjects`, `JsonValues`, `JsonShape`, `LogUnwrap` | finding an event in a dirty log line, the JSON reader, reading an event's fields and any object back, how scanner and reader agree and what can never be read, the line reader |
| `Correlate`, `Agreement` | the offline replay of the log, and how it compares with the online counters |
| `DataPlaneLog`, `JsonLines` | the two planes end to end: events printed, cut by their buffers, put into a log or file, read back and replayed |
| `TraceTable`, `StackIntern`, `ByteSampling`, `TraceOrdering`, `Residency` | mem_trace: its lossy sharded table, the call-stack interner, the sampler, the order of its two steps per call, the resident-page count |
| `RssAttribution` | the split of resident bytes over recorded mappings |
| `Probing`, `MapSums`, `Sorting`, `Arithmetic`, `Wrappers` | shared vocabulary |

Hash functions are parameters everywhere, so every result holds for any hash. The tables
have a power of two of slots (an invariant of `LiveTable`, a constant in the other two),
which is why the source's masks are written as remainders.

## Where the code stops short

Each of these is shown by a lemma below. The lemma named says when the code is right after
all: exactly when, where it reads "if and only if"; the error of the sampler is bounded
instead, and the bounds are reached.

- Re-mapping a live address adds its new size to `live_bytes` without taking the old one
  off. The online byte peak can then exceed the replay's, by at most the bytes replaced; the
  two are equal if and only if the online peak was reached, at some moment, before any bytes
  had been replaced (`Agreement.OnlineAndReplayAgree`).
- The wrappers record after the OS call. An address handed out again before its unmap was
  recorded, an unmap that fails, or an address mapped twice and unmapped once leaves a
  mapped region outside the live set. With no call in flight the two agree if and only if
  the last record made of each mapped address is a map's (`ShmWrappers.LiveSetWhenQuiescent`).
- `mremap` moves the mapping before it deletes the entry. While it is between the two, an
  unsampled owner of its old address can carry the stale record, or a sampled one lose its
  own; a failing `realloc` or `munmap` keeps its region but forgets its record. The table is
  faithful if and only if the old addresses still tracked are, so whenever no `mremap` is in
  flight (`TraceOrdering.TrackedIsOwned`), and an allocation is tracked if and only if it was
  recorded and is not among those forgotten (`TraceOrdering.RecordedStaysTracked`).
  (tools/MEM_TRACE.md:144 says the table always holds what is alive now; the code, which
  this model follows, does so only within these limits.)
- A shard of mem_trace whose NULL slots are used up drops every new address for ever;
  tombstones do not help (`TraceTable.Shard.Put`, `TraceTable.SaturatedForever`). It takes
  exactly 16384 different addresses to get there (`TraceTable.LostBeyondTheLimit`).
- The interner's probe never ends on a new stack once all 65536 slots are taken; the
  capacity test inside the loop is behind a condition that is then false
  (`StackIntern.ProbeEndsIff`).
- A thread other than the initialising one starts its sampling countdown at 0 and may
  over-count by up to one interval, as its first malloc(0) does (`ByteSampling.SamplingError`,
  `ByteSampling.SamplingErrorIsTight`).
- The interval search of the RSS split gives up 2^34 bytes below a region: it misses a
  record if and only if the record lies below one at which it stops, which takes a record
  larger than that with another one inside it (`RssAttribution.SearchCompleteIff`). Bytes
  that two records cover are attributed twice; what is left over is exactly the uncovered
  bytes' share if and only if there are none (`RssAttribution.RegionLeavesUncoveredIff`).
- Records of one process with equal timestamps are replayed in file order, and the report
  can depend on that order. It depends on nothing else: neither on how the processes' records
  are interleaved nor on the order of different times (`Correlate.ReportIgnoresInterleaving`).
  A process's records sort alike if and only if those of each time come in the same order
  (`Sorting.SortsAlikeIff`).
- A data-plane event behind a log prefix comes back if and only if its names have no control
  characters other than \n, \r, \t and it fits its buffer, which a plain map with a name of
  up to 199 characters always does (`DataPlaneLog.PrefixedReads`, `EventText.MapCallFits`).
  With nothing but blanks before it, the line is taken for pure JSON: then nothing but blanks
  may follow it either, and the record has neither process nor time
  (`DataPlaneLog.BareReads`). Another module's line is ignored if and only if it is not a JSON
  object itself (`DataPlaneLog.ForeignReads`).
- What is left of a cut event can still be read if foreign text follows: cut inside the digits
  of its address it is replayed as a map at an address never mapped
  (`DataPlaneLog.CutAddressIsMisread`).
- A control-plane line of more than 2047 characters loses its line break and takes the next
  line with it: an event comes back if and only if its names are clean, the line before it
  fits, and its own line fits too or is the last of the file and lost no more than its line
  break (`JsonLines.FileReadsBack`).

## Model

| member | source | states |
|---|---|---|
| LiveTable.PlaceIsInsert | src/profiler/shm_profiler.c:406-415 | filling any unused slot that the key's probe reaches without an empty slot, tombstone or not, is map insertion and keeps keys unique and probe paths unbroken |
| LiveTable.TombIsRemoval | src/profiler/shm_profiler.c:435-441 | turning a used slot into a tombstone is map removal and breaks no probe path |
| LiveTable.EmptySlotExists | src/profiler/shm_profiler.c:389-405 | while used slots and tombstones do not fill the table an empty slot exists, the measure that ends every unbounded probe loop |
| LiveTable.CountIsMapSize | src/profiler/shm_profiler.c:340-345 | the used-slot count is the number of keys of the map |
| LiveTable.Table.constructor | src/profiler/shm_profiler.c:355-360 | an empty map in 64 slots, invariant established |
| LiveTable.Table.Grow | src/profiler/shm_profiler.c:362-380 | twice the capacity, the same map, no tombstones, room below the load limit; the rehash loops end |
| LiveTable.Table.Probe | src/profiler/shm_profiler.c:387-405 | ends at the key itself or at an empty slot that proves it absent, and remembers exactly the first tombstone passed, the slot the entry may go to |
| LiveTable.Table.Put | src/profiler/shm_profiler.c:382-416 | is map update on the live set, growing or not, re-map or new, and keeps the load invariant |
| LiveTable.Table.Find | src/profiler/shm_profiler.c:418-433 | finds the slot of a key exactly if the map has it, with the map's value |
| LiveTable.Table.Erase | src/profiler/shm_profiler.c:435-441 | removes exactly the entry's key from the map |
| Accounting.LiveBytesConserved | src/profiler/shm_profiler.c:515-524 | over every run live_bytes is, modulo 2^64, the sizes still live plus the sizes that re-maps replaced |
| Accounting.LiveBytesExact | src/profiler/shm_profiler.c:554-580 | up to 2^32 events, or below 2^64 bytes mapped, nothing wraps and the subtraction on unmap never underflows |
| Accounting.PeakCountIsMaximum | src/profiler/shm_profiler.c:518-520 | peak_count is the largest live count over all prefixes of the run |
| Accounting.PeakBytesIsMaximum | src/profiler/shm_profiler.c:521-523 | peak_bytes is the largest live_bytes over all prefixes of the run |
| Accounting.EveryMapAccountedFor | src/profiler/shm_profiler.c:511-581 | accepted maps = matched unmaps + re-maps + live entries; unmaps = matched + unmatched |
| Accounting.CountersCountCalls | src/profiler/shm_profiler.c:511-514 | the call counters are the numbers of map calls, failed map calls and unmap calls |
| Accounting.LiveIsLatestMap | src/profiler/shm_profiler.c:515-577 | an address is live exactly if the last event to touch it was an accepted map, and its entry is that event's name, size and time |
| Accounting.NullNeverLive | src/profiler/shm_profiler.c:515-516 | NULL never enters the live set |
| Accounting.HitIsLatestMap | src/profiler/shm_profiler.c:554-567 | a matched unmap's line has the name and size of the last map of its address and the time since, and an unmap is matched exactly if that map was the last event to touch the address |
| Accounting.ExitLinesAreLatestMaps | src/profiler/shm_profiler.c:588-599 | there is one exit line for each address that a map was the last event to touch, with that map's name and size, and its age at exit |
| Accounting.SummaryIsExact | src/profiler/shm_profiler.c:600-615 | field by field: the peaks are the maxima over all prefixes of the events, the call counts are the numbers of events, unmatched is the unmaps less the matches, still_live the live entries |
| Profiler.Recorder.OnMap | src/profiler/shm_profiler.c:498-544 | the object's whole new state is the accounting step, set up on first use, and the log gains exactly the event's line if the file is open |
| Profiler.Recorder.OnUnmap | src/profiler/shm_profiler.c:546-582 | the same for an unmap, in both the logging and the silent branch |
| Profiler.Recorder.AtExit | src/profiler/shm_profiler.c:584-621 | one line for each live entry, none twice, none missing, then the summary with each counter in its field, and the file is closed |
| SpinLock.EveryRunInv | src/profiler/shm_profiler.c:22-30 | every interleaving of every number of threads keeps mutual exclusion, the counters equal to a sequential replay, the log equal to that replay's log, and the exit handler's lines equal to the live entries it has passed |
| SpinLock.NeverTwoInside | src/profiler/shm_profiler.c:22-30 | no two threads are past the lock at once in any run |
| SpinLock.HistoryIsTheCalls | src/profiler/shm_profiler.c:498-505 | in every interleaving each event has all that one call was given and the time that this call read; no two events are of one call, every call that returned has one, and they are in the order of the clock readings and, for each thread, of its calls |
| SpinLock.LogCarriesReplayedCounts | src/profiler/shm_profiler.c:492-495 | at any time, the k-th line, if an event's, carries the live_count and live_bytes of the sequential replay of the first k events, and the name, size and lifetime of the entry it took out |
| SpinLock.ExitAccountsForEveryLiveEntry | src/profiler/shm_profiler.c:584-621 | after the exit handler, which writes one line a step, the log is the replayed events, the exit lines of the last maps and the exact summary, all with the time that the handler's call read |
| SpinLock.LoggedInTimeOrder | src/profiler/shm_profiler.c:500-505 | as the clock is read inside the lock, a clock that never goes back gives a log in time order |
| ShmWrappers.LiveSetExact | src/platform_shm.c:9-37 | in every disciplined interleaving, at every moment: live set = mapped less maps not yet recorded, plus unmaps not yet recorded |
| ShmWrappers.LiveSetWhenQuiescent | src/platform_shm.c:9-37 | in any interleaving, reference-counted maps of one address included, with no call in flight all that is live is mapped, and the live set is the mapped set if and only if the last record of each mapped address is a map's |
| ShmWrappers.RecordsAreTheCalls | src/platform_shm.c:9-37 | in any interleaving each record is that of one OS call, with all it was given and answered; none is recorded twice, all but those in flight are, and each thread's are in order |
| ShmWrappers.ReusedAddressIsLost | src/platform_shm.c:31-37 | a run in which an address reused before its unmap was recorded ends up mapped and not live |
| ShmWrappers.FailedUnmapIsLost | src/platform_shm.c:31-37 | a run in which one failed unmap takes a mapped region out of the live set |
| ShmWrappers.SharedAddressIsLost | src/platform_shm.c:31-37 | a one-thread run without failures in which an address mapped twice and unmapped once ends up mapped and not live |
| EventText.MapFits | src/profiler/shm_profiler.c:166-186 | with 64-bit addresses a map event of any op and pgname is never truncated if the two names have at most 190 characters, whatever must be escaped |
| EventText.MapCutIff | src/profiler/shm_profiler.c:166-186 | an event is truncated if and only if its names, the escapes in them and its digits together exceed 452 characters |
| EventText.MapCallFits | src/platform_shm.c:9-16 | the events of the data plane's own calls, plain maps without pgname, fit with names of up to 199 characters |
| EventText.MapCallMayNotFit | src/profiler/shm_profiler.c:166-186 | with 200 they can be too long |
| EventText.UnmapFits | src/profiler/shm_profiler.c:195-202 | an unmap event is never truncated |
| EventBuffer.Buf.Raw | src/profiler/shm_profiler.c:41-50 | the buffer holds exactly the part of everything appended so far that fits |
| EventBuffer.Buf.Numeric | src/profiler/shm_profiler.c:67-107 | the two digit loops print the numeral of the value and stay inside their local array; which value that is, ParseInt and PtrReadsBack say |
| EventBuffer.Buf.I64 | src/profiler/shm_profiler.c:82-89 | prints every 64-bit integer, the smallest included, without overflow |
| EventBuffer.Buf.Json | src/profiler/shm_profiler.c:109-123 | appends the escaped string |
| EventBuffer.Buf.Finish | src/profiler/shm_profiler.c:156-159 | what is printed of the buffer is the longest prefix that leaves room for the NUL |
| EventBuffer.DataPlane.OnMap | src/profiler/shm_profiler.c:161-189 | logs exactly the first 511 characters of the event's text, and nothing for a call nested in the log |
| EventBuffer.DataPlane.OnUnmap | src/profiler/shm_profiler.c:191-205 | logs exactly the event's text, and nothing for a nested call |
| JsonScan.JsonObjectEnd | tools/analyze_profile.py:134-159 | returns the one position at which the object closes, -1 exactly if it never does |
| JsonScan.EscFeed | tools/analyze_profile.py:142-150 | escaped text never leaves its string, whatever quotes, backslashes and braces it has |
| JsonScan.MapTextOpen | src/profiler/shm_profiler.c:167-185 | a map event is open and outside strings up to its last brace, for all names |
| JsonScan.UnmapTextOpen | src/profiler/shm_profiler.c:195-201 | the same for an unmap event |
| JsonScan.ClosesAtItsEnd | tools/analyze_profile.py:134-159 | an event followed by any text is found to end exactly at its own end |
| JsonScan.PrefixNeverCloses | tools/analyze_profile.py:134-159 | no proper prefix of an event is accepted |
| JsonScan.CutEventCanBeClosed | tools/analyze_profile.py:134-159 | what is left of a cut event can be closed by text without an opening brace if and only if it is not empty - between members, inside a string or after a backslash; the closing text is given |
| JsonDecode.ParseEsc | src/profiler/shm_profiler.c:109-123 | a string printed and read (section 7 of RFC 8259) comes back if and only if it has no control characters but \n, \r, \t |
| JsonDecode.ParseInt | src/profiler/shm_profiler.c:67-89 | an integer printed and read (section 6 of RFC 8259) comes back |
| JsonDecode.MapRoundTrip | src/profiler/shm_profiler.c:161-189 | decoding a map event gives all its fields back for clean names, a NULL name as the empty one, and nothing otherwise |
| JsonObjects.ObjectRoundTrip | src/profiler/shm_profiler.c:315-328 | any flat object of strings, integers and truth values comes back if and only if its strings are clean |
| JsonValues.ObjectReads | tools/analyze_profile.py:219-224 | any JSON object with clean strings, nested at will and with any blanks between its tokens, is read with all its members, the later of equal keys winning |
| JsonShape.ReaderAndScannerAgree | tools/analyze_profile.py:134-159 | where json.loads reads an object, the brace scanner finds its end whatever text follows, only blanks are behind that end, and no shorter text would have been read |
| JsonShape.PrefixNotRead | tools/analyze_profile.py:170-177 | no proper prefix of an event is read |
| JsonShape.NeverRead | tools/analyze_profile.py:219-224 | no text is read, with white space, nesting or whatever else, in which a raw control character stands inside a string, or another line of the profiler's begins inside one (section 7 of RFC 8259) |
| JsonShape.NotReadFrom | tools/analyze_profile.py:219-224 | nor one in which such a line begins inside a string or behind the object's end |
| JsonShape.OpenNotRead | tools/analyze_profile.py:219-224 | a text that leaves an object open is not read, and neither is any part from its start |
| LogUnwrap.UnmapRoundTrip | src/profiler/shm_profiler.c:191-205 | decoding an unmap event gives its address and ret back |
| LogUnwrap.MapTextIsOneLine | src/profiler/shm_profiler.c:109-123 | no name puts a line break into an event |
| LogUnwrap.PtrReadsBack | src/profiler/shm_profiler.c:91-107 | a printed address is 0x and the shortest lower-case hexadecimal numeral of its value |
| LogUnwrap.PtrInjective | src/profiler/shm_profiler.c:91-107 | so different addresses print differently |
| LogUnwrap.PrintedAddrIsReal | tools/analyze_profile.py:115-124 | a printed address counts as real exactly if it is not NULL |
| LogUnwrap.RealIffNotZero | tools/analyze_profile.py:112-124 | any hexadecimal address, in either case and with or without 0x, counts as real if and only if it is not zero |
| LogUnwrap.UnwrapPayload | tools/analyze_profile.py:162-179 | decodes exactly the text that Extract singles out, with a reader for all of JSON, or nothing |
| LogUnwrap.ExtractsTheEvent | tools/analyze_profile.py:168-179 | from a tagged line with any brace-free prefix and any text behind, exactly the event is taken out |
| LogUnwrap.MapSurvivesTheLog | tools/analyze_profile.py:162-179 | printed through its 512-byte buffer, embedded, extracted and decoded, a map event gives back every field if its names are clean and it was not cut, and nothing otherwise |
| LogUnwrap.TruncatedEventIsDropped | tools/analyze_profile.py:170-175 | a truncated event with nothing behind it gives no record |
| LogUnwrap.LoadRecords | tools/analyze_profile.py:202-231 | the loop over a file's lines: each is stripped, decoded whole if it begins with a brace and unwrapped if not; unreadable lines of the first kind are counted |
| LogUnwrap.StampFillsIn | tools/analyze_profile.py:180-197 | a record keeps a process and time of its own; the line's are taken where it has none |
| Correlate.GroupByPid | tools/analyze_profile.py:241-244 | each pid's records in file order, the pids in order of first occurrence |
| Correlate.ReplayPid | tools/analyze_profile.py:252-281 | the loop over one process's events computes the replay |
| Correlate.Correlate | tools/analyze_profile.py:235-293 | the report merges the replays of all groups, lifetimes in order; ReportBooks, ReportPeaks and ReportLists say what it then is |
| Correlate.ReplayBooks | tools/analyze_profile.py:266-285 | at every step cur_bytes is the sum of the live sizes, accepted maps = matched + overwritten + never freed, and unmaps = matched + unmatched |
| Correlate.PeakBytesIsMaximum | tools/analyze_profile.py:269-271 | the replay's peak_bytes is the largest cur_bytes after any prefix |
| Correlate.PeakCountIsMaximum | tools/analyze_profile.py:269-270 | its peak_count is the largest number of live entries after any prefix |
| Correlate.LiveIsLatestMap | tools/analyze_profile.py:257-275 | an address is live exactly if the last record to touch it was an accepted map, with that record's size, time, name and flags |
| Correlate.UnmapTakesLatestMap | tools/analyze_profile.py:273-281 | an unmap is matched exactly if an accepted map was the last to touch its address, and its lifetime has that map's size and flags and the time since |
| Correlate.UnfreedAreLatestMaps | tools/analyze_profile.py:282-284 | never freed are exactly the maps that are the last to touch their address, each with its name, size and flags and its age at the last time there is |
| Correlate.ReportBooks | tools/analyze_profile.py:247-293 | over any processes: unmap records = matched + unmatched; accepted maps = matched + overwritten + never freed |
| Correlate.ReportPeaks | tools/analyze_profile.py:247-271 | each reported peak is the largest of the processes' own, 0 if there is none |
| Correlate.ReportLists | tools/analyze_profile.py:278-284 | every lifetime and every never-freed map is reported as often as it occurs over the processes |
| Correlate.ReportIgnoresInterleaving | tools/analyze_profile.py:241-293 | two streams in which each process's records of one time come in the same order give the same report, however else they are ordered |
| Correlate.ReportIgnoresOrder | tools/analyze_profile.py:241-293 | so with distinct times within each pid it depends only on the multiset of records |
| Correlate.EqualTimesDependOnOrder | tools/analyze_profile.py:252 | the order at one time matters: a map and its unmap are matched in one order only |
| DataPlaneLog.PrefixedReads | tools/analyze_profile.py:227-229 | behind a prefix that is not blank, what the data plane logs for an event reads back as its fields with the line's process and time if the names are clean and the event fits its buffer, whatever stands behind it, and as nothing if not |
| DataPlaneLog.BareReads | tools/analyze_profile.py:219-224 | with only blanks before it, it reads back as its fields alone if besides only blanks follow, and as nothing if not |
| DataPlaneLog.ForeignReads | tools/analyze_profile.py:216-230 | a line without the tag gives nothing, unless it is a JSON object: then itself |
| DataPlaneLog.LineReadsBack | tools/analyze_profile.py:216-230 | so exactly what each line gives is known, as the record the replay works on |
| DataPlaneLog.LogReadsBack | tools/analyze_profile.py:202-231 | a whole log, other modules' lines included, gives what its lines give, in order |
| DataPlaneLog.LogAgrees | tools/analyze_profile.py:235-293 | if no event stands alone on its line and no foreign line is a JSON object with an event, the report agrees with an online accounting of the events that come back, which are all events if and only if each is readable and has a prefix |
| DataPlaneLog.ShortCleanNamesAreReadable | src/profiler/shm_profiler.c:161-205 | unmap events are always readable, and maps with clean names of up to 199 characters |
| DataPlaneLog.CutMapCanBeRead | tools/analyze_profile.py:168-177 | what is left of a cut map event on its tagged line is read as a record, for some text behind it, if and only if it has no control character |
| DataPlaneLog.CutAddressIsMisread | tools/analyze_profile.py:168-177 | cut by its buffer inside the address on a tagged line, with a quote and a brace behind it, an event is replayed as a successful map of no bytes at an address never mapped |
| JsonLines.BodyReadsBack | src/profiler/shm_profiler.c:525-574 | a control-plane line reads back if and only if its names are clean, with each of the event's and the thread's values, both counts and the entry taken out under their keys |
| JsonLines.FileReadsBack | tools/analyze_profile.py:216-224 | a file, its last line cut or not, reads back as the records, all fields included, of exactly the rows that are clean, not behind a cut line and not cut themselves but for the last line break; so all come back if and only if every row is whole |
| JsonLines.FileTellsTheRun | src/profiler/shm_profiler.c:492-582 | each line that comes back says the live entries and live_bytes of the run up to its event, and the name, size and lifetime of the entry taken out; in a whole file it is the n-th record |
| JsonLines.BadLinesAreLost | tools/analyze_profile.py:219-224 | the analyser's count of bad lines is the number of lines that end with a row which was cut, is behind a cut one or is not clean |
| JsonLines.ClosingLineReadsBack | src/profiler/shm_profiler.c:588-615 | an exit line reads back if and only if its name is clean, the summary always, with every value under its key; the replay ignores both |
| JsonLines.FileAgrees | tools/analyze_profile.py:235-293 | the report on the file agrees with an accounting of the events that come back, which are all - so it agrees with the accounting that wrote the file - if and only if every row is whole |
| Agreement.OnlineAndReplayAgree | tools/analyze_profile.py:235-293 | for any time-ordered stream of one process, with the records of either plane, online accounting and replay have the same matched and unmatched counts, lifetimes, peak count and final live set; the online byte peak exceeds the replay's by at most the bytes re-maps replaced, and equals it if and only if it was reached before any were |
| Agreement.NoRemapSamePeak | src/profiler/shm_profiler.c:515-524 | that condition holds if no live address was mapped again |
| Agreement.RemapRaisesOnlinePeak | src/profiler/shm_profiler.c:517 | mapping n bytes twice at an address gives the peaks 2n and n |
| TraceTable.Shard.Put | tools/mem_trace.c:177-202 | is map update exactly if the address is tracked or a NULL slot is left, a dropped put otherwise; uses up at most one NULL slot |
| TraceTable.Shard.Del | tools/mem_trace.c:205-221 | always removes the address, frees no NULL slot, and returns 1 exactly if it was tracked |
| TraceTable.Allocations.Put | tools/mem_trace.c:177-202 | a put touches the shard of its address only |
| TraceTable.Allocations.Del | tools/mem_trace.c:205-221 | a delete touches the shard of its address only |
| TraceTable.EachSlotHasOneHash | tools/mem_trace.c:180-184 | each pair of shard and home slot belongs to exactly one value of the hash's low 20 bits |
| TraceTable.AlwaysASubMap | tools/mem_trace.c:177-221 | over every run of puts and deletes all that is tracked is what an ideal table has |
| TraceTable.NothingLostEarly | tools/mem_trace.c:177-202 | a shard loses nothing in its first 16384 puts |
| TraceTable.LostBeyondTheLimit | tools/mem_trace.c:177-202 | in every run that only puts different addresses of one shard the first 16384 are tracked and no other |
| TraceTable.RunOf | tools/mem_trace.c:177-202 | for every hash and any puts there is such a run |
| TraceTable.SaturatedForever | tools/mem_trace.c:185-199 | a shard without NULL slots never has one again and tracks no new address |
| StackIntern.ProbeEndsIff | tools/mem_trace.c:157-174 | some slot ends the probe if and only if the table is not full or has the stack; behind an empty slot the capacity test is never true |
| StackIntern.Interner.Intern | tools/mem_trace.c:146-175 | the id's stack is the argument; a known stack changes nothing, a new one is appended |
| StackIntern.IdsIdentifyStacks | tools/mem_trace.c:146-175 | over any calls, two ids are equal if and only if the stacks are, and every id keeps its stack |
| ByteSampling.Sampler.Weigh | tools/mem_trace.c:227-233 | the countdown and weight of one allocation |
| ByteSampling.WeightIsSamples | tools/mem_trace.c:230-232 | the weight given is one interval for each sample |
| ByteSampling.CountdownBooks | tools/mem_trace.c:228-233 | the countdown's books, for any starting value up to the interval: each sample stands for at most two intervals less two bytes |
| ByteSampling.SamplingError | tools/mem_trace.c:228-233 | with n samples of weight W and B bytes: W <= B <= 2W - 2n + S - 1 for the first thread and W - S <= B <= 2W - 2n for later ones, over any run |
| ByteSampling.SamplingErrorIsTight | tools/mem_trace.c:228-233 | all four bounds are reached, the upper ones for every number of samples |
| ByteSampling.LargeExact | tools/mem_trace.c:228-229 | allocations of at least the interval are weighed exactly |
| TraceOrdering.TrackedIsOwned | tools/mem_trace.c:359-439 | in every interleaving, mremap included, a tracked address that is not the old address of an mremap in flight is allocated and its record is the present owner's; the whole table is faithful if and only if those old addresses are |
| TraceOrdering.UnsampledHasNoEntry | tools/mem_trace.c:224-241 | an allocation that is not sampled has no entry, unless an mremap has still to delete it |
| TraceOrdering.RecordedStaysTracked | tools/mem_trace.c:376-439 | in every interleaving, failing calls and mremap included, an allocation not on its way out is tracked if and only if it was recorded and its record was not lost by its own failing call or a late mremap deletion |
| TraceOrdering.SampledStaysTracked | tools/mem_trace.c:224-251 | so, in terms of the calls: what is at an address was put there by one call, and is tracked if and only if that call's record step was sampled and its record not lost |
| TraceOrdering.MremapIsUnfaithful | tools/mem_trace.c:432-439 | a run with mremap in which an unsampled mapping has another's record |
| TraceOrdering.MremapForgetsTheNewOwner | tools/mem_trace.c:432-439 | a run in which mremap's late deletion loses the record of the next owner of its old address |
| TraceOrdering.FailedReallocIsForgotten | tools/mem_trace.c:384-387 | a run in which a failed realloc keeps a recorded block that is no longer tracked |
| Residency.PagesAreThoseThatMeet | tools/mem_trace.c:271-273 | the pages counted are exactly those that meet the region |
| Residency.WindowCounts | tools/mem_trace.c:276-282 | a window counted at once is the window counted page by page |
| Residency.ResidentBytes | tools/mem_trace.c:267-284 | page size times the number of resident pages in windows that are fully mapped, at most size + 2 * (page size - 1) |
| RssAttribution.ScanCompleteIff | tools/analyze_mem_trace.py:207-221 | the descending scan finds exactly the overlapping records if and only if it does not stop above one of them |
| RssAttribution.SearchCompleteIff | tools/analyze_mem_trace.py:206-221 | the search, bisection included, finds exactly the overlapping records if and only if it does not stop above one of them |
| RssAttribution.SearchComplete | tools/analyze_mem_trace.py:206-221 | so it does if no record exceeds 2^34 bytes, or the records are disjoint and not empty, of whatever size |
| RssAttribution.LargeRecordMissed | tools/analyze_mem_trace.py:212-214 | it misses a larger record that another one lies in |
| RssAttribution.FindHits | tools/analyze_mem_trace.py:206-221 | the inner loop computes that scan and the bytes covered |
| RssAttribution.AttributeRss | tools/analyze_mem_trace.py:198-225 | each stack's share, and conservation: attributed + unattributed = total, less regions without a positive length |
| RssAttribution.AttributionIsFair | tools/analyze_mem_trace.py:198-223 | for records in any order, if no region has a hidden record, each stack gets exactly its pro rata share of every region |
| RssAttribution.RegionIsFairIff | tools/analyze_mem_trace.py:222-223 | a region with resident bytes is split fairly over all stacks if and only if it has no hidden record |
| RssAttribution.OverlapsAreBytesIff | tools/analyze_mem_trace.py:217-220 | the overlaps add up to the number of covered bytes if and only if no byte is covered twice |
| RssAttribution.RegionLeavesUncoveredIff | tools/analyze_mem_trace.py:224 | a region leaves over at most its uncovered bytes, and exactly those if and only if no byte is covered twice |
| RssAttribution.DisjointRecordsLeaveTheRest | tools/analyze_mem_trace.py:198-224 | for disjoint records in any order the unattributed part is never negative, and for non-empty ones it is the uncovered bytes' share of all regions |
| RssAttribution.OverlappingRecordsOvercount | tools/analyze_mem_trace.py:224 | two records at different addresses that share bytes make it negative |
| Sorting.SortDependsOnElements | tools/analyze_profile.py:252 | the stable sort of distinct keys depends only on the elements |
| Sorting.SortsAlikeIff | tools/analyze_profile.py:252 | two sequences sort alike if and only if their elements of each key come in the same order |

## Left out

- LiveTable: allocation failure and the overflow of the capacity itself; memory ordering below sequential consistency.
- Accounting: the call counters are unbounded integers; only live_bytes wraps.
- Profiler: its JSONL lines are values; module JsonLines has their text. File I/O and path building are not modelled.
- ShmWrappers: what the OS's reference counts count across processes; a map answered with a mapped address is simply allowed.
- JsonReader: a u-escape of a surrogate stands for U+FFFD and pairs are not joined; nesting and integers have no limit; fractions keep their text.
- LogUnwrap: characters stand for themselves (no UTF-8 decoding) and only ASCII white space is stripped; time and identity are given with a line, and its prefix expressions are not modelled.
- DataPlaneLog: an event that another thread logs at the same time is dropped by the emitter (DataPlane.OnMap) and is not in the log; text behind a cut event is the matter of the two lemmas on cut events only.
- JsonLines: pieces of a line pass through a 256-byte buffer of their own, which none exceeds; a numeric pid stands for itself as text; the exit handler's lines are read one by one and are not in the file.
- Correlate: the order of the never-freed list is arbitrary; JSON values of unexpected types and negative sizes are not modelled.
- Agreement: the flags that the replay reports with a lifetime have no online counterpart.
- TraceTable: a shard's calloc does not fail; the mutexes make each call one step.
- TraceTable.Shard.Put: only for addresses above 1, the two markers, which no allocator returns.
- StackIntern.Interner.Intern: called only where the loop ends, which ProbeEndsIff shows to be needed; the tables are allocated up front, and stacks of any depth are allowed.
- ByteSampling: the interval fits the signed countdown; an allocation chosen but not stored (no stack, full shard) still has its weight.
- TraceOrdering: MAP_FIXED, partial munmap, the recursion guard and the bootstrap allocator; a failing mremap touches nothing and is no step.
- Residency: the kernel's answers do not change during the count; the page size is any positive number.
- RssAttribution: exact rationals instead of floating point.
- Report printing, symbol resolution, log-prefix expressions, dump formatting, signals, tools/crosscheck_os_log.py and the pool allocator of step 2, which exists only as a design.
