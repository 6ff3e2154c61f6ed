# Verified models of IceTray data classes and frame I/O

Six parts of the IceTray software, each modelled in the form its C++ has and
related by proof to what it is for.

**Pulse masks** (`Pulses`, `MaskAlgebra`, `MaskOps`, `MaskApply`, `MaskEdits`,
`MaskChain`, `PackedBits`, `Bitmasks`, `BitmaskLists`, `BitmaskCollapse`,
`BitmaskArchive`, `PulseMasks`). A mask over a map from DOM keys to pulse
vectors keeps one bit per key and, only for keys whose bit is on, a packed byte
bitmask in a list, so that a list position is the rank of a key bit. The
*dense* form of a mask, one row of bits per key, is the set of (key, pulse)
pairs it stands for. `Mask` is the two-level form as a value; `Bitmask` and
`PulseMask` are the objects, with their buffers in arrays. Every object method
is tied to a function on values, and that function to the dense form.

**Time** (`Calendar`, `LeapSeconds`, `UtcTime`). A time is a year and a count of
tenths of a nanosecond since its start, leap seconds included. The leap-second
table is a parameter: any strictly increasing list of days. The `Abs` count of a
time, the lengths of all years before it plus its own ticks, is the reference
for order, difference and offset. The formulas with decimal constants are read
in exact arithmetic.

**Time windows** (`TimeWindows`). Sorted lists of half-open windows; `In` says
which times a list contains. Times range over the reals and both infinities.

**Frame sequence** (`FrameCache`, `FrameFiles`, `FilePositions`, `FileGroups`,
`FrameTasks`, `FrameSequence`). A sliding-window cache and a prefetching worker
over a list of forward-only files. The worker is a second actor: before each
access of the client to what they share it takes any number of steps, each one
taking a task or finishing it. A `Board` is the worker's state as a value, with the indices
asked for so far and the fetches that were short.

**Trees** (`TreeArchive`). Writing a forest in pre-order with child counts and
reading it back with two stacks. Iterators are paths of child positions.

**Splitting writers** (`WriterBase`, `MultiWriter`). Filtering a stream of
frames into files, with metadata frames repeated at the start of each file and
orphan frames held back until a frame depends on them.

Where the code does not meet its evident intent, the model follows the code,
the exact condition is proved, and a concrete input is given:

- `IsOrderedSubset` tests `==` where `!=` is meant, so it looks at keys only, and
  reads past the end of a source vector without pulses:
  `BitmaskLists.IsOrderedSubset`, `MaskApply.SubsetRoundTrip`,
  `MaskApply.WrongSubset`.
- Setting a whole key whose vector is empty while its bit is on clears the bit
  and keeps the row: `MaskEdits.EditKeyPairs`, `MaskEdits.HistoryBreaks`,
  `MaskEdits.EmptyVectorMisaligns`.
- `mod_julian_day_start_of_year` cuts a half day toward zero, which is wrong
  before 1859: `LeapSeconds.StartOfYearExact`. The day getter cuts toward zero
  too, so that a day before MJD 0 reads as the next one past its first second:
  `UtcTime.SetThenGet`, `UtcTime.GetThenSet`, `UtcTime.UtcThenGet`,
  `UtcTime.ReadsNextDay`.
- `day_of_year` ignores the century rule: `Calendar.DayOfYearExact`.
- `GetUnixTime` multiplies in 32 bits: `UtcTime.UnixRoundTrip`,
  `UtcTime.UnixOfTime`.
- `operator+` cuts the offset to whole nanoseconds: `UtcTime.PlusTwice`,
  `UtcTime.PlusMinus`.
- `I3File::seek` skips one frame too few whenever it skips:
  `FrameFiles.I3File.Seek`, `FileGroups.FileGroup.GetFrame`,
  `FileGroups.ReadEndThenLast`. In a frame sequence an index is *sure* below a
  limit if it is the first of its file or the limit is not past the end of its
  file (`FilePositions.Sure`); with the limit one more than the largest index
  asked for, sure indices come out exact, back and forth and under every
  interleaving (`FrameSequences.BackAndForth`), and in runs that never went back,
  with a cache of at least one frame, all do
  (`FrameSequences.FrameSequence.Pop`). Whether a fetch goes wrong is settled when
  it is asked for (`FrameTasks.StepsFated`); `FrameSequences.FrameSequence.Rewind`
  says which do after a rewind from the end, and
  `FrameSequences.RewindReadsWrong` is a run that goes wrong under every
  interleaving.
- With TrayInfo as a metadata stream the configuration is put in a first
  TrayInfo frame after the copy for later files was made
  (`MultiWriters.TrayInfoHeader`), and a TrayInfo frame inserted for it is never
  copied (`MultiWriters.TrayInfoMissing`); `MultiWriters.TrayContext` says
  exactly when file and output agree. With TrayInfo as the sync stream an inserted
  frame is not waited for: `MultiWriters.TraySyncContext`.
- `max_DAQ_time` counts the days of a year by `leap_year`, Gregorian in all years,
  and the day numbers follow the Julian calendar before the reform:
  `UtcTime.MinusIsAbs`, `UtcTime.PlusMinus`, `UtcTime.DriftOver1500`,
  `LeapSeconds.DriftStep`.
- `bitmask::all` of a mask without bytes, as the mask of an empty map has, reads
  before the buffer: `PulseMasks.PulseMask.GetAllSet`.

## Model

| member | source | states |
|---|---|---|
| MaskAlgebra.FitsByRank | dataclasses/private/dataclasses/I3MapOMKeyMask.cxx:194-218 | walking keys and rows side by side, and finding a key's row by counting the on bits before it, describe the same well-formed masks |
| MaskAlgebra.DenseByRank | dataclasses/private/dataclasses/I3MapOMKeyMask.cxx:173-192 | row i of the dense form is the list element at the rank of key i, or all zero when the key is off |
| MaskAlgebra.CompressDense | dataclasses/private/dataclasses/I3MapOMKeyMask.cxx:431-434 | keeping only rows with a bit on gives a well-formed mask without empty rows that stands for the same pairs |
| MaskAlgebra.DenseCompress | dataclasses/private/dataclasses/I3MapOMKeyMask.cxx:431-434 | compressing a mask's pairs gives the mask back exactly when it has no empty row |
| MaskAlgebra.CanonicalUnique | dataclasses/private/dataclasses/I3MapOMKeyMask.cxx:440-446 | masks without empty rows over one source are equal exactly when they stand for the same pairs |
| MaskAlgebra.TrimPairs | dataclasses/private/dataclasses/I3MapOMKeyMask.cxx:815-838 | saving drops exactly the empty rows with their key bits: same pairs, no empty row left |
| MaskOps.CombinePairs | dataclasses/private/dataclasses/I3MapOMKeyMask.cxx:386-438 | AND, OR, XOR and Remove on the compressed form are the pointwise operations on pairs, and the result has no empty row |
| MaskOps.AndSelf | dataclasses/private/dataclasses/I3MapOMKeyMask.cxx:342-346 | a mask ANDed with itself equals itself exactly when it has no empty row |
| MaskOps.BooleanLaw | dataclasses/private/dataclasses/I3MapOMKeyMask.cxx:342-384 | any two operator expressions over three masks that agree on bits agree as stored masks |
| MaskOps.SumDense | dataclasses/private/dataclasses/I3MapOMKeyMask.cxx:140-150 | GetSum is the number of pairs selected |
| MaskOps.SumBalance | dataclasses/private/dataclasses/I3MapOMKeyMask.cxx:140-150 | the sums of OR and AND add up to those of the operands, those of Remove and AND to the left one's, those of XOR and AND to OR's |
| MaskApply.ApplyScanFits | dataclasses/private/dataclasses/I3MapOMKeyMask.cxx:454-508 | on a map of the shape the mask was made from, Apply succeeds and returns the masked map |
| MaskApply.ApplyOutcome | dataclasses/private/dataclasses/I3MapOMKeyMask.cxx:477-505 | on any map with as many keys, Apply succeeds exactly if the mask less its empty rows fits the map, and returns the masked map; else it stops at the first row of a wrong length with the masked map of the keys before it |
| MaskApply.MaskedByPairs | dataclasses/private/dataclasses/I3MapOMKeyMask.cxx:477-505 | applying a mask is filtering every vector by its row of pairs and dropping keys left without a pulse |
| MaskApply.MaskedTotal | dataclasses/private/dataclasses/I3MapOMKeyMask.cxx:140-150 | the applied map has GetSum pulses |
| MaskApply.FullMaskCorrect | dataclasses/private/dataclasses/I3MapOMKeyMask.cxx:18-38 | the mask of a map is well-formed without empty rows, and applying it gives the map less its empty keys |
| MaskApply.GreedyComplete | dataclasses/private/dataclasses/I3MapOMKeyMask.cxx:40-62 | if any choice of positions yields the subset, the leftmost greedy one does |
| MaskApply.FillIff | dataclasses/private/dataclasses/I3MapOMKeyMask.cxx:40-62 | the greedy mask gives the subset back exactly when it is a subsequence |
| MaskApply.FillPrefix | dataclasses/private/dataclasses/I3MapOMKeyMask.cxx:40-62 | the greedy mask of any vector selects a beginning of the subset |
| MaskApply.FillLeftmost | dataclasses/private/dataclasses/I3MapOMKeyMask.cxx:40-62 | no choice of positions that selects a beginning of the subset is ahead of the greedy one at any position |
| MaskApply.SubsetMaskFits | dataclasses/private/dataclasses/I3MapOMKeyMask.cxx:64-98 | the subset constructor's mask is well-formed for any subset |
| MaskApply.SubsetRoundTrip | dataclasses/private/dataclasses/I3MapOMKeyMask.cxx:64-98 | the mask built from a subset is well-formed, and applying it gives the subset, less empty keys, exactly when every vector is a subsequence of the source's |
| MaskApply.SubsetRows | dataclasses/private/dataclasses/I3MapOMKeyMask.cxx:82-97 | the mask has exactly the keys of the subset on, each with the greedy match of its vectors |
| MaskApply.WrongSubset | dataclasses/private/dataclasses/I3MapOMKeyMask.cxx:331-334 | a pulse the source does not have passes the key check and is not given back |
| MaskApply.PredicateMaskPairs | dataclasses/private/dataclasses/I3MapOMKeyMask.cxx:100-128 | the predicate constructor selects exactly the pulses that satisfy it, without empty rows |
| MaskEdits.InsertByRank | dataclasses/private/dataclasses/I3MapOMKeyMask.cxx:267-275 | inserting a row at the rank of an off key keeps the alignment and changes that key's row only |
| MaskEdits.EraseByRank | dataclasses/private/dataclasses/I3MapOMKeyMask.cxx:305-310 | erasing the row at the rank of an on key keeps the alignment and clears that key's row only |
| MaskEdits.EditKeyPairs | dataclasses/private/dataclasses/I3MapOMKeyMask.cxx:280-310 | setting a key turns its bit on exactly if it has a pulse, unsetting turns it off, and no other bit changes; the alignment is kept exactly when it is not an empty vector with its bit on, and then exactly that key's pairs change |
| MaskEdits.EmptyVectorMisaligns | dataclasses/private/dataclasses/I3MapOMKeyMask.cxx:302-309 | the smallest mask for which setting a key leaves a row without a key bit |
| MaskEdits.EditBitPairs | dataclasses/private/dataclasses/I3MapOMKeyMask.cxx:220-278 | setting one pulse turns its key on, even if there is no such pulse, unsetting one leaves the key bit; the alignment is kept and exactly that pair changes |
| MaskEdits.HistoryRefines | dataclasses/private/dataclasses/I3MapOMKeyMask.cxx:220-310 | over every history in which no edit sets a key whose vector is empty while its bit is on, the stored mask stays aligned and stands for what the same history does to a plain table of bits |
| MaskEdits.HistoryBreaks | dataclasses/private/dataclasses/I3MapOMKeyMask.cxx:302-309 | every other history loses the alignment, and does so at its first such edit |
| MaskChain.UnalignedAndSelect | dataclasses/private/dataclasses/I3MapOMKeyMask.cxx:565-572 | the unaligned AND of a row selects what the daughter selects from what the parent selects |
| MaskChain.CollapseFits | dataclasses/private/dataclasses/I3MapOMKeyMask.cxx:542-593 | each collapse keeps the key-bit/list alignment |
| MaskChain.CollapseCorrect | dataclasses/private/dataclasses/I3MapOMKeyMask.cxx:542-593 | applying the collapsed mask is applying the parent, then the daughter, and it selects as many pulses |
| MaskChain.CollapseKeys | dataclasses/private/dataclasses/I3MapOMKeyMask.cxx:560-591 | the collapsed mask has exactly those keys on that the parent leaves a pulse for and the daughter has on, an empty row of the daughter kept |
| MaskChain.RepointCorrect | dataclasses/private/dataclasses/I3MapOMKeyMask.cxx:528-540 | repointing through any chain of masks gives a mask of the ancestor's map that selects what the whole chain selects |
| MaskChain.RepointStep | dataclasses/private/dataclasses/I3MapOMKeyMask.cxx:537-538 | one more turn of the repointing loop is one more collapse |
| MaskChain.ChainUnique | dataclasses/private/dataclasses/I3MapOMKeyMask.cxx:515-526 | a chain of masks is fixed by its first name |
| MaskChain.ChainDistinct | dataclasses/private/dataclasses/I3MapOMKeyMask.cxx:515-526 | a chain of masks never meets a name twice |
| PackedBits.PackedUnique | dataclasses/private/dataclasses/I3MapOMKeyMask.cxx:712-718 | with clear padding, equal bits mean equal bytes |
| Bitmasks.Bitmask.constructor | dataclasses/private/dataclasses/I3MapOMKeyMask.cxx:595-605 | a bitmask of a length has that many bits, all on or all off, and clear padding |
| Bitmasks.Bitmask.Copy | dataclasses/private/dataclasses/I3MapOMKeyMask.cxx:607-627 | a copy has the same bits in a buffer of its own |
| Bitmasks.Bitmask.SetAll | dataclasses/private/dataclasses/I3MapOMKeyMask.cxx:658-667 | every bit is on and the padding stays clear |
| Bitmasks.Bitmask.UnsetAll | dataclasses/private/dataclasses/I3MapOMKeyMask.cxx:669-673 | every bit is off |
| Bitmasks.Bitmask.Any | dataclasses/private/dataclasses/I3MapOMKeyMask.cxx:635-643 | OR-ing the bytes says whether a bit is on |
| Bitmasks.Bitmask.All | dataclasses/private/dataclasses/I3MapOMKeyMask.cxx:645-656 | comparing with full bytes and the shifted last byte says whether all bits are on |
| Bitmasks.Bitmask.Set | dataclasses/private/dataclasses/I3MapOMKeyMask.cxx:675-683 | exactly the addressed bit changes |
| Bitmasks.Bitmask.Get | dataclasses/private/dataclasses/I3MapOMKeyMask.cxx:685-691 | the addressed bit is returned |
| Bitmasks.Bitmask.Sum | dataclasses/private/dataclasses/I3MapOMKeyMask.cxx:693-704 | counting over whole bytes counts the bits, padding contributing none |
| Bitmasks.Bitmask.Combine | dataclasses/private/dataclasses/I3MapOMKeyMask.cxx:426-429 | the byte-wise operators act bit by bit and keep the padding clear |
| Bitmasks.Bitmask.Equals | dataclasses/private/dataclasses/I3MapOMKeyMask.cxx:712-718 | byte comparison is comparison of size, padding and bits |
| BitmaskLists.ScanMap | dataclasses/private/dataclasses/I3MapOMKeyMask.cxx:26-37 | the constructor's loop builds the mask of the map in fresh, unshared buffers |
| BitmaskLists.ScanSubset | dataclasses/private/dataclasses/I3MapOMKeyMask.cxx:76-97 | the subset constructor's loop builds the greedy subset mask |
| BitmaskLists.FillSubsetMask | dataclasses/private/dataclasses/I3MapOMKeyMask.cxx:40-62 | the clearing loop over bytes leaves the greedy match's bits |
| BitmaskLists.IsOrderedSubset | dataclasses/private/dataclasses/I3MapOMKeyMask.cxx:312-339 | the check passes exactly when every key of the subset is a key of the source, and reads past the end of a source vector exactly when an entry with pulses meets a source vector without any before a key is missing |
| BitmaskLists.ScanPredicate | dataclasses/private/dataclasses/I3MapOMKeyMask.cxx:109-127 | the predicate constructor's loop builds the predicate's mask |
| BitmaskLists.ScanCombine | dataclasses/private/dataclasses/I3MapOMKeyMask.cxx:401-435 | the operator loop with two row iterators builds the combined mask and leaves both operands as they are |
| BitmaskLists.ListsEqual | dataclasses/private/dataclasses/I3MapOMKeyMask.cxx:440-446 | list comparison is comparison of all rows |
| BitmaskCollapse.AndRow | dataclasses/private/dataclasses/I3MapOMKeyMask.cxx:565-572 | clearing bits of the copied row while walking parent and daughter gives the unaligned AND |
| BitmaskCollapse.CollapseScan | dataclasses/private/dataclasses/I3MapOMKeyMask.cxx:550-592 | the loop of five iterators over the parent, the daughter and the edited copy builds the collapsed mask |
| BitmaskArchive.TrimScan | dataclasses/private/dataclasses/I3MapOMKeyMask.cxx:819-832 | the saving loop writes the mask without its empty rows |
| BitmaskArchive.SaveText | dataclasses/private/dataclasses/I3MapOMKeyMask.cxx:763-776 | one character per bit, '1' where it is on |
| BitmaskArchive.LoadText | dataclasses/private/dataclasses/I3MapOMKeyMask.cxx:778-793 | every character but '0' turns its bit on |
| BitmaskArchive.TextRoundTrip | dataclasses/private/dataclasses/I3MapOMKeyMask.cxx:763-793 | writing a bitmask as text and reading it gives the same bytes |
| PulseMasks.PulseMask.FromMap | dataclasses/private/dataclasses/I3MapOMKeyMask.cxx:18-38 | the mask of the whole map, with no cached result |
| PulseMasks.PulseMask.FromSubset | dataclasses/private/dataclasses/I3MapOMKeyMask.cxx:64-98 | fatal for a subset with a key of its own, reads past the end of an empty source vector when the check does; else applying gives the subset back exactly for ordered subsets |
| PulseMasks.PulseMask.FromPredicate | dataclasses/private/dataclasses/I3MapOMKeyMask.cxx:100-128 | the mask of the predicate, with no cached result |
| PulseMasks.PulseMask.Copy | dataclasses/private/dataclasses/I3MapOMKeyMask.cxx:533-534 | a copy has bitmasks of its own with the same bits, and shares the source and the cached map |
| PulseMasks.PulseMask.FindKey | dataclasses/private/dataclasses/I3MapOMKeyMask.cxx:194-218 | the key's index and the list position at its rank; error without a source, fatal without the key |
| PulseMasks.PulseMask.SetNone | dataclasses/private/dataclasses/I3MapOMKeyMask.cxx:130-137 | no bit on, no row left, cache dropped |
| PulseMasks.PulseMask.SetKey | dataclasses/private/dataclasses/I3MapOMKeyMask.cxx:280-310 | the whole new mask, the cache dropped, and whether the alignment survives |
| PulseMasks.PulseMask.SetIndex | dataclasses/private/dataclasses/I3MapOMKeyMask.cxx:254-278 | exactly the addressed pair changes, the cache is dropped, the alignment kept |
| PulseMasks.PulseMask.SetPulse | dataclasses/private/dataclasses/I3MapOMKeyMask.cxx:220-251 | exactly the first equal pulse's pair changes, if there is one |
| PulseMasks.PulseMask.GetSum | dataclasses/private/dataclasses/I3MapOMKeyMask.cxx:140-150 | the number of bits set in all rows |
| PulseMasks.PulseMask.GetAnySet | dataclasses/private/dataclasses/I3MapOMKeyMask.cxx:152-156 | whether a key bit is on |
| PulseMasks.PulseMask.GetAllSet | dataclasses/private/dataclasses/I3MapOMKeyMask.cxx:158-171 | whether all key bits and all bits of all rows are on; with a key bitmask without bytes, the byte before the buffer would be read |
| PulseMasks.PulseMask.Equals | dataclasses/private/dataclasses/I3MapOMKeyMask.cxx:440-446 | same source name, same key bitmask size, same mask |
| PulseMasks.PulseMask.ApplyBinaryOperator | dataclasses/private/dataclasses/I3MapOMKeyMask.cxx:386-438 | fatal for different source names; else a new mask that is the pointwise combination |
| PulseMasks.PulseMask.Filter | dataclasses/private/dataclasses/I3MapOMKeyMask.cxx:470-505 | the filter loop fills the cache; a row of the wrong length is fatal and leaves the part built |
| PulseMasks.PulseMask.Apply | dataclasses/private/dataclasses/I3MapOMKeyMask.cxx:454-508 | a cached result is returned as it is; else the result is a fresh filter of what the chain of sources gives, and all caches on the way stay right |
| PulseMasks.PulseMask.HasAncestor | dataclasses/private/dataclasses/I3MapOMKeyMask.cxx:515-526 | whether a name is on the chain of sources |
| PulseMasks.PulseMask.CollapseLevel | dataclasses/private/dataclasses/I3MapOMKeyMask.cxx:542-593 | fatal unless the source is a mask; else a fresh mask of the grandparent, with the parent's source map and without a cached result |
| PulseMasks.PulseMask.Save | dataclasses/private/dataclasses/I3MapOMKeyMask.cxx:815-838 | the record is the mask without its empty rows |
| PulseMasks.PulseMask.Load | dataclasses/private/dataclasses/I3MapOMKeyMask.cxx:795-809 | the mask of the record, without a source and so not modifiable; in version 0, 64 key bits all on without a row stand for no keys |
| PulseMasks.PulseMask.Reload | dataclasses/private/dataclasses/I3MapOMKeyMask.cxx:795-838 | saving and loading gives a mask without empty rows that stands for the same pairs, and equals the one saved, key bitmask size included, exactly when that one had no empty row |
| PulseMasks.GetPulses | dataclasses/private/dataclasses/I3MapOMKeyMask.cxx:460-461 | looking up a name that holds a mask applies the whole chain, and leaves every cache right |
| PulseMasks.Repoint | dataclasses/private/dataclasses/I3MapOMKeyMask.cxx:528-540 | fatal exactly for names off the chain; else terminates with a new mask of the ancestor that selects what the chain selects, as its pairs and as what a fresh application returns, with the source map of the last mask collapsed; no cached map, but for a copy when the name is the mask's own source |
| Calendar.FromToMjd | dataclasses/private/dataclasses/caldate.cxx:58-177 | CalDate inverts JulDate for every date from 15 October 1582 on |
| Calendar.NextDayMjd | dataclasses/private/dataclasses/caldate.cxx:133-177 | the day after is one day number later |
| Calendar.EveryDay | dataclasses/private/dataclasses/caldate.cxx:58-177 | JulDate inverts CalDate for every day number from the reform on |
| Calendar.NoClip | dataclasses/private/dataclasses/caldate.cxx:87-90 | the ke == 3 branch and the clip after 28 February never change the result |
| Calendar.YearStarts | dataclasses/private/dataclasses/I3Time.cxx:79-82 | consecutive first days of January differ by 365 plus leap_year |
| Calendar.DayInYear | dataclasses/private/dataclasses/caldate.cxx:133-177 | a date's day number is the year's start plus the days of the months before and its day |
| Calendar.YearOfIs | dataclasses/private/dataclasses/I3Time.cxx:586-593 | yearOf finds the year from its first day up to the next year's first |
| Calendar.YearBounds | dataclasses/private/dataclasses/I3Time.cxx:586-593 | every day from 1583 on lies in the year yearOf names |
| Calendar.DayOfYearExact | dataclasses/private/dataclasses/caldate.cxx:103-112 | the day of the year is right exactly outside March to December of century years that are no leap years |
| Calendar.Weekdays | dataclasses/private/dataclasses/caldate.cxx:102 | weekdays advance by one each day, and 1 January 2000 is a Saturday |
| Calendar.CalDate | dataclasses/private/dataclasses/caldate.cxx:58-114 | the routine fills in the date, day of the year and weekday of a Julian date |
| Calendar.JulDate | dataclasses/private/dataclasses/caldate.cxx:133-177 | the routine sets the Julian date of midnight and the weekday |
| LeapSeconds.LeapStep | dataclasses/private/dataclasses/I3Time.cxx:63-68 | the count of leap days before a day grows by one exactly after a leap day |
| LeapSeconds.LeapsMonotone | dataclasses/private/dataclasses/I3Time.cxx:63-68 | between two days there are between none and as many leap seconds as days |
| LeapSeconds.StartOfYearExact | dataclasses/private/dataclasses/I3Time.cxx:43-53 | the truncated start of a year is its first day exactly when that day's number is not negative, from 1859 on |
| LeapSeconds.MaxDaqPositive | dataclasses/private/dataclasses/I3Time.cxx:84-90 | every year has at least 365 days of ticks, for every leap-second list |
| LeapSeconds.YearTicks | dataclasses/private/dataclasses/I3Time.cxx:84-90 | the length of a year is that of as many days as leap_year gives it, leap seconds included, in every year |
| LeapSeconds.TwoPasses | dataclasses/private/dataclasses/I3Time.cxx:548-567 | in every year the two-pass correction finds the day of every second, leap seconds included; a second past the first of a day before MJD 0 is placed on the next day |
| LeapSeconds.NoDrift | dataclasses/private/dataclasses/I3Time.cxx:70-90 | modjulianday and leap_year agree on the number of days between any two years from 1583 on |
| LeapSeconds.DriftStep | dataclasses/private/dataclasses/I3Time.cxx:70-90 | before that they move apart by a day over each century year that is no leap year, and back by ten at the reform |
| UtcTime.GettersRead | dataclasses/private/dataclasses/I3Time.cxx:240-267 | in every year a time made of a day, a second of it and ticks is normal, and the getters return these parts; in a day before MJD 0, past its first second, the next day and the second less 86400 |
| UtcTime.SetThenGet | dataclasses/private/dataclasses/I3Time.cxx:119-141 | setting any day and any second of it, 86400 on leap-second days, gives a normal time, and reading it back gives the day and the second exactly when the day is not before MJD 0 or the second is 0 |
| UtcTime.SetRefuses | dataclasses/private/dataclasses/I3Time.cxx:123-132 | setting is refused exactly for a second below 0 or above 86400, for second 86400 of a day without a leap second, and for a fraction outside a second |
| UtcTime.ReadsNextDay | dataclasses/private/dataclasses/I3Time.cxx:43-53 | day -1000 and second 43200, read back as day -999 and second -43200 |
| UtcTime.GetThenSet | dataclasses/private/dataclasses/I3Time.cxx:240-267 | reading a normal time and setting the parts gives the time exactly when it is not before MJD 0 or is in the first second of a day |
| UtcTime.UtcThenGet | dataclasses/private/dataclasses/I3Time.cxx:157-211 | setting a calendar date and time of day and reading back gives the same date always, the same second exactly when the date is not before MJD 0 or it is midnight, and a leap second exactly for second 60 |
| UtcTime.UtcRefuses | dataclasses/private/dataclasses/I3Time.cxx:157-211 | setting a date is refused exactly for a month or day the calendar does not have, an hour, minute or fraction out of range, and a second past 59 but for second 60 of the last minute of a leap day |
| UtcTime.UnixRoundTrip | dataclasses/private/dataclasses/I3Time.cxx:213-228 | SetUnixTime then GetUnixTime is the identity exactly up to 2147483647 |
| UtcTime.UnixOfTime | dataclasses/private/dataclasses/I3Time.cxx:213-228 | in every year the Unix time of a time names it exactly when it is no leap second and the seconds since 1970 lie from 0 to 2147483647 |
| UtcTime.UnixTimeIs | dataclasses/private/dataclasses/I3Time.cxx:220-228 | the Unix time is the seconds since 1970, less one on a leap second, as far as they fit 32 bits, and else off by a multiple of 2^32 |
| UtcTime.LeapSecondUnix | dataclasses/private/dataclasses/I3Time.cxx:224-226 | a leap second has the Unix time of the second before it, exactly unless 32 bits overflow between the two |
| UtcTime.LastLeapSecond | dataclasses/private/dataclasses/I3Time.cxx:220-228 | the leap second of 31 December 2016 has the Unix time 1483228799 |
| UtcTime.OrderIsAbs | dataclasses/private/dataclasses/I3Time.cxx:381-408 | operator< and operator== on normal times are order and equality of the absolute counts |
| UtcTime.AbsClosed | dataclasses/private/dataclasses/I3Time.cxx:240-267 | in every year the absolute count in terms of the day, the leap seconds before it, the second and the ticks, less the days by which modjulianday and leap_year differ |
| UtcTime.MinusIsAbs | dataclasses/private/dataclasses/I3Time.cxx:453-463 | across any years and leap seconds, the difference is that of the absolute counts plus the days by which modjulianday and leap_year drift apart between the years, so the difference of the counts exactly when they do not; they do not from 1583 on |
| UtcTime.DriftOver1500 | dataclasses/private/dataclasses/I3Time.cxx:453-463 | from the start of 1500 to that of 1501 the difference is 366 days, and 365 by the counts |
| UtcTime.PlusIsAbs | dataclasses/private/dataclasses/I3Time.cxx:424-445 | adding gives a normal time whose absolute count moved by ten per whole nanosecond |
| UtcTime.PlusTwice | dataclasses/private/dataclasses/I3Time.cxx:424-445 | adding is additive exactly when cutting the offsets to whole nanoseconds is |
| UtcTime.PlusMinus | dataclasses/private/dataclasses/I3Time.cxx:424-463 | adding a difference back gives the first time exactly when the years do not drift apart and it is whole nanoseconds |
| UtcTime.I3Time.SetModJulianTime | dataclasses/private/dataclasses/I3Time.cxx:119-141 | the new time, unchanged for a second or fraction out of range |
| UtcTime.I3Time.SetUTCCalDate | dataclasses/private/dataclasses/I3Time.cxx:157-211 | the new time, unchanged for any field out of range |
| UtcTime.I3Time.SetUnixTime | dataclasses/private/dataclasses/I3Time.cxx:213-218 | fatal for negative times; else the day and second of the Unix time |
| UtcTime.I3Time.Add | dataclasses/private/dataclasses/I3Time.cxx:424-445 | the two carry loops terminate with the sum |
| TimeWindows.Canonical | dataclasses/private/dataclasses/I3TimeWindow.cxx:94-112 | normalised series with the same points are the same list |
| TimeWindows.BeforeOrder | dataclasses/private/dataclasses/I3TimeWindow.cxx:65-74 | operator< orders windows by start, then by stop, totally |
| TimeWindows.OverlapIs | dataclasses/private/dataclasses/I3TimeWindow.cxx:45-63 | which of two windows starts and stops first, and whether they touch, for each kind of overlap |
| TimeWindows.InsertKeepsOrder | dataclasses/private/dataclasses/I3TimeWindow.cxx:84-91 | inserting keeps a list in order and adds exactly the window |
| TimeWindows.CoalescedNormal | dataclasses/private/dataclasses/I3TimeWindow.cxx:94-112 | coalescing windows ordered by start, none empty, gives a normalised series |
| TimeWindows.CoalescedPoints | dataclasses/private/dataclasses/I3TimeWindow.cxx:94-112 | coalescing keeps the points of every list ordered by start, with empty and reversed windows |
| TimeWindows.PushPoints | dataclasses/private/dataclasses/I3TimeWindow.cxx:82-92 | inserting any window, empty or reversed ones too, adds its points to a list ordered by start; a non-empty one keeps a normalised series normalised |
| TimeWindows.UnionPoints | dataclasses/private/dataclasses/I3TimeWindow.cxx:114-123 | the union contains the points of either, in whatever order the second lists its windows; it is normalised if the first is and the second has no empty window |
| TimeWindows.BothPoints | dataclasses/private/dataclasses/I3TimeWindow.cxx:125-168 | the intersection is normalised without coalescing and contains exactly the points of both, touching windows included |
| TimeWindows.ComplementPoints | dataclasses/private/dataclasses/I3TimeWindow.cxx:170-200 | the complement is normalised and contains exactly the other points |
| TimeWindows.BooleanLaw | dataclasses/private/dataclasses/I3TimeWindow.cxx:114-200 | any two expressions of union, intersection and complement that agree on bits give the same list |
| TimeWindows.DeMorgan | dataclasses/private/dataclasses/I3TimeWindow.cxx:114-200 | De Morgan and double complement as list equality |
| TimeWindows.I3TimeWindowSeries.PushBack | dataclasses/private/dataclasses/I3TimeWindow.cxx:82-92 | the series after a window is inserted and merged |
| TimeWindows.I3TimeWindowSeries.CoalesceAll | dataclasses/private/dataclasses/I3TimeWindow.cxx:94-112 | the merging loop with erasure coalesces the list |
| TimeWindows.I3TimeWindowSeries.Or | dataclasses/private/dataclasses/I3TimeWindow.cxx:114-123 | a new series that is the union |
| TimeWindows.I3TimeWindowSeries.And | dataclasses/private/dataclasses/I3TimeWindow.cxx:125-168 | the two-pointer loop terminates with the intersection |
| TimeWindows.I3TimeWindowSeries.Not | dataclasses/private/dataclasses/I3TimeWindow.cxx:170-200 | a new series that is the complement |
| FrameCaches.AddToSlots | dataio/private/dataio/I3FrameSequence.cxx:123-165 | after an add the window is within its limit, holds the index added, and every other index kept its value or was never filled |
| FrameCaches.AddToEnds | dataio/private/dataio/I3FrameSequence.cxx:123-165 | an add inside the window moves neither end; one outside becomes an end, and the other moves only as far as the limit makes it |
| FrameCaches.AddToKeeps | dataio/private/dataio/I3FrameSequence.cxx:123-165 | what stays after an add: all of the window if it was inside, else all that is within the limit of it |
| FrameCaches.Histories | dataio/private/dataio/I3FrameSequence.cxx:123-177 | over any adds every slot is empty or holds the latest value for its index, and the last add is present |
| FrameCaches.NothingLost | dataio/private/dataio/I3FrameSequence.cxx:123-177 | over any adds whose indices span no more than the limit, every index added is present with its latest value |
| FrameCaches.FrameCache.Get | dataio/private/dataio/I3FrameSequence.cxx:167-177 | the slot of an index, empty outside the window |
| FrameCaches.FrameCache.Add | dataio/private/dataio/I3FrameSequence.cxx:123-165 | the padding and trimming loops give the new window; the deque length stays last minus first |
| FrameCaches.FrameCache.AddBefore | dataio/private/dataio/I3FrameSequence.cxx:143-159 | the branch that grows the window backward |
| FrameCaches.FrameCache.Clear | dataio/private/dataio/I3FrameSequence.cxx:179-184 | the empty window |
| FrameFiles.I3File.PopFrame | dataio/private/dataio/I3File.cxx:120-147 | the next frame for stream 'N', else the first frame of the stream at or after the position, none of those before it of the stream; fatal exactly when there is none, with all consumed |
| FrameFiles.I3File.SkipFrames | dataio/private/dataio/I3File.cxx:272-300 | fatal exactly when too few frames are left, with those consumed |
| FrameFiles.I3File.Rewind | dataio/private/dataio/I3File.cxx:80-92 | back to the start, keeping the size; fatal for files that cannot be rewound |
| FrameFiles.I3File.Seek | dataio/private/dataio/I3File.cxx:149-168 | the next frame is the one asked for exactly when nothing had to be skipped; else it is the one before; fatal past the end, at the end, or when the file cannot be rewound |
| FrameFiles.StartStep | dataio/private/dataio/I3FrameSequence.cxx:329-331 | a file's frames lie in the concatenation from the sum of the sizes before it |
| FilePositions.AfterConsistent | dataio/private/dataio/I3FrameSequence.cxx:264-281 | after any fetch, exactly the files that end before the largest index fetched are of known size |
| FilePositions.ShortNotSure | dataio/private/dataio/I3FrameSequence.cxx:264-281 | a fetch is short only for an index past the first of its file, after an index at or past that file's end was fetched |
| FilePositions.ForwardIsNotShort | dataio/private/dataio/I3FrameSequence.cxx:264-281 | a fetch no earlier than all fetches before, or past the end, is never short |
| FilePositions.ShortFollows | dataio/private/dataio/I3FrameSequence.cxx:264-281 | after a short fetch the fetch of the next frame of the file is short too |
| FileGroups.FileGroup.GetFrame | dataio/private/dataio/I3FrameSequence.cxx:255-337 | over every history of fetches: the frame at an index of the concatenation, or the one before it exactly when the fetch is a short seek; none past the end; which sizes are known and where each file is left |
| FileGroups.FileGroup.GetSize | dataio/private/dataio/I3FrameSequence.cxx:349-360 | the total once all sizes are known, else -1 |
| FileGroups.FileGroup.GetCurSize | dataio/private/dataio/I3FrameSequence.cxx:362-373 | the frames known of, never more than there are |
| FileGroups.ReadEndThenLast | dataio/private/dataio/I3File.cxx:161-163 | running off a file of three and then asking for its last frame yields the second |
| FrameTasks.FinishedSound | dataio/private/dataio/I3FrameSequence.cxx:56-69 | finishing the first task keeps the board sound: numbering, every finished result the frame of its index or, if that fetch was short, the one before, and only fetches of unsure indices short |
| FrameTasks.FinishedDelivers | dataio/private/dataio/I3FrameSequence.cxx:56-69 | the task that finishes delivers for its index, and is short only if an index at or past the end of its file was asked for before it |
| FrameTasks.FinishedLater | dataio/private/dataio/I3FrameSequence.cxx:56-69 | a worker step forgets no task |
| FrameTasks.PushedSound | dataio/private/dataio/I3FrameSequence.cxx:50-55 | queueing a task keeps the board sound |
| FrameTasks.ClearedSound | dataio/private/dataio/I3FrameSequence.cxx:74-79 | clearing the queue under a running task keeps the board sound |
| FrameTasks.FinishedOrdered | dataio/private/dataio/I3FrameSequence.cxx:56-69 | reads queued in order are made in order |
| FrameTasks.OrderedSpent | dataio/private/dataio/I3FrameSequence.cxx:255-337 | reads in order that ran past the end leave every file at its end |
| FrameTasks.StepsFated | dataio/private/dataio/I3FrameSequence.cxx:56-69 | whether a fetch is short is settled when it is asked for, whatever steps the worker takes and when |
| FrameTasks.PushedFated | dataio/private/dataio/I3FrameSequence.cxx:50-55 | it is short exactly if it would be once all reads asked for before it are made, and changes no other outcome |
| FrameTasks.SweepFetches | dataio/private/dataio/I3FrameSequence.cxx:476-486 | in a sweep over files read to their ends a frame is fetched short exactly if one before it in its file is not fetched |
| FrameTasks.Arrived | dataio/private/dataio/I3FrameSequence.cxx:489-519 | taking a frame from its future into the cache leaves every index from the position on covered |
| FrameSequences.FrameSequence.constructor | dataio/private/dataio/I3FrameSequence.cxx:424-434 | a valid sequence over the concatenated files that never went back, with exactly the first ten fetches asked for |
| FrameSequences.FrameSequence.Step | dataio/private/dataio/I3FrameSequence.cxx:56-69 | each step of the worker keeps the invariant and does to the board what it does on values, whatever the client has done |
| FrameSequences.FrameSequence.Worker | dataio/private/dataio/I3FrameSequence.cxx:56-69 | so does any number of steps |
| FrameSequences.FrameSequence.Await | dataio/private/dataio/I3FrameSequence.cxx:498 | waiting for a future terminates with its task's result |
| FrameSequences.FrameSequence.PrefetchAll | dataio/private/dataio/I3FrameSequence.cxx:476-486 | prefetching, interleaved with the worker, asks for at most the next ten frames, leaves them all cached or asked for, keeps the order of reads and every outcome settled before; when all files are read, those it asks for are wrong exactly if one before in the file is not asked for |
| FrameSequences.FrameSequence.PrefetchKnown | dataio/private/dataio/I3FrameSequence.cxx:584-598 | the prefetching of a seek: the next ten are cached or asked for, or all up to the frames known of when it stopped |
| FrameSequences.FrameSequence.Current | dataio/private/dataio/I3FrameSequence.cxx:526-544 | cache, future or new read give the frame at the position, the one before exactly when the fetch it came from was short, which is never so for an index that is first in its file or whose file's end nothing asked for has reached; none exactly past the end; the slot it is cached in records it |
| FrameSequences.FrameSequence.More | dataio/private/dataio/I3FrameSequence.cxx:489-519 | true exactly when the concatenation has a frame at the position, under every interleaving; the frame cached is the right one under the same condition |
| FrameSequences.FrameSequence.Look | dataio/private/dataio/I3FrameSequence.cxx:489-519 | the same in terms of the largest index asked for at any time before |
| FrameSequences.FrameSequence.Pop | dataio/private/dataio/I3FrameSequence.cxx:521-578 | the next frame for stream 'N', else the first frame of the stream at or after the position and no frame seen before it of the stream, fatal if there is none; each frame looked at is exact exactly when its own fetch was not short, as settled when it was asked for: never short if its index is sure, nor in runs that never went back; what else was asked for keeps its outcome, and cached frames within the limit stay; the largest index asked for grows at most to the new position and ten more; the next ten are then under way |
| FrameSequences.FrameSequence.Seek | dataio/private/dataio/I3FrameSequence.cxx:580-599 | the position moves and the next ten frames are cached or asked for, as far as frames are known of; what is read there was asked for before anything that the seek asked for past it; all outcomes settled before stay; seeking forward keeps a run exact |
| FrameSequences.FrameSequence.Rewind | dataio/private/dataio/I3FrameSequence.cxx:471-487 | back to the start, after any steps of the worker, all older futures dropped and the first ten frames cached or asked for; when all files were read to their ends, each of the ten that is not cached will come out wrong exactly if a frame before it in its file is cached |
| FrameSequences.FrameSequence.Clear | dataio/private/dataio/I3FrameSequence.cxx:74-79 | after any steps of the worker the queue and the futures are empty |
| FrameSequences.FrameSequence.Index | dataio/private/dataio/I3FrameSequence.cxx:723-732 | the frame at an index, forward or backward, an error exactly past the end; the one before exactly when its fetch was short, as settled when it was asked for, never for an index that was sure; the position after it, the largest index asked for and the frames kept in the cache |
| FrameSequences.BackAndForth | dataio/private/dataio/I3FrameSequence.cxx:723-732 | over any sequence of lookups back and forth and every interleaving, each gives the frame at its index unless a lookup before asked for an index at or past the end of its file, each asking for at most ten past its own; so all do that, with those before, stay eleven short of the file's end |
| FrameSequences.RewindReadsWrong | dataio/private/dataio/I3File.cxx:161-163 | for any files whose first has two frames and under every interleaving: pop, seek to the end, rewind, and index 1 gives frame 0 |
| TreeArchive.ReadRecords | dataclasses/public/dataclasses/I3Tree.h:37-102 | a recursive reader gives back any forest from its records and leaves what follows them |
| TreeArchive.RoundTrip | dataclasses/public/dataclasses/I3Tree.h:37-102 | what was saved, and only that, is read back, and exactly its records are consumed |
| TreeArchive.FromNext | dataclasses/public/dataclasses/I3Tree.h:48-54 | one step of the pre-order iterator emits one item with its child count and leaves the rest |
| TreeArchive.AfterFromBelow | dataclasses/public/dataclasses/external/tree.hh:1635-1640 | climbing to the first ancestor with a next sibling finds what comes after the subtree |
| TreeArchive.AppendInParts | dataclasses/public/dataclasses/external/tree.hh:737-762 | appending a node and then its children is appending the whole tree |
| TreeArchive.FinishStep | dataclasses/public/dataclasses/I3Tree.h:75-100 | reading one node changes nothing about what the rest of the reading will give |
| TreeArchive.CountNode | dataclasses/public/dataclasses/I3Tree.h:87-100 | the two stacks keep one level per open node, plus the roots' while roots remain |
| TreeArchive.I3Tree.Advance | dataclasses/public/dataclasses/external/tree.hh:1627-1643 | the iterator's increment is the next node in pre-order |
| TreeArchive.I3Tree.Save | dataclasses/public/dataclasses/I3Tree.h:37-55 | the walk writes the root count and every node with its child count |
| TreeArchive.I3Tree.Load | dataclasses/public/dataclasses/I3Tree.h:58-102 | the two-stack loop reads what the recursive reader reads, appended to the roots there were, and fails exactly when that fails |
| WriterBases.NoOrphans | dataio/private/dataio/I3WriterBase.cxx:208-268 | without orphan streams the output is the filtered input in order, after a frame for the configuration if the first is none |
| WriterBases.FirstFrame | dataio/private/dataio/I3WriterBase.cxx:160-206 | what the first frame writes: the configuration in it if it is TrayInfo, else in a frame before it, unless that stream is not written |
| WriterBases.NextFrame | dataio/private/dataio/I3WriterBase.cxx:213-267 | what any later frame writes: nothing of a stream not written; an orphan is held in the place of the one of its stream; TrayInfo and Simulation frames are written alone and release nothing; any other is written after all that was held |
| WriterBases.LastReceived | dataio/private/dataio/I3WriterBase.cxx:227-259 | what was written and what is held together end, for each orphan stream, with the last frame received, an inserted configuration counting as received first |
| WriterBases.AdoptedContext | dataio/private/dataio/I3WriterBase.cxx:253-259 | when a frame other than TrayInfo or Simulation is written, the last frame written of each orphan stream is the last received |
| WriterBases.OrphansWritten | dataio/private/dataio/I3WriterBase.cxx:227-259 | each orphan frame is written exactly once if adopted, and not at all if replaced first or never adopted; an inserted configuration is written whether or not its stream is an orphan stream |
| MultiWriters.JoinedIsWritten | dataio/private/dataio/I3MultiWriter.cxx:108-162 | over any run the files joined without their headers are what one file would hold |
| MultiWriters.NewFileWhen | dataio/private/dataio/I3MultiWriter.cxx:129-136 | a frame starts a file exactly if the current one is full and the frame is a sync frame or none came before; the new file starts with the cached frames, its output goes there, and no other file changes |
| MultiWriters.NeverFull | dataio/private/dataio/I3MultiWriter.cxx:132-136 | a run in which no file was ever full is one file |
| MultiWriters.ClosedAtSync | dataio/private/dataio/I3MultiWriter.cxx:132-136 | once a sync frame came, other frames start no file however full the current one is, and the next sync frame starts one exactly if it is |
| MultiWriters.CacheIs | dataio/private/dataio/I3MultiWriter.cxx:138-159 | the cache holds the last frame received of each metadata stream that is written, as it came, and nothing else |
| MultiWriters.NextCached | dataio/private/dataio/I3MultiWriter.cxx:150-158 | a frame takes the place of the one of its stream in the cache, or the end; others leave the cache alone |
| MultiWriters.CachedRun | dataio/private/dataio/I3MultiWriter.cxx:138-159 | over any run the metadata cache holds the last frame written of each metadata stream that is neither held back nor TrayInfo, and every header held it when the file was started |
| MultiWriters.InSyncRun | dataio/private/dataio/I3MultiWriter.cxx:129-136 | over any run with a sync stream that is neither held back nor TrayInfo, every file has a sync frame before its other frames, or none was seen before it |
| MultiWriters.MetadataContext | dataio/private/dataio/I3MultiWriter.cxx:84-162 | for every frame written to any file, the last frame of each such metadata stream is the same in its file as in the whole output |
| MultiWriters.OrphanMetadataContext | dataio/private/dataio/I3MultiWriter.cxx:84-162 | a metadata stream that is held back: for every frame held frames may belong to, its last frame is the same in the file as in the whole output |
| MultiWriters.TrayContext | dataio/private/dataio/I3MultiWriter.cxx:138-162 | TrayInfo as a metadata stream: its last frame is the same in the file as in the whole output exactly when nothing was written before the file or a TrayInfo frame other than the first frame written came up to there |
| MultiWriters.SyncContext | dataio/private/dataio/I3MultiWriter.cxx:129-136 | a sync stream that is neither held back nor TrayInfo: for every frame not held back, the last sync frame is the same in its file as in the whole output |
| MultiWriters.OrphanSyncContext | dataio/private/dataio/I3MultiWriter.cxx:129-136 | a sync stream that is held back: for every frame held frames may belong to, the last sync frame is the same in its file as in the whole output |
| MultiWriters.TraySyncContext | dataio/private/dataio/I3MultiWriter.cxx:129-136 | a TrayInfo sync stream: its last frame is the same in the file as in the whole output exactly when the first frame received was a TrayInfo frame, nothing was written before the file, or a TrayInfo frame other than the first frame written came up to there |
| MultiWriters.TrayInfoHeader | dataio/private/dataio/I3WriterBase.cxx:160-206 | a run in which a later file starts with a TrayInfo frame that has one configuration less than the frame written, however many it came with |
| MultiWriters.TrayInfoMissing | dataio/private/dataio/I3WriterBase.cxx:160-206 | a run in which the configuration frame was inserted and a later file has no TrayInfo frame at all |
| MultiWriters.I3MultiWriter.constructor | dataio/private/dataio/I3MultiWriter.cxx:68-82 | a first file without frames, the state of the empty run |
| MultiWriters.I3MultiWriter.NewFile | dataio/private/dataio/I3MultiWriter.cxx:84-106 | a new file with exactly the cached frames |
| MultiWriters.I3MultiWriter.WriteConfig | dataio/private/dataio/I3WriterBase.cxx:160-206 | the configuration goes once, beside any others into a first TrayInfo frame or into a frame of its own, and only if that stream is written |
| MultiWriters.I3MultiWriter.BaseProcess | dataio/private/dataio/I3WriterBase.cxx:208-268 | the frames written, the frames held back and the frame count after a frame |
| MultiWriters.I3MultiWriter.Process | dataio/private/dataio/I3MultiWriter.cxx:108-162 | the object's state is that of the run over the frames received, and the counter counts the frames written outside headers |

## Left out

- Archive byte formats, compression, file and stream opening, file staging, logging and Python bindings: I/O. Records and frames are sequence elements; fatal errors and exceptions are results.
- Floating-point rounding and NaN: formulas with decimal constants are evaluated exactly, times of windows are reals and two infinities.
- Integer widths, except the 32-bit product in `GetUnixTime` and the 16-bit size of a bitmask.
- `SetModJulianTimeDouble`, `ns_to_daqtime`, time of day in `CalDate` and `JulDate`, formatting of times: rounding is their point.
- The unions, SPE corrections and shifted maps a frame lookup may also resolve: a frame maps names to pulse maps and masks.
- Mixing of frames from other streams into a frame (`I3FrameMixer`): a frame is a stream and a payload; `last_frames` is left out with it.
- `add_file`, `close_last_file`, `close`, `get_mixed_frames` and copies of a live sequence; a starting frame other than 0 of a file; files that cannot be rewound inside a group.
- Exceptions thrown while the worker reads an archive.
- `SkipKeys` of the writers, and removing an empty last file.
- FromMap: vectors and maps are bounded by the bits a 16-bit byte count can hold; the same bound is on FromPredicate and FromSubset.
- SetIndex: the index is required to lie in the vector, as the assertion in `bitmask::set` does.
- Equals: masks of an empty map are compared by key bitmask size too, so the default mask (no byte) and one made by the other constructors (one byte) differ.
- FromSubset: what follows a read past the end of a source vector is undefined and left open.
- GetAllSet: what the read before the buffer of an empty map's mask gives is undefined and left open.
- Apply: the chain of sources is required to be acyclic and each mask on it made from the map it names; a cached result is returned even for another frame, as the code does.
- CollapseLevel: the daughter is required to have been made from the parent's masked map.
- Not: of a normalised series; the range constructor also makes lists in any order, for which the complement has no meaning.
- BothPoints: of normalised series.
- SetThenGet: days from 1 January 1583 on; setting days of the Julian calendar is left out.
- GetThenSet: years from 1583 on, as SetThenGet.
- UtcThenGet: years from 1583 on, as SetThenGet.
- GettersRead: no leap day in the list before 1859 for years before 1859; so for the other members about times. The first leap second was in 1972.
- FromToMjd: from the reform of 15 October 1582 on; the Julian calendar before it is modelled but only ordered.
- CalDate: the date, the day of the year and the weekday; the time-of-day fields are left out.
- JulDate: at midnight; other times of day are left out.
- MetadataContext: not for TrayInfo or orphan streams, for which TrayContext and OrphanMetadataContext say what holds; TrayInfo as both a metadata and an orphan stream is left out.
- OrphanMetadataContext: for the frames that held frames may belong to; a file may start with a frame of the stream that is still to be written.
- SyncContext: OrphanSyncContext and TraySyncContext say what holds for a sync stream that is held back or TrayInfo; TrayInfo as both the sync stream and an orphan stream is left out. Orphans held back for the first sync frame of a file come before it.
- TraySyncContext: for TrayInfo that is not a metadata stream; if it is one, TrayContext says what holds.
- BackAndForth: for a cache of at least one frame; without one each lookup reads its frame twice.
- I3Tree.Load: what a read that fails leaves in the tree.
