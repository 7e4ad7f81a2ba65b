# florrUtils counters, in Dafny

A model of the counting core of florrUtils, a set of browser user scripts for florr.io. It
covers four parts.

- **Movement-helper reader** (`button.js`). It finds the first match of a wildcard byte
  pattern in the game's `client.wasm`. At fixed offsets from that match it decodes one
  unsigned LEB128 number per named task.
- **Base-address scan.** `getInventoryBaseAddress` and `readVarUint32` appear in
  `getPetalCount.js`, `getMobCount.js` and `script/KilledThisRun.js`. The scan looks for the
  instruction sequence `i32.const 1; i32.store8; i32.const <addr>; i32.const 5; i32.store`.
  It records `addr >> 2`, the word index of the petal inventory table in `Module.HEAPU32`.
- **Petal and mob loggers** (`window.PetalCountLogger`, `window.MobCountLogger`). A periodic
  tick reads the petal table, or the mob kill table that follows it, into:
  - `summary`: the per-rarity totals;
  - `detail`: per rarity, the count of every sid;
  - `raw`: one row per petal or mob.

  Query methods total, rank and format the last tick.
- **Kill tracker** (`MobTracker` in `script/KilledThisRun.js`). It keeps a baseline copy of
  the mob table and reports every count that grew since then. It sorts the report by rarity
  and sid and merges equal rarity/sid pairs for display.

## How the model is organised

- `Wrappers` holds `Option` and `Result`.
- `Int32` holds the 32-bit meaning of JavaScript's `|`, `<<` and `>>`. It works on plain
  integers: a pattern is kept unsigned and `ToSigned` reads it back.
- `Leb128` has two parts:
  - the whole-array decoder (`Decode`) and the cursor decoder (`ReadVarUint`);
  - the reference value `Value` and the canonical encoder `Encode`, used as the decoders'
    partner for round trips.
- `Button` holds `findMatch` and the loop over tasks.
- `WasmScan` holds the scan, stated as a declarative list of `Candidates`, and the two
  address policies.
- `Catalog` holds the game catalog:
  - the petals, with their optional `allowedDropRarities` length, and the mobs;
  - the rarity names, the rarity-count rules, `indexOf`;
  - the id lookups, where a later entry wins as in `Object.fromEntries`.
- `Layout` holds the heap word indices of both tables and the derivation of the mob table
  base.
- `Snapshot` is the tick shared by both loggers:
  - rows of `RawEntry`;
  - `Summary` (column sums) and `Detail` (per rarity, the sid-to-count map where the later row
    wins);
  - the lemmas that relate the three.
- `Ranking` holds `Array.prototype.sort`, modelled as a stable insertion sort over "a may
  come before b" (the comparator is ≤ 0). It also holds the leaderboard filter `Board`.
- `PetalCount`, `MobTable`, `MobCount` and `KilledThisRun` model the scripts.

The heap readers and table builders (`HeapRead`, `PetalRow`, `PetalRaw`, `MobRow`, `Column`,
`Zeros`, `Lookups`, `RowTotals`, `PetalRarityNames`) are plain definitions. What they mean
for the loggers is proved in lemmas such as `SummaryMatchesDetail`, `RawMatchesDetail`,
`TotalOfLastRow`, `GrandTotalIsRowTotals`, `MobDataMembers` and `PetalCellInjective`.

Objects keyed by rarity name are sequences indexed by the rarity's position. Objects keyed
by sid are maps. An out-of-range heap word, and `undefined || 0`, read as 0. The loggers
and the tracker are classes whose fields the tick and the tracker methods reassign. Each
interval callback is a method that takes the heap as `Option<seq<nat>>`, where `None` means
`Module.HEAPU32` is missing.

## Model

| member | source | states |
|---|---|---|
| Int32.BitOr | button.js:8 | the OR of the low `n` bits of two numbers stays below `2^n` |
| Int32.ToSigned | getPetalCount.js:9 | a 32-bit pattern read as a signed int32 lies in `[-2^31, 2^31)` and is unchanged below `2^31` |
| Int32.Sar2 | getPetalCount.js:40 | `x >> 2` is the floor of `x / 4`: `4r <= x < 4r + 4` |
| Int32.OrDisjoint | button.js:8 | OR-ing a value below `2^s` with a multiple of `2^s` adds them |
| Leb128.FirstStop | button.js:7-9 | a found stop position lies in the data and holds a byte with a clear high bit |
| Leb128.FirstStopSpec | button.js:7-9 | every byte before the stop has the high bit set, and there is no stop exactly when every byte has it set |
| Leb128.FirstStopAppend | button.js:9 | bytes appended after the first terminator do not move it |
| Leb128.DecodeFails | button.js:4-13 | decoding fails with the incomplete-sequence error exactly when no byte ends the number |
| Leb128.EncodeShape | button.js:4-13 | the canonical encoding, the decoder's partner: non-empty, only its last byte ends it, and its base-128 value is `v` |
| Leb128.AccIsValue | button.js:8 | over at most four bytes the 32-bit accumulator never wraps and equals the base-128 value |
| Leb128.DecodeStopsAtTerminator | button.js:9 | bytes after the first terminator never change the result |
| Leb128.DecodeSingleByte | button.js:8-9 | a byte below 0x80 decodes to itself whatever follows |
| Leb128.DecodeValue | button.js:7-11 | with the terminator among the first four bytes, the result is the sum of `(b_k & 0x7F) << 7k` |
| Leb128.EncodeLength | button.js:4-13 | a value below `2^(7k)` encodes in at most `k` bytes |
| Leb128.DecodeEncoded | button.js:4-13 | an encoding of a value below `2^28` has at most four bytes, its last byte is the first terminator whatever follows, and it decodes to the value |
| Leb128.EncodedPrefixIncomplete | button.js:7-12 | a strict prefix of an encoding has no terminator, so decoding it throws |
| Leb128.RoundTrip | button.js:4-13 | decoding inverts encoding for every value below `2^28`, whatever follows; every strict prefix of an encoding is an incomplete sequence |
| Leb128.ReadVarUint | getPetalCount.js:7-12 | the cursor decoder consumes at least one byte and at most one position past the end; a last byte inside the data has a clear high bit |
| Leb128.ReadVarUintReadsContinuations | getPetalCount.js:7-12 | every byte the cursor decoder reads before its last one has the high bit set |
| Leb128.ReadVarUintAgrees | getPetalCount.js:7-12 | the cursor decoder agrees with the whole-array decoder when a terminator exists; otherwise it reads past the end and returns the signed accumulator |
| Leb128.ReadVarUintRoundTrip | getPetalCount.js:7-12 | the cursor decoder reads back an encoding of a value below `2^28` and consumes exactly its bytes |
| Button.DecodeLEB128FromArray | button.js:4-13 | the loop returns what `Decode` specifies, including the thrown error |
| Button.FirstMatchFrom | button.js:16-30 | returns the lowest matching position at or after `i`, or -1 exactly when no position matches |
| Button.FindMatch | button.js:16-30 | the nested loops return -1 exactly when no window matches, else the lowest matching start; a pattern longer than the data never matches |
| Button.Gather | button.js:40-52 | the bytes at `match + offset` in offset order; None exactly when an offset falls outside the data |
| Button.TaskResults | button.js:32-63 | the result object has exactly one key per task name |
| Button.TaskResultsEntry | button.js:35-63 | each name holds the value of the last task with that name: null without a match, without offsets, for an out-of-range offset or an incomplete number, else the decoded number |
| Button.LastNamed | button.js:35-61 | the last task carrying a name, whose assignment the result object keeps; -1 exactly when no task carries it |
| Button.NoMatchAllNull | button.js:32 | without a match every name maps to null |
| Button.GatherBytes | button.js:38-47 | the offset loop collects the gathered bytes, or no bytes once an offset falls outside the data |
| Button.RunTask | button.js:38-60 | one task yields its value: null for no bytes or a decode error, else the decoded number |
| Button.MatchPatternAndDecodeMulti | button.js:15-64 | the loops build exactly the result object of all tasks at the first match |
| WasmScan.ReadVarUint32 | getPetalCount.js:7-12 | the do-while returns the cursor decoder's byte count and value |
| WasmScan.PrologueByBytes | getPetalCount.js:27-32 | the prologue holds exactly when the six byte comparisons succeed |
| WasmScan.EpilogueByBytes | getPetalCount.js:35-39 | the epilogue holds exactly when the five byte comparisons succeed |
| WasmScan.CheckSignature | getPetalCount.js:26-40 | the cursor checks succeed exactly when the signature is at `i`, and then yield its `addr >> 2` |
| WasmScan.ScanCandidates | getPetalCount.js:23-41 | the loop collects the candidates of every start position in scan order |
| WasmScan.CandidatesGrow | getPetalCount.js:25-41 | scanning further only appends candidates |
| WasmScan.CandidatesExactly | getPetalCount.js:25-41 | a value is a candidate exactly when the signature with that operand occurs somewhere |
| WasmScan.CandidatesSkip | getPetalCount.js:25-41 | start positions without the signature add no candidate |
| WasmScan.FirstCandidateLowest | getPetalCount.js:43-50 | the first candidate comes from the lowest start position holding the signature |
| WasmScan.GetInventoryBaseAddress | getPetalCount.js:20-55 | no candidate is an error; otherwise the first candidate, from the lowest signature position |
| WasmScan.FirstInventoryBaseAddress | script/KilledThisRun.js:254-287 | `addrs[0]`: absent exactly when there is no candidate, else the first candidate |
| WasmScan.SampleOperand | getPetalCount.js:25-40 | the sample signature with operand 5 yields the candidate `5 >> 2 = 1` |
| WasmScan.NoSignatureAt | getPetalCount.js:27-28 | a position failing either of the first two comparisons yields nothing |
| WasmScan.CandidatesAcrossSample | getPetalCount.js:25-41 | a copy of the sample signature adds exactly the candidate 1 to the scan |
| WasmScan.SingleSignatureExample | getPetalCount.js:43-44 | one copy of the sample signature gives exactly one candidate |
| WasmScan.AmbiguousSignatureExample | getPetalCount.js:47-49 | two copies give two candidates, and the first is used |
| Catalog.FirstSample | getPetalCount.js:75 | the first petal with `allowedDropRarities`; None exactly when no petal has them |
| Catalog.PetalRarityCount | getPetalCount.js:74-76 | 9 without a sample, else the sample's length, 0 included |
| Catalog.MobScriptRarityCount | getMobCount.js:72 | `?.length \|\| 9`: positive; 9 without a sample or with an empty sample, else the sample's length |
| Catalog.PetalRarityNamesWellFormed | getPetalCount.js:77-78 | the petal rarity names are distinct and free of `_` |
| Catalog.RarityNamesWellFormed | script/KilledThisRun.js:213 | both rarity-name lists are distinct and contain no `_` |
| Catalog.IndexOf | script/KilledThisRun.js:389 | `indexOf`: -1 exactly when absent, else the first position holding the name |
| Catalog.LastPetalIndex | getPetalCount.js:72 | the last petal with a sid, which `Object.fromEntries` keeps; None exactly when the sid is absent |
| Catalog.LastMobIndex | getMobCount.js:77-80 | the last mob with an id, which the `mobById` assignments keep; None exactly when the id is absent |
| Catalog.MobByOwnId | getMobCount.js:77-80 | with unique ids every mob is found under its own id |
| Catalog.MaxMobId | getMobCount.js:82 | the largest id, and one of the ids; -1 (for `-Infinity`) for no mobs |
| Catalog.RowsThrough | getMobCount.js:181 | the loop `i <= maxMobId` runs no row exactly when `maxMobId < 0`, and otherwise the `maxMobId + 1` rows `0..maxMobId` |
| Layout.PetalCellInjective | getPetalCount.js:220 | distinct petal/rarity cells never share a heap word |
| Layout.DerivedBase | getMobCount.js:89-91 | `(end * 4 + gap) / 4` is exact for a gap that is a multiple of 4, and lies past the petal table |
| Layout.MobBaseOffsets | getMobCount.js:89-91 | the mob table starts 44 words after the last petal word in the logger (gap 176), 41 in the tracker (gap 164) |
| Layout.MobCellLayout | getMobCount.js:185 | mob cells sit at even offsets and distinct cells never share a word |
| Layout.LayoutExample | getPetalCount.js:220 | worked word indices for both layouts |
| Snapshot.Summary | getPetalCount.js:206-232 | `summary` has one entry per rarity name |
| Snapshot.Detail | getPetalCount.js:206-232 | `detail` has one map per rarity |
| Snapshot.SummaryMatchesDetail | getPetalCount.js:223-224 | with distinct sids each rarity's summary entry is the sum of that rarity's detail over the rows' sids |
| Snapshot.RawMatchesDetail | getPetalCount.js:224 | the detail holds, for each sid, the counts of the last row with that sid |
| Snapshot.TotalOfLastRow | getPetalCount.js:128-135 | a sid's total over the detail is the row total of its last row |
| Snapshot.TotalOfAbsent | getPetalCount.js:128-135 | a sid with no row totals 0 |
| Snapshot.GrandTotalIsRowTotals | getPetalCount.js:137-140 | the sum of the summary is the sum of all row totals |
| Snapshot.NamedCounts | getPetalCount.js:110-113 | the keys are exactly the names, and with distinct names each holds its count |
| Snapshot.PartwayDone | getPetalCount.js:219-225 | adding a row's counts cell by cell gives the summary and detail of the longer table |
| Snapshot.TotalOfDetail | getPetalCount.js:128-135 | an absent sid totals 0, and a present one totals its last row |
| Snapshot.AddRow | getMobCount.js:201-204 | the loop adds a row to the summary and the detail of the table |
| Ranking.InsertSorted | getPetalCount.js:156 | insertion keeps a sequence sorted under a total preorder |
| Ranking.InsertTies | getPetalCount.js:156 | insertion puts the new entry after the entries it ties with |
| Ranking.StableSortPermutes | getPetalCount.js:156 | whatever the comparator, the sort returns a permutation of its input |
| Ranking.StableSortSorted | getPetalCount.js:156 | under a total preorder the sort's result is sorted |
| Ranking.StableSortTies | getPetalCount.js:156 | under a total preorder the sort keeps the entries tying with any given entry in input order |
| Ranking.StableSortCorrect | getPetalCount.js:156 | under a total preorder the result is sorted, a permutation, and keeps every tie class in input order |
| Ranking.BoardMembers | getPetalCount.js:145-155 | the board lists exactly the keys with a positive score, as entries |
| Ranking.ByDescendingIsPreorder | getPetalCount.js:156 | `b.total - a.total` read as "a may come before b" is a total preorder |
| PetalCount.TotalBoardMembers | getPetalCount.js:145-155 | the petal leaderboard lists exactly the catalog petals with a positive total |
| PetalCount.RarityBoardMembers | getPetalCount.js:162-172 | the per-rarity leaderboard lists exactly the catalog petals with a positive count of that rarity |
| PetalCount.PetalCountLogger.constructor | getPetalCount.js:83-88 | all four fields start null |
| PetalCount.PetalCountLogger.BuildSnapshot | getPetalCount.js:206-232 | completes exactly unless there are more than nine rarities and any petal; then `raw` is the petal table and `summary` and `detail` are its summary and detail |
| PetalCount.AddPetal | getPetalCount.js:217-225 | the inner loop throws exactly when the rarity count exceeds the names; otherwise it reads the petal's row and adds it |
| PetalCount.PetalCountLogger.Tick | getPetalCount.js:202-238 | no heap or a throw changes nothing; otherwise `raw` is the new petal table and `lastUpdate` is `now`, and the kept invariant makes `summary` and `detail` the table's summary and detail |
| PetalCount.PetalCountLogger.GetTotalCount | getPetalCount.js:128-135 | 0 before a tick and for a sid outside the catalog; otherwise the row total of the sid's last row |
| PetalCount.PetalCountLogger.GrandTotal | getPetalCount.js:137-140 | 0 before a tick; otherwise the sum of every count of the tick |
| PetalCount.PetalCountLogger.GetLeaderboard | getPetalCount.js:142-157 | the petals with a positive total by non-increasing total, a permutation of the board with equal totals in catalog order |
| PetalCount.PetalCountLogger.GetLeaderboardByRarity | getPetalCount.js:159-174 | empty before a tick or for an unknown rarity; otherwise that rarity's board, sorted stably by non-increasing count |
| PetalCount.Distribution | getPetalCount.js:178-182 | the loop's object has exactly the rarity names as keys, each with the sid's count at that rarity |
| PetalCount.FormatRows | getPetalCount.js:107-114 | each row keeps its id and sid, and its counts are keyed by exactly the rarity names |
| PetalCount.PetalCountLogger.GetDistribution | getPetalCount.js:176-183 | null before a tick; otherwise the rarity names as keys, each with the sid's count |
| PetalCount.PetalCountLogger.RawFormatted | getPetalCount.js:105-115 | null before a tick; otherwise each row's id, sid and counts keyed by rarity name |
| MobTable.RowEntryShape | getMobCount.js:190-199 | a table row yields at most one entry, with id `i + 1` and eight counts |
| MobTable.MobDataShape | getMobCount.js:181-206 | every row has eight counts and an id in `1..n`, and ids strictly increase |
| MobTable.MobDataMembers | getMobCount.js:181-206 | an entry is listed exactly when some row `i < n` has a catalog mob with id `i + 1`; it carries that mob's id, sid and the row's counts |
| MobTable.CatalogMobListed | getMobCount.js:190-199 | with unique ids each catalog mob within range gets its row |
| MobTable.ReadMobRow | getMobCount.js:184-188 | the inner loop reads exactly the row |
| MobCount.KillBoardMembers | getMobCount.js:157-162 | the kill leaderboard lists exactly the catalog mobs with a positive total |
| MobCount.MobCountLogger.constructor | getMobCount.js:95-99 | all four fields start null |
| MobCount.ReadMobTable | getMobCount.js:171-206 | `raw` is the table rows through `maxMobId`, with its summary and detail |
| MobCount.MobCountLogger.UpdateData | getMobCount.js:167-212 | no heap changes nothing; otherwise the four fields are the new snapshot and `now` |
| MobCount.MobCountLogger.GetTotalKills | getMobCount.js:140-147 | 0 before a tick and for a sid without a row; otherwise the row total of its last row |
| MobCount.MobCountLogger.GrandTotal | getMobCount.js:149-152 | 0 before a tick; otherwise the sum of every kill count |
| MobCount.MobCountLogger.GetLeaderboard | getMobCount.js:154-164 | the mobs with a positive total by non-increasing total, stably sorted |
| MobCount.FormatRows | getMobCount.js:115-122 | each row keeps its id and sid, and its kills are keyed by exactly the rarity names |
| MobCount.MobCountLogger.RawFormatted | getMobCount.js:113-123 | each row's kills keyed by the eight rarity names |
| KilledThisRun.RowKillsExactly | script/KilledThisRun.js:333-350 | a row reports exactly its cells that grew and have a rarity name and an image |
| KilledThisRun.KilledExactly | script/KilledThisRun.js:323-354 | the report is exactly the grown cells of rows paired by position with a baseline row, each with its growth |
| KilledThisRun.KilledPositive | script/KilledThisRun.js:336-347 | every reported count is positive and carries its rarity's name |
| KilledThisRun.NothingKilledSinceBaseline | script/KilledThisRun.js:319-354 | against a baseline equal to the current data nothing is reported |
| KilledThisRun.DisplayOrderIsPreorder | script/KilledThisRun.js:387-392 | with `localeCompare` a total preorder, the rarity-then-sid comparator is one too |
| KilledThisRun.DisplaySorted | script/KilledThisRun.js:387-392 | the sorted report runs from best to worst rarity, by sid within a rarity, is a permutation, and keeps equal entries in report order |
| KilledThisRun.SortKeepsTally | script/KilledThisRun.js:388-392 | sorting keeps every weighted count of the report |
| KilledThisRun.KeyInjective | script/KilledThisRun.js:397 | for rarities without `_`, two kills share a `rarity_sid` key exactly when they share rarity and sid |
| KilledThisRun.MergeKeys | script/KilledThisRun.js:395-403 | the map's keys, in insertion order, are distinct and are its entries' keys |
| KilledThisRun.MergeDomain | script/KilledThisRun.js:395-403 | a key is present exactly when some item has it |
| KilledThisRun.MergeEntries | script/KilledThisRun.js:395-403 | each entry carries its key and the sum of its items' counts |
| KilledThisRun.MergeStepTotal | script/KilledThisRun.js:397-402 | merging one more item adds its count to the total |
| KilledThisRun.MergeKeepsTotal | script/KilledThisRun.js:395-403 | merging keeps the number of kills |
| KilledThisRun.MergedKey | script/KilledThisRun.js:387-403 | a key is in the merge of the sorted report exactly when some report entry has it, with that key's summed count |
| KilledThisRun.MergedReport | script/KilledThisRun.js:387-403 | after the sort and merge: one entry per distinct key of the report, holding that key's summed count, with the total unchanged |
| KilledThisRun.MobTracker.constructor | script/KilledThisRun.js:210-223 | no data, no mobs, `maxMobId` 0, base 0 and no interval |
| KilledThisRun.MobTracker.GetMobData | script/KilledThisRun.js:289-317 | null without a heap; otherwise the table rows through `maxMobId` that name a known mob |
| KilledThisRun.MobTracker.ResetBaseline | script/KilledThisRun.js:319-321 | the baseline becomes the current table, and nothing else changes |
| KilledThisRun.MobTracker.GetKilledThisRun | script/KilledThisRun.js:323-354 | refreshes `currentData`; nothing is reported while either side is null; otherwise the report of the current data against the baseline |
| KilledThisRun.MobTracker.StartTracking | script/KilledThisRun.js:372-377 | keeps the interval handle |
| KilledThisRun.MobTracker.Initialize | script/KilledThisRun.js:225-252 | adds the catalog, sets `maxMobId`, derives the base with a gap of 164 bytes from the first candidate (absent without one), takes the baseline and starts the interval |
| KilledThisRun.MobTracker.Stop | script/KilledThisRun.js:474-479 | clears the running interval and returns its handle; a second call finds none |
| KilledThisRun.KilledSince | script/KilledThisRun.js:329-351 | the outer loop pairs rows by position and collects the report |
| KilledThisRun.KillsOfRow | script/KilledThisRun.js:333-350 | the inner loop collects a row's report |
| KilledThisRun.DisplayList | script/KilledThisRun.js:387-403 | the sort and merge loop builds the merge of the stably sorted report |

## Left out

- I/O is left out. Fetching `client.wasm` becomes a byte-sequence parameter, and the heap
  becomes an optional sequence parameter. `Date.now()` becomes `now` and a `setInterval`
  handle becomes `TimerId`.
- The waits for `versionHash` and `florrio.utils` are left out: the polling loops only delay.
- Timers are left out: the 5-second and 50 ms schedules, and the order of callbacks.
- The overlay is left out: DOM, styles, drag, badges, `localStorage`, `existingKeys`, and
  the rest of `updateUI` after the merge.
- `formatCount` and `getRarityPercentage` are left out because they work on floating point
  (`toFixed`).
- The getters (`getSummary`, `getDetail`, `getRaw`, `getLastUpdate`) are left out: they
  return a field as it is.
- Images are left out: `getImageUrl`, `getMobImageUrl` and their caches. The tracker takes
  the image lookup as a parameter `imageOf`, in which None stands for every falsy result.
- `localeCompare` becomes a parameter, assumed to be a total preorder on sids where order
  matters.
- JSON deep copy and aliasing are not modelled: sequences are values, so `resetBaseline`'s
  copy is implicit.
- The stray `updateInterval()` call after `setInterval` in getPetalCount.js is left out. It
  throws after the interval is set up and changes no state.
- Property lookups that hit `Object.prototype` (a sid such as `constructor`) are left out.
  The model's maps hold only the keys the program writes.
- Console output (`warn`, `error`) is left out.
- Sums are unbounded integers. They do not model JavaScript number precision, which the
  counts here never approach.
- PetalCount.PetalCountLogger.Tick: with more than nine rarities, the write to
  `detail[undefined]` throws at the first petal. The model leaves every field unchanged
  then. The `NaN` left in the tick's local `summary` is not modelled, since it is never
  stored.
- KilledThisRun.MobTracker.Initialize: a missing address (`undefined`) makes the base `NaN`,
  so every read is 0. This is modelled as an absent base, not as a number.
- WasmScan.GetInventoryBaseAddress: the source re-throws after logging. This is modelled as
  an error result.
- Leb128.RoundTrip: stated for values below `2^28`, four bytes. Longer encodings are
  characterised only through the exact 32-bit definition, `Acc`.
- The 176-byte gap (getMobCount.js) and the 164-byte gap (script/KilledThisRun.js) are
  modelled as they are written. Which one matches the game is not decided here.
- `mobSids` and `mobIdMap` of the tracker are not modelled: only the image lookup uses them.
