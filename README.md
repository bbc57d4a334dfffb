# rust-memory-hack: the value scan and its refinement

rust-memory-hack is a small Linux memory editor. It searches another
process's memory for a value, then narrows the list of candidate addresses by
searching again after the value changes. This project models the three parts
of `src/main.rs` that do that work, and proves properties about them.

- **Parsing the maps file** (`find_value`, the loop over `/proc/<pid>/maps`).
  Each line is split on whitespace. An empty line fails. A line without a
  flags field fails. A line whose flags contain `r` has its `start-end` field
  split at the first `-`. Both halves are parsed as 64-bit hexadecimal, and
  the pair becomes a range. The first failing line ends the whole parse with
  its error. A line without `r` is skipped without being parsed further.
- **Scanning for a value** (`find_value`, the window scan). Each range is
  copied out of the target in one bulk read. A range whose read fails is
  skipped silently. Every byte offset whose `size_of::<T>()`-byte window
  reinterprets as `value` is reported as an absolute address. The source
  compares an offset only when `offset + size < num_bytes`: this is the strict
  bound at line 70, and it is modelled as written (see "## Findings").
- **Refining the candidates** (`reduce_found_values`). Every candidate is
  re-read. The index of each candidate whose read succeeds and differs from
  `value` is collected. The indices are sorted and removed from the highest
  down. A candidate that cannot be read is kept.

The system calls are replaced by an abstract target memory, `map<nat, Byte>`
(module `TargetMemory`). A read of `len` bytes succeeds exactly when every one
of those bytes is mapped. A write changes exactly the bytes it covers. The
maps file is a `string` parameter, and the type `T` is a `decode` function
from `size` bytes to a value. The Rust library functions the parser relies on
are modelled in `Text`: `str::lines`, `split_whitespace` with Unicode
whitespace, `split_once`, and `usize::from_str_radix(_, 16)` with its error
kinds and 64-bit overflow. Parallel iteration is modelled sequentially:

- the scan reports ranges, and the offsets within each range, in order;
- the refinement takes the order in which its workers push indices as a
  parameter (`schedule`) and proves that the result does not depend on it;
- `par_sort` is an in-place insertion sort on an `array<nat>`.

Modules, one per file: `Wrappers` (`wrappers.dfy`), `SeqFacts` (`seqs.dfy`),
`Text` (`text.dfy`), `TargetMemory` (`memory.dfy`), `MemoryMaps`
(`maps.dfy`), `Scan` (`scan.dfy`), `Refine` (`refine.dfy`), and `Scenarios`
(`scenarios.dfy`), which holds worked examples on a concrete 16-byte region
and on concrete maps lines.

## Model

| member | source | states |
|---|---|---|
| Text.IndexOf | src/main.rs:42 | the result is the position of the first occurrence of the character, or the length when the character does not occur |
| Text.LinesOfTerminatedLine | src/main.rs:42 | a line without '\n' that does not end in '\r', followed by '\n', reads back as exactly that line |
| Text.LinesAppend | src/main.rs:42 | `lines` of text that ends in a newline, followed by more text, is the lines of the first part followed by the lines of the rest |
| Text.LinesSnoc | src/main.rs:42 | appending one terminated line to complete lines adds exactly that line |
| Text.WordEnd | src/main.rs:43-48 | the first word ends at the first whitespace character, or at the end of the text |
| Text.Fields | src/main.rs:43-48 | every field `split_whitespace` yields is non-empty and holds no whitespace |
| Text.FieldsOfWord | src/main.rs:43-48 | a word followed by whitespace or by nothing is the first field |
| Text.FieldsSkipWhitespace | src/main.rs:43-48 | leading whitespace does not change the fields |
| Text.FieldsOfJoinWords | src/main.rs:43-48 | splitting on whitespace undoes joining non-empty, whitespace-free words with spaces |
| Text.SplitOnce | src/main.rs:51 | the split fails exactly when the separator is absent; otherwise the text is the first part, the separator and the rest, and the first part holds no separator |
| Text.HexDigitValue | src/main.rs:52-53 | a hexadecimal digit of either case has a value below 16 |
| Text.FoldDigits | src/main.rs:52-53 | the digit loop either fails with a non-empty-input error or gives a value that fits in a `usize` |
| Text.FoldDigitsSnoc | src/main.rs:52-53 | running the digit loop over one more digit is one more digit step |
| Text.FoldDigitsFromZero | src/main.rs:52-53 | starting from zero, the loop succeeds exactly on hexadecimal digits whose value fits in a `usize`, and then gives that value |
| Text.ParseUsizeHex | src/main.rs:52-53 | the result fits in a `usize`, and the `Empty` error comes exactly from the empty text |
| Text.ParseUsizeHexMeaning | src/main.rs:52-53 | the parse succeeds exactly on an optional '+' followed by a non-empty run of hexadecimal digits whose value fits in a `usize`, and returns that value |
| Text.HexDigitChar | src/main.rs:52-53 | the printed digit is a hexadecimal digit with the given value, and not a sign |
| Text.ToHex | src/main.rs:52-53 | printing a number without padding gives a non-empty run of hexadecimal digits |
| Text.HexValueOfToHex | src/main.rs:52-53 | the value of the printed digits is the number |
| Text.Zeros | src/main.rs:52-53 | the padding is `k` zero digits |
| Text.PaddedHex | src/main.rs:52-53 | an address printed with zero padding, as Linux prints maps addresses, is a non-empty run of hexadecimal digits at least the requested width long |
| Text.HexValueOfZeros | src/main.rs:52-53 | a run of zeros has value 0 |
| Text.HexValueOfLeadingZeros | src/main.rs:52-53 | leading zeros do not change the value of a digit string |
| Text.HexValueOfPaddedHex | src/main.rs:52-53 | the value of a padded printed address is the number |
| Text.ParseUsizeHexOfPaddedHex | src/main.rs:52-53 | parsing a printed address, padded or not, gives it back: the round trip |
| Text.PaddedHexHasNoDash | src/main.rs:51 | a printed address holds no '-' and no whitespace, so the address field splits at the dash between the two numbers |
| TargetMemory.ReadBytes | src/main.rs:17-24 | a bulk read succeeds exactly when every requested byte is mapped, and then returns that many bytes |
| TargetMemory.ReadBytesAt | src/main.rs:17-24 | byte `i` of a successful read is the memory byte at `address + i` |
| TargetMemory.ReadBytesByContents | src/main.rs:17-24 | a read of mapped bytes returns exactly the bytes held there |
| TargetMemory.ReadValue | src/main.rs:6-15 | reading a `T` succeeds exactly when its `size` bytes are mapped |
| TargetMemory.WriteBytes | src/main.rs:26-33 | a write succeeds exactly when the target bytes are mapped, and it never maps or unmaps anything |
| TargetMemory.ReadBytesSlice | src/main.rs:17-24 | reading a window inside a successful bulk read gives that slice of the bulk data |
| TargetMemory.ReadAfterWrite | src/main.rs:26-33 | reading back what was just written gives the written bytes |
| TargetMemory.ReadDisjointFromWrite | src/main.rs:26-33 | a write leaves every read of bytes outside it unchanged |
| MemoryMaps.ParseLine | src/main.rs:43-55 | a range parsed from a line has both ends within `usize` |
| MemoryMaps.ParseOneLine | src/main.rs:43-55 | the loop body for one line: same error order as the source, `None` for a line without 'r', the range otherwise; equal to `ParseLine` |
| MemoryMaps.ParseMaps | src/main.rs:42-56 | the parsing loop returns the ranges of the lines in order, or the error of the first failing line (equal to `RangesOf(Lines(text))`) |
| MemoryMaps.RangesOfPrefixStep | src/main.rs:42-56 | one more parsed line extends the ranges of the lines before it by its range, if it has one |
| MemoryMaps.RangesOfFailsAt | src/main.rs:43-53 | a line that fails after lines that parsed fails the whole parse with its error |
| MemoryMaps.RangesOfErrorPersists | src/main.rs:42-55 | once a prefix of the lines fails, the whole parse fails with that error, whatever follows |
| MemoryMaps.RangesOfFailsAtFirstBadLine | src/main.rs:42-55 | the parse fails exactly when some line fails, and then with the error of a line that every earlier line parsed before |
| MemoryMaps.RangesOfAppend | src/main.rs:42-56 | ranges appear in line order: parsing two blocks of lines gives the first block's error if it fails, else the second block's error if it fails, else the ranges of the first block followed by those of the second |
| MemoryMaps.RangesOfSnoc | src/main.rs:42-56 | a parsed line added at the end adds its range, if any, at the end |
| MemoryMaps.LineKeptIffReadable | src/main.rs:50-55 | a line that parses has at least two fields, and gives a range exactly when its flags contain 'r' |
| MemoryMaps.UnreadableLineNeverFails | src/main.rs:50 | a line with flags but no 'r' is skipped and never fails, whatever its address field holds |
| MemoryMaps.AddressFieldHasNoWhitespace | src/main.rs:43-51 | the `start-end` field of a maps line, with addresses zero-padded to eight digits as Linux prints them, holds no whitespace |
| MemoryMaps.FieldsOfMapsLine | src/main.rs:43-48 | the first two fields of a printed maps line are its address field and its permissions |
| MemoryMaps.SplitAddressField | src/main.rs:51 | splitting a printed address field at its first '-' gives the two zero-padded numbers |
| MemoryMaps.ParseMapsLine | src/main.rs:43-55 | a maps line printed as Linux prints it (addresses zero-padded to at least eight digits) parses back to its range when readable, and to nothing otherwise |
| MemoryMaps.MapsLineIsOneLine | src/main.rs:42 | a printed maps line holds no '\n' and does not end in '\r' |
| MemoryMaps.RenderMapsEndsLine | src/main.rs:42 | a printed maps file is empty or ends in a newline |
| MemoryMaps.LinesOfRenderSnoc | src/main.rs:42 | printing one more mapping adds exactly its line to the lines of the file |
| MemoryMaps.ParseRenderedMaps | src/main.rs:42-56 | parsing a maps file printed from well-formed mappings gives exactly the readable mappings' ranges, in order |
| Scan.HitsMembership | src/main.rs:67-80 | an address is reported for a region exactly when its offset's window ends before the region's last byte and reinterprets as `value` |
| Scan.HitsIncreasing | src/main.rs:67-80 | a region's reported addresses are strictly increasing, so none is reported twice |
| Scan.HitsInclusiveMembership | src/main.rs:69-70 | with the intended bound, an address is reported exactly when its whole window fits in the region and reinterprets as `value` |
| Scan.AsWrittenMissesOnlyLastWindow | src/main.rs:70 | the as-written scan differs from the intended one only in the window that ends exactly at the region's end |
| Scan.ScanRegion | src/main.rs:67-80 | the loop over one region's offsets reports exactly `Hits` of its bytes |
| Scan.ScanOne | src/main.rs:59-81 | one range's contribution: nothing when its bulk read fails, the hits of its bytes otherwise |
| Scan.ScanAll | src/main.rs:57-82 | the scan over all ranges gives their contributions in order, or fails when some range is inverted |
| Scan.FindValue | src/main.rs:35-84 | `find_value` as a whole: a maps error, an inverted-range failure, or the scan of the parsed ranges (equal to `FindValueSpec`) |
| Scan.ScanRangesStep | src/main.rs:57-82 | scanning one more range appends its contribution |
| Scan.ScanRangeMembership | src/main.rs:58-81 | an address comes from a range exactly when the range reads, the address is inside it with its window ending before the range's end, and it reads back as `value` |
| Scan.ScanRangesIsConcatMap | src/main.rs:57-82 | the scan is the concatenation, in range order, of each range's contribution |
| Scan.ScanRangesAppend | src/main.rs:57-82 | scanning two lists of ranges is scanning each and concatenating |
| Scan.ScanRangesMembership | src/main.rs:57-83 | an address is found exactly when some range reports it |
| Scan.UnreadableRangeContributesNothing | src/main.rs:62-65 | a range whose bulk read fails neither fails the scan nor changes its result |
| Scan.FoundAddressesHoldValue | src/main.rs:57-83 | every address `find_value` returns lies in a parsed range, with its window ending before the range's end, and reads back as `value` |
| Refine.SortIndices | src/main.rs:99 | after the sort the indices are in order and are a permutation of the indices before it |
| Refine.InsertLast | src/main.rs:99 | one insertion step puts the first `i + 1` indices in order, keeps them a permutation of the old first `i + 1`, and leaves the indices after them unchanged |
| Refine.RemoveDescending | src/main.rs:100-102 | removing sorted, distinct, in-bounds indices from the highest down leaves exactly the elements at the other positions, in order |
| Refine.ReduceFoundValues | src/main.rs:86-104 | `reduce_found_values` for any worker order: the result is the candidate list without the positions whose read succeeds and differs from `value`, and it is shorter by exactly that many |
| Refine.WithoutNoneMarked | src/main.rs:100-102 | with no removal position inside the list, nothing is removed |
| Refine.WithoutOnlyInRange | src/main.rs:100-102 | removal positions beyond the list's end make no difference |
| Refine.WithoutRemoveStep | src/main.rs:100-102 | removing a position below all the others already removed is one `Vec::remove` at that position, and that position is still in bounds |
| Refine.WithoutRemoveLast | src/main.rs:100-102 | removing the last element when no other position is removed is one `Vec::remove` of it |
| Refine.RemoveAtAppend | src/main.rs:101 | `Vec::remove` inside the first part of a concatenation leaves the second part unchanged |
| Refine.WithoutMarkedIsSurvivors | src/main.rs:88-102 | removing the marked positions keeps exactly the candidates that are unreadable or still hold `value`, in their original order |
| Refine.SurvivorsUnmarked | src/main.rs:88-98 | no candidate that stays would be marked again |
| Refine.WithoutMembership | src/main.rs:100-102 | an element stays exactly when it sits at some position that is not removed |
| Refine.ReduceIdempotent | src/main.rs:86-104 | on an unchanged target a second refinement with the same value marks and removes nothing |
| Refine.ReduceAfterFindRemovesNothing | src/main.rs:35-104 | refining right after a scan, on an unchanged target, removes nothing |
| SeqFacts.IncreasingCard | src/main.rs:99-101 | strictly increasing indices are as many as their set |
| SeqFacts.DistinctOccursOnce | src/main.rs:88-93 | in a list without repetitions every element occurs at most once |
| SeqFacts.TwoOccurrences | src/main.rs:99 | a value found at two positions occurs at least twice |
| SeqFacts.SortedPermutationOfDistinct | src/main.rs:99 | sorting indices without repetitions makes them strictly increasing and keeps their set |
| SeqFacts.ConcatMapAppend | src/main.rs:57-82 | concatenating per-element pieces distributes over the concatenation of the elements |
| Scenarios.RegionReads | src/main.rs:17-24 | the 16-byte region reads back as its bytes |
| Scenarios.RegionMaps | src/main.rs:42-56 | a two-line maps file with a readable region and a guard page parses to the one readable range |
| Scenarios.RegionScan | src/main.rs:35-84 | scanning that target for any value gives the hits of the region's bytes |
| Scenarios.RegionHits | src/main.rs:67-80 | for every searched `u32`, the as-written scan of the region compares its first 12 windows and the corrected one all 13, against the window values listed in `RegionWindows` |
| Scenarios.ScanForTwo | src/main.rs:35-84 | searching the region for the `u32` 2 finds exactly address 0x1004 |
| Scenarios.RefineAfterChange | src/main.rs:86-104 | after 2 at 0x1004 is overwritten with 5, refining with 2 removes that candidate |
| Scenarios.ReadLastInteger | src/main.rs:6-15 | the `u32` at 0x100C reads back as 4 |
| Scenarios.LastWindowSkipped | src/main.rs:70 | the as-written scan for 4 finds nothing although 0x100C holds 4; the intended bound finds 0x100C |
| Scenarios.ParseScenarioLines | src/main.rs:43-55 | a readable maps line parses to its range, and a `---p` line parses to nothing |
| Scenarios.ParsePaddedLine | src/main.rs:43-55 | the literal line `00001000-00001010 r--p 00000000 00:00 0`, with zero-padded addresses, parses to the range [0x1000, 0x1010) |
| Scenarios.ParseScenarioText | src/main.rs:43-55 | the literal lines `7f0000000000-7f0000001000 r--p 00000000 00:00 0 ` and its `---p` twin parse to the range and to nothing |

## Left out

- Opening and reading `/proc/<pid>/maps` (lines 36-39) is I/O: the file's contents are the `maps` parameter, and text that is not valid UTF-8 (an I/O error in the source) is not modelled.
- `process_vm_readv` and `process_vm_writev` are replaced by the abstract memory: a transfer is all or nothing, so partial transfers and errno values are not modelled.
- The `unsafe` reinterpretation of bytes as `T` is the `decode` parameter. Equality is Dafny's, so a `PartialEq` that is not reflexive (a floating-point NaN) is not modelled.
- `lock_value`, `display_found_values` and `main` (the command loop, printing, thread spawning) are not part of this model.
- The `RwLock` and `Arc` around the shared lists are not modelled: every parallel loop is modelled as a sequential loop.
- Scan.FindValue: the source's result order is whatever order the parallel workers push in; the model returns one particular order (ranges in maps order, offsets ascending), and proves membership facts that hold for every order.
- Scan.FindValue: an inverted range (`higher < lower`) makes `x.1 - x.0` underflow in the source, which panics in a debug build and requests an impossibly large buffer in a release build; the model returns `Err(InvertedRange)` instead.
- Scan.ScanRange: an inverted range, which the scan never reaches, contributes nothing, so that the function is total.
- Refine.ReduceFoundValues: the `&mut Vec` updated in place is modelled as a returned sequence; the collected indices live in an `array<nat>` for the sort and the removal loop.
- Refine.SortIndices: `par_sort` is a parallel merge sort; the model sorts by insertion, and states only what the source relies on: sorted, and a permutation.
- Every call sees one fixed memory `mem`: the target changing while a single `find_value` or `reduce_found_values` call is reading it (racy reads, including overlapping candidate windows read at different moments) is not modelled.
- Addresses are unbounded `nat`s. `base_address + offset` cannot overflow in the source, because a range comes from two parsed `usize` values, so no wrap-around is modelled.

## Findings

| source | as written | input that shows it | evidently intended | confidence | as-written member | corrected member |
|---|---|---|---|---|---|---|
| src/main.rs:70 | an offset is skipped when `offset + size_of::<T>() >= num_bytes`, so the window that ends exactly at the end of a region is never compared | a readable region [0x1000, 0x1010) holding the little-endian `u32`s 1, 2, 3, 4: a search for 4 reports nothing, although 0x100C holds 4 | skip only when `offset + size_of::<T>() > num_bytes`, so that every window that fits is compared | high (proved on the model, not executed) | Scenarios.LastWindowSkipped | Scan.HitsInclusiveMembership |

`Scan.Hits` keeps the bound exactly as written, and the rest of the model
(`ScanRegion`, `FindValue`) uses it, so that the model describes the program
that exists. `Scan.HitsInclusive` is the corrected definition.
`Scan.HitsInclusiveMembership` proves the intended property about it: every
window that fits is compared. `Scan.AsWrittenMissesOnlyLastWindow` proves
that the two definitions differ only in the last window of each region.
