/** Worked examples on small concrete targets: a 16-byte region holding the
    32-bit little-endian integers 1, 2, 3 and 4, and single lines of a maps
    file. */
module Scenarios {
  import opened Wrappers
  import opened Text
  import opened TargetMemory
  import opened MemoryMaps
  import opened Scan
  import opened Refine

  /** A `u32` reinterpreted from its four bytes on a little-endian host. */
  function LeU32(w: seq<Byte>): nat {
    if |w| != 4 then 0 else w[0] as nat + 256 * w[1] as nat + 65536 * w[2] as nat + 16777216 * w[3] as nat
  }

  const RegionBytes: seq<Byte> := [1, 0, 0, 0, 2, 0, 0, 0, 3, 0, 0, 0, 4, 0, 0, 0]

  /** The byte the target holds at `a`, for `a` in `[0x1000, 0x1010)`. */
  function RegionByte(a: nat): Byte {
    if 0x1000 <= a < 0x1010 then RegionBytes[a - 0x1000] else 0
  }

  /** A target whose only mapped bytes are `[0x1000, 0x1010)`. */
  function RegionMemory(): Memory {
    map a | 0x1000 <= a < 0x1010 :: RegionByte(a)
  }

  const RegionMapping := Mapping(0x1000, 0x1010, "r--p", " 00000000 00:00 0")

  /** An inaccessible guard page right after the region. */
  const GuardMapping := Mapping(0x1010, 0x2000, "---p", " 00000000 00:00 0")

  const RegionRange := Range(0x1000, 0x1010)

  lemma RegionReads()
    ensures ReadBytes(RegionMemory(), 0x1000, 16) == Some(RegionBytes)
  {
    ReadBytesByContents(RegionMemory(), 0x1000, 16, RegionBytes);
  }

  /** The maps file of the target lists its one readable range; the guard
      page's line, whose flags lack 'r', is skipped without error. */
  lemma RegionMaps()
    ensures RangesOf(Lines(RenderMaps([RegionMapping, GuardMapping]))) == Ok([RegionRange])
  {
    RegionMappingsWellFormed();
    ParseRenderedMaps([RegionMapping, GuardMapping]);
    RegionReadableRanges();
  }

  lemma RegionMappingsWellFormed()
    ensures WellFormedMapping(RegionMapping) && WellFormedMapping(GuardMapping)
  {
    assert IsWhitespace(RegionMapping.rest[0]) && IsWhitespace(GuardMapping.rest[0]);
    assert NoWhitespace("r--p") && NoWhitespace("---p");
  }

  lemma RegionReadableRanges()
    ensures ReadableRanges([RegionMapping, GuardMapping]) == [RegionRange]
  {
    var ms := [RegionMapping, GuardMapping];
    assert ms[..1] == [RegionMapping] && ms[..1][..0] == [];
    assert 'r' in RegionMapping.perms && 'r' !in GuardMapping.perms;
    assert ReadableRanges([RegionMapping]) == [RegionRange];
    assert ReadableRanges(ms) == ReadableRanges([RegionMapping]) + [];
  }

  /** The scan covers exactly that range's bytes. */
  lemma RegionScan<T>(decode: seq<Byte> -> T, value: T)
    ensures FindValueSpec(RegionMemory(), RenderMaps([RegionMapping, GuardMapping]), 4, decode, value)
         == Ok(Hits(RegionBytes, 0x1000, 4, decode, value, 16))
  {
    RegionMaps();
    assert [RegionRange][..0] == [];
    assert ScanRanges(RegionMemory(), [RegionRange], 4, decode, value)
        == ScanRange(RegionMemory(), RegionRange, 4, decode, value);
    RegionReads();
  }

  /** The value of each 4-byte window that lies inside the region, by offset:
      the windows at offsets 0, 4, 8 and 12 hold 1, 2, 3 and 4, the others
      straddle two integers. */
  const RegionWindows: seq<nat> :=
    [1, 0x200_0000, 0x2_0000, 0x200, 2, 0x300_0000, 0x3_0000, 0x300, 3, 0x400_0000, 0x4_0000, 0x400, 4]

  /** The addresses, in order, of the offsets below `upto` and below `fits`
      whose window holds `v`. */
  function Matches(v: nat, upto: nat, fits: nat): seq<nat>
    requires fits <= |RegionWindows|
  {
    if upto == 0 then []
    else
      var o := upto - 1;
      Matches(v, o, fits) + (if o < fits && RegionWindows[o] == v then [0x1000 + o] else [])
  }

  lemma MatchesExtend(v: nat, o: nat, fits: nat)
    requires fits <= |RegionWindows|
    ensures Matches(v, o + 1, fits)
         == Matches(v, o, fits) + (if o < fits && RegionWindows[o] == v then [0x1000 + o] else [])
  {
  }

  /** The windows of the region hold the values listed in `RegionWindows`. */
  lemma RegionWindowValues(data: seq<Byte>)
    requires data == RegionBytes
    ensures forall o :: 0 <= o < |RegionWindows| ==> LeU32(data[o..o + 4]) == RegionWindows[o]
  {
    assert LeU32(data[0..4]) == RegionWindows[0];
    assert LeU32(data[1..5]) == RegionWindows[1];
    assert LeU32(data[2..6]) == RegionWindows[2];
    assert LeU32(data[3..7]) == RegionWindows[3];
    assert LeU32(data[4..8]) == RegionWindows[4];
    assert LeU32(data[5..9]) == RegionWindows[5];
    assert LeU32(data[6..10]) == RegionWindows[6];
    assert LeU32(data[7..11]) == RegionWindows[7];
    assert LeU32(data[8..12]) == RegionWindows[8];
    assert LeU32(data[9..13]) == RegionWindows[9];
    assert LeU32(data[10..14]) == RegionWindows[10];
    assert LeU32(data[11..15]) == RegionWindows[11];
    assert LeU32(data[12..16]) == RegionWindows[12];
  }

  /** One more offset of the 16-byte region: the as-written bound compares
      the first 12 windows, the intended one all 13. */
  lemma RegionHitsStep(data: seq<Byte>, v: nat, o: nat)
    requires |data| == 16 && o < 16
    requires o < |RegionWindows| ==> LeU32(data[o..o + 4]) == RegionWindows[o]
    requires Hits(data, 0x1000, 4, LeU32, v, o) == Matches(v, o, 12)
    requires HitsInclusive(data, 0x1000, 4, LeU32, v, o) == Matches(v, o, 13)
    ensures Hits(data, 0x1000, 4, LeU32, v, o + 1) == Matches(v, o + 1, 12)
    ensures HitsInclusive(data, 0x1000, 4, LeU32, v, o + 1) == Matches(v, o + 1, 13)
  {
    HitsExtend(data, 0x1000, 4, LeU32, v, o);
    HitsInclusiveExtend(data, 0x1000, 4, LeU32, v, o);
    MatchesExtend(v, o, 12);
    MatchesExtend(v, o, 13);
  }

  lemma {:induction false} RegionHitsUpTo(data: seq<Byte>, v: nat, k: nat)
    requires data == RegionBytes && k <= 16
    ensures Hits(data, 0x1000, 4, LeU32, v, k) == Matches(v, k, 12)
    ensures HitsInclusive(data, 0x1000, 4, LeU32, v, k) == Matches(v, k, 13)
  {
    if k > 0 {
      RegionHitsUpTo(data, v, k - 1);
      RegionWindowValues(data);
      RegionHitsStep(data, v, k - 1);
    }
  }

  /** Searching the region for `v`: the as-written scan and the corrected one. */
  lemma RegionHits(v: nat)
    ensures Hits(RegionBytes, 0x1000, 4, LeU32, v, 16) == Matches(v, 16, 12)
    ensures HitsInclusive(RegionBytes, 0x1000, 4, LeU32, v, 16) == Matches(v, 16, 13)
  {
    RegionHitsUpTo(RegionBytes, v, 16);
  }

  lemma MatchesOfTwo()
    ensures Matches(2, 16, 12) == [0x1004]
  {
    assert Matches(2, 2, 12) == [];
    assert Matches(2, 4, 12) == [];
    assert Matches(2, 6, 12) == [0x1004];
    assert Matches(2, 8, 12) == [0x1004];
    assert Matches(2, 10, 12) == [0x1004];
    assert Matches(2, 12, 12) == [0x1004];
    assert Matches(2, 14, 12) == [0x1004];
  }

  lemma MatchesOfFour()
    ensures Matches(4, 16, 12) == []
  {
    assert Matches(4, 2, 12) == [];
    assert Matches(4, 4, 12) == [];
    assert Matches(4, 6, 12) == [];
    assert Matches(4, 8, 12) == [];
    assert Matches(4, 10, 12) == [];
    assert Matches(4, 12, 12) == [];
    assert Matches(4, 14, 12) == [];
  }

  lemma MatchesOfFourInclusive()
    ensures Matches(4, 16, 13) == [0x100C]
  {
    assert Matches(4, 2, 13) == [];
    assert Matches(4, 4, 13) == [];
    assert Matches(4, 6, 13) == [];
    assert Matches(4, 8, 13) == [];
    assert Matches(4, 10, 13) == [];
    assert Matches(4, 12, 13) == [];
    assert Matches(4, 14, 13) == [0x100C];
  }

  /** Scanning for the 4-byte value 2 finds `0x1004` and nothing else. */
  lemma ScanForTwo()
    ensures FindValueSpec(RegionMemory(), RenderMaps([RegionMapping, GuardMapping]), 4, LeU32, 2) == Ok([0x1004])
  {
    RegionScan(LeU32, 2);
    RegionHits(2);
    MatchesOfTwo();
  }

  /** After the target stores 5 at `0x1004`, refining `[0x1004]` for the value
      2 removes it and leaves the candidate list empty. */
  lemma RefineAfterChange()
    ensures WriteBytes(RegionMemory(), 0x1004, [5, 0, 0, 0]).Some?
    ensures var changed := WriteBytes(RegionMemory(), 0x1004, [5, 0, 0, 0]).value;
            Without([0x1004], MarkedIndices(changed, [0x1004], 4, LeU32, 2)) == []
  {
    var changed := WriteBytes(RegionMemory(), 0x1004, [5, 0, 0, 0]).value;
    ReadAfterWrite(RegionMemory(), 0x1004, [5, 0, 0, 0]);
    assert Marked(changed, 0x1004, 4, LeU32, 2);
    assert MarkedIndices(changed, [0x1004], 4, LeU32, 2) == {0};
  }

  lemma ReadLastInteger()
    ensures ReadValue(RegionMemory(), 0x100C, 4, LeU32) == Some(4)
  {
    RegionReads();
    ReadBytesSlice(RegionMemory(), 0x1000, 16, 12, 4);
    var w := RegionBytes[12..16];
    assert w == [4, 0, 0, 0];
    assert ReadBytes(RegionMemory(), 0x100C, 4) == Some(w);
    assert LeU32(w) == 4;
  }

  /** The window of the last integer, 4 at `0x100C`, ends exactly at the
      region's end: it reads back as 4, yet the scan for 4 reports nothing,
      while the corrected bound reports `0x100C`. */
  lemma LastWindowSkipped()
    ensures ReadValue(RegionMemory(), 0x100C, 4, LeU32) == Some(4)
    ensures FindValueSpec(RegionMemory(), RenderMaps([RegionMapping, GuardMapping]), 4, LeU32, 4) == Ok([])
    ensures HitsInclusive(RegionBytes, 0x1000, 4, LeU32, 4, 16) == [0x100C]
  {
    ReadLastInteger();
    RegionScan(LeU32, 4);
    RegionHits(4);
    MatchesOfFour();
    MatchesOfFourInclusive();
  }

  /** A line as Linux prints it for a readable anonymous mapping. */
  const ReadableLine := Mapping(0x7f0000000000, 0x7f0000001000, "r--p", " 00000000 00:00 0 ")

  /** The same mapping with flags `---p`. */
  const GuardLine := Mapping(0x7f0000000000, 0x7f0000001000, "---p", " 00000000 00:00 0 ")

  lemma LineMappingsWellFormed()
    ensures WellFormedMapping(ReadableLine) && WellFormedMapping(GuardLine)
  {
    assert IsWhitespace(ReadableLine.rest[0]);
    assert NoWhitespace("r--p") && NoWhitespace("---p");
  }

  /** The readable line yields its one range; the `---p` line yields none. */
  lemma ParseScenarioLines()
    ensures ParseLine(MapsLine(ReadableLine)) == Ok(Some(Range(0x7f0000000000, 0x7f0000001000)))
    ensures ParseLine(MapsLine(GuardLine)) == Ok(None)
  {
    LineMappingsWellFormed();
    ParseMapsLine(ReadableLine);
    ParseMapsLine(GuardLine);
    assert 'r' in ReadableLine.perms && 'r' !in GuardLine.perms;
  }

  lemma HexOfLineStart()
    ensures ToHex(0x7f0000000000) == "7f0000000000"
  {
    assert ToHex(0x7) == "7";
    assert ToHex(0x7f) == "7f";
    assert ToHex(0x7f0) == "7f0";
    assert ToHex(0x7f00) == "7f00";
    assert ToHex(0x7f000) == "7f000";
    assert ToHex(0x7f0000) == "7f0000";
    assert ToHex(0x7f00000) == "7f00000";
    assert ToHex(0x7f000000) == "7f000000";
    assert ToHex(0x7f0000000) == "7f0000000";
    assert ToHex(0x7f00000000) == "7f00000000";
    assert ToHex(0x7f000000000) == "7f000000000";
  }

  lemma HexOfLineEnd()
    ensures ToHex(0x7f0000001000) == "7f0000001000"
  {
    assert ToHex(0x7) == "7";
    assert ToHex(0x7f) == "7f";
    assert ToHex(0x7f0) == "7f0";
    assert ToHex(0x7f00) == "7f00";
    assert ToHex(0x7f000) == "7f000";
    assert ToHex(0x7f0000) == "7f0000";
    assert ToHex(0x7f00000) == "7f00000";
    assert ToHex(0x7f000000) == "7f000000";
    assert ToHex(0x7f0000000) == "7f0000000";
    assert ToHex(0x7f00000001) == "7f00000001";
    assert ToHex(0x7f000000010) == "7f000000010";
    assert ToHex(0x7f0000000100) == "7f0000000100";
  }

  /** Twelve digits need no padding. */
  lemma HexOfLineAddresses()
    ensures PaddedHex(0x7f0000000000, AddressWidth) == "7f0000000000"
    ensures PaddedHex(0x7f0000001000, AddressWidth) == "7f0000001000"
  {
    HexOfLineStart();
    HexOfLineEnd();
  }

  lemma SpellReadable(low: string, high: string)
    requires low == "7f0000000000" && high == "7f0000001000"
    ensures low + "-" + high + " " + "r--p" + " 00000000 00:00 0 "
         == "7f0000000000-7f0000001000 r--p 00000000 00:00 0 "
  {
  }

  lemma SpellGuard(low: string, high: string)
    requires low == "7f0000000000" && high == "7f0000001000"
    ensures low + "-" + high + " " + "---p" + " 00000000 00:00 0 "
         == "7f0000000000-7f0000001000 ---p 00000000 00:00 0 "
  {
  }

  lemma ReadableLineParts()
    ensures MapsLine(ReadableLine)
         == PaddedHex(0x7f0000000000, AddressWidth) + "-" + PaddedHex(0x7f0000001000, AddressWidth) + " " + "r--p" + " 00000000 00:00 0 "
  {
  }

  lemma GuardLineParts()
    ensures MapsLine(GuardLine)
         == PaddedHex(0x7f0000000000, AddressWidth) + "-" + PaddedHex(0x7f0000001000, AddressWidth) + " " + "---p" + " 00000000 00:00 0 "
  {
  }

  /** The two mappings print as the lines they stand for. */
  lemma ReadableLineSpelled()
    ensures MapsLine(ReadableLine) == "7f0000000000-7f0000001000 r--p 00000000 00:00 0 "
  {
    ReadableLineParts();
    HexOfLineAddresses();
    SpellReadable(PaddedHex(0x7f0000000000, AddressWidth), PaddedHex(0x7f0000001000, AddressWidth));
  }

  lemma GuardLineSpelled()
    ensures MapsLine(GuardLine) == "7f0000000000-7f0000001000 ---p 00000000 00:00 0 "
  {
    GuardLineParts();
    HexOfLineAddresses();
    SpellGuard(PaddedHex(0x7f0000000000, AddressWidth), PaddedHex(0x7f0000001000, AddressWidth));
  }

  /** The maps lines themselves, as text. */
  lemma ParseScenarioText()
    ensures ParseLine("7f0000000000-7f0000001000 r--p 00000000 00:00 0 ")
         == Ok(Some(Range(0x7f0000000000, 0x7f0000001000)))
    ensures ParseLine("7f0000000000-7f0000001000 ---p 00000000 00:00 0 ") == Ok(None)
  {
    ParseScenarioLines();
    ReadableLineSpelled();
    GuardLineSpelled();
  }

  /** The region's line, whose addresses are padded to eight digits. */
  lemma RegionAddressesPadded()
    ensures PaddedHex(0x1000, AddressWidth) == "00001000"
    ensures PaddedHex(0x1010, AddressWidth) == "00001010"
  {
    assert ToHex(0x1) == "1";
    assert ToHex(0x10) == "10";
    assert ToHex(0x100) == "100";
    assert ToHex(0x1000) == "1000";
    assert ToHex(0x101) == "101";
    assert ToHex(0x1010) == "1010";
    assert Zeros(4) == "0000";
  }

  lemma SpellRegion(low: string, high: string)
    requires low == "00001000" && high == "00001010"
    ensures low + "-" + high + " " + "r--p" + " 00000000 00:00 0"
         == "00001000-00001010 r--p 00000000 00:00 0"
  {
  }

  lemma RegionLineParts()
    ensures MapsLine(RegionMapping)
         == PaddedHex(0x1000, AddressWidth) + "-" + PaddedHex(0x1010, AddressWidth) + " " + "r--p" + " 00000000 00:00 0"
  {
  }

  /** A line with zero-padded addresses parses to its range. */
  lemma ParsePaddedLine()
    ensures ParseLine("00001000-00001010 r--p 00000000 00:00 0") == Ok(Some(RegionRange))
  {
    RegionMappingsWellFormed();
    ParseMapsLine(RegionMapping);
    RegionLineParts();
    RegionAddressesPadded();
    SpellRegion(PaddedHex(0x1000, AddressWidth), PaddedHex(0x1010, AddressWidth));
  }
}
