/** The window scan of `find_value`: every readable range is copied out of
    the target in one bulk read, and every byte offset whose `size`-byte
    window reinterprets as `value` is reported as an absolute address. The
    parallel iteration of the source only collects results, in no particular
    order; the model scans the ranges, and the offsets in each, in order. */
module Scan {
  import opened Wrappers
  import opened Text
  import opened TargetMemory
  import opened MemoryMaps
  import opened SeqFacts

  /** Why `find_value` gives no list of addresses. */
  datatype FindError =
    | MapsFailed(error: MapsError)  // the maps text did not parse
    | InvertedRange                 // a range with higher < lower: `higher - lower` panics

  /** The addresses reported for the offsets below `upto` of a region whose
      bytes `data` start at `base`: offset `o` is compared only when
      `o + size < |data|` (the bound exactly as the source writes it), and is
      reported when its window reinterprets as `value`. */
  function Hits<T(==)>(data: seq<Byte>, base: nat, size: nat, decode: seq<Byte> -> T, value: T, upto: nat): seq<nat>
    requires upto <= |data|
    decreases upto
  {
    if upto == 0 then []
    else
      var o := upto - 1;
      Hits(data, base, size, decode, value, o)
        + (if o + size < |data| && decode(data[o..o + size]) == value then [base + o] else [])
  }

  /** An address is reported exactly when it is `base + o` for an offset `o`
      whose whole window fits before the last byte of the region and
      reinterprets as `value`. */
  lemma {:induction false} HitsMembership<T>(data: seq<Byte>, base: nat, size: nat, decode: seq<Byte> -> T, value: T, upto: nat)
    requires upto <= |data|
    ensures forall a :: a in Hits(data, base, size, decode, value, upto)
              <==> base <= a < base + upto && a - base + size < |data|
                   && decode(data[a - base..a - base + size]) == value
    decreases upto
  {
    if upto > 0 {
      HitsMembership(data, base, size, decode, value, upto - 1);
    }
  }

  /** A region never reports an address twice: its addresses increase. */
  lemma {:induction false} HitsIncreasing<T>(data: seq<Byte>, base: nat, size: nat, decode: seq<Byte> -> T, value: T, upto: nat)
    requires upto <= |data|
    ensures Increasing(Hits(data, base, size, decode, value, upto))
    decreases upto
  {
    if upto > 0 {
      HitsIncreasing(data, base, size, decode, value, upto - 1);
      HitsMembership(data, base, size, decode, value, upto - 1);
      var prev := Hits(data, base, size, decode, value, upto - 1);
      assert forall i :: 0 <= i < |prev| ==> prev[i] in prev;
    }
  }

  /** The bound the comment beside it describes ("if we cannot read the
      required number of bytes, then do not attempt to"): a window is compared
      whenever all of its bytes lie in the region, `o + size <= |data|`. The
      source's `>=` also skips the last window that fits exactly. */
  function HitsInclusive<T(==)>(data: seq<Byte>, base: nat, size: nat, decode: seq<Byte> -> T, value: T, upto: nat): seq<nat>
    requires upto <= |data|
    decreases upto
  {
    if upto == 0 then []
    else
      var o := upto - 1;
      HitsInclusive(data, base, size, decode, value, o)
        + (if o + size <= |data| && decode(data[o..o + size]) == value then [base + o] else [])
  }

  /** With the corrected bound an address is reported exactly when its whole
      window lies inside the region and reinterprets as `value`. */
  lemma {:induction false} HitsInclusiveMembership<T>(data: seq<Byte>, base: nat, size: nat, decode: seq<Byte> -> T, value: T, upto: nat)
    requires upto <= |data|
    ensures forall a :: a in HitsInclusive(data, base, size, decode, value, upto)
              <==> base <= a < base + upto && a - base + size <= |data|
                   && decode(data[a - base..a - base + size]) == value
    decreases upto
  {
    if upto > 0 {
      HitsInclusiveMembership(data, base, size, decode, value, upto - 1);
    }
  }

  /** The as-written scan differs from the corrected one only in the window
      that ends exactly at the region's end, which it never compares. */
  lemma AsWrittenMissesOnlyLastWindow<T>(data: seq<Byte>, base: nat, size: nat, decode: seq<Byte> -> T, value: T)
    ensures forall a :: a in HitsInclusive(data, base, size, decode, value, |data|)
              <==> a in Hits(data, base, size, decode, value, |data|)
                   || (0 < size <= |data| && a == base + |data| - size
                       && decode(data[|data| - size..]) == value)
  {
    HitsMembership(data, base, size, decode, value, |data|);
    HitsInclusiveMembership(data, base, size, decode, value, |data|);
    if size <= |data| {
      assert data[|data| - size..|data|] == data[|data| - size..];
    }
  }

  /** One more offset of the region, compared or not. */
  lemma HitsExtend<T>(data: seq<Byte>, base: nat, size: nat, decode: seq<Byte> -> T, value: T, k: nat)
    requires k < |data|
    ensures Hits(data, base, size, decode, value, k + 1)
         == Hits(data, base, size, decode, value, k)
            + (if k + size < |data| && decode(data[k..k + size]) == value then [base + k] else [])
  {
  }

  lemma HitsInclusiveExtend<T>(data: seq<Byte>, base: nat, size: nat, decode: seq<Byte> -> T, value: T, k: nat)
    requires k < |data|
    ensures HitsInclusive(data, base, size, decode, value, k + 1)
         == HitsInclusive(data, base, size, decode, value, k)
            + (if k + size <= |data| && decode(data[k..k + size]) == value then [base + k] else [])
  {
  }

  /** The inner loop of `find_value` over one successfully read region. */
  method ScanRegion<T(==)>(data: seq<Byte>, base: nat, size: nat, decode: seq<Byte> -> T, value: T)
    returns (found: seq<nat>)
    ensures found == Hits(data, base, size, decode, value, |data|)
  {
    found := [];
    var offset := 0;
    while offset < |data|
      invariant offset <= |data|
      invariant found == Hits(data, base, size, decode, value, offset)
    {
      if offset + size >= |data| {
        // not enough bytes left for a window: skipped
      } else if decode(data[offset..offset + size]) == value {
        found := found + [base + offset];
      }
      offset := offset + 1;
    }
  }

  predicate Ordered(ranges: seq<Range>) {
    forall i :: 0 <= i < |ranges| ==> ranges[i].lower <= ranges[i].higher
  }

  /** What one range contributes: nothing when its bulk read fails, otherwise
      the hits of its bytes. An inverted range is never scanned (`find_value`
      fails on it first); it is given no contribution so that this function is
      total. */
  function ScanRange<T(==)>(mem: Memory, range: Range, size: nat, decode: seq<Byte> -> T, value: T): seq<nat>
  {
    if range.higher < range.lower then []
    else match ReadBytes(mem, range.lower, range.higher - range.lower)
      case None => []
      case Some(data) => Hits(data, range.lower, size, decode, value, |data|)
  }

  /** The contributions of all ranges, in range order. */
  function ScanRanges<T(==)>(mem: Memory, ranges: seq<Range>, size: nat, decode: seq<Byte> -> T, value: T): seq<nat>
  {
    if ranges == [] then []
    else ScanRanges(mem, ranges[..|ranges| - 1], size, decode, value)
         + ScanRange(mem, ranges[|ranges| - 1], size, decode, value)
  }

  /** The outcome of `find_value` on a target whose memory is `mem` and whose
      maps file reads `maps`. */
  function FindValueSpec<T(==)>(mem: Memory, maps: string, size: nat, decode: seq<Byte> -> T, value: T)
    : Result<seq<nat>, FindError>
  {
    match RangesOf(Lines(maps))
    case Err(e) => Err(MapsFailed(e))
    case Ok(ranges) =>
      if Ordered(ranges) then Ok(ScanRanges(mem, ranges, size, decode, value)) else Err(InvertedRange)
  }

  /** The body of the scan for one range: bulk-read it and, when the read
      succeeds, compare its windows; a failed read contributes nothing. */
  method ScanOne<T(==)>(mem: Memory, range: Range, size: nat, decode: seq<Byte> -> T, value: T)
    returns (hits: seq<nat>)
    requires range.lower <= range.higher
    ensures hits == ScanRange(mem, range, size, decode, value)
  {
    var numBytes := range.higher - range.lower;
    var data := ReadBytes(mem, range.lower, numBytes);
    hits := [];
    if data.Some? {
      hits := ScanRegion(data.value, range.lower, size, decode, value);
    }
  }

  /** The scan of `find_value` over the parsed ranges, in order; an inverted
      range fails the whole call. */
  method ScanAll<T(==)>(mem: Memory, ranges: seq<Range>, size: nat, decode: seq<Byte> -> T, value: T)
    returns (r: Result<seq<nat>, FindError>)
    ensures r == if Ordered(ranges) then Ok(ScanRanges(mem, ranges, size, decode, value)) else Err(InvertedRange)
  {
    var found: seq<nat> := [];
    var i := 0;
    while i < |ranges|
      invariant 0 <= i <= |ranges|
      invariant Ordered(ranges[..i])
      invariant found == ScanRanges(mem, ranges[..i], size, decode, value)
    {
      var range := ranges[i];
      if range.higher < range.lower {
        return Err(InvertedRange);
      }
      var hits := ScanOne(mem, range, size, decode, value);
      ScanRangesStep(mem, ranges, i, size, decode, value);
      found := found + hits;
      i := i + 1;
    }
    assert ranges[..i] == ranges;
    r := Ok(found);
  }

  /** `find_value`: parse the maps text, then bulk-read every range and
      collect the addresses whose window equals `value`; a range whose read
      fails is skipped silently. */
  method FindValue<T(==)>(mem: Memory, maps: string, size: nat, decode: seq<Byte> -> T, value: T)
    returns (r: Result<seq<nat>, FindError>)
    ensures r == FindValueSpec(mem, maps, size, decode, value)
  {
    var parsed := ParseMaps(maps);
    if parsed.Err? {
      return Err(MapsFailed(parsed.error));
    }
    r := ScanAll(mem, parsed.value, size, decode, value);
  }

  lemma ScanRangesStep<T>(mem: Memory, ranges: seq<Range>, i: nat, size: nat, decode: seq<Byte> -> T, value: T)
    requires i < |ranges| && Ordered(ranges[..i]) && ranges[i].lower <= ranges[i].higher
    ensures Ordered(ranges[..i + 1])
    ensures ScanRanges(mem, ranges[..i + 1], size, decode, value)
         == ScanRanges(mem, ranges[..i], size, decode, value) + ScanRange(mem, ranges[i], size, decode, value)
  {
    var next := ranges[..i + 1];
    assert next[..i] == ranges[..i];
    forall j | 0 <= j < |next| ensures next[j].lower <= next[j].higher {
      if j < i { assert next[j] == ranges[..i][j]; }
    }
  }

  /** Reading a range's contribution in terms of the target's memory: an
      address is reported exactly when the whole range reads, the address lies
      in `[lower, higher - size)`, and a `size`-byte read there reinterprets as
      `value`. So no reported window reaches past the region end. */
  lemma ScanRangeMembership<T>(mem: Memory, range: Range, size: nat, decode: seq<Byte> -> T, value: T, a: nat)
    requires range.lower <= range.higher
    ensures a in ScanRange(mem, range, size, decode, value)
        <==> Mapped(mem, range.lower, range.higher - range.lower)
             && range.lower <= a && a + size < range.higher
             && ReadValue(mem, a, size, decode) == Some(value)
  {
    var len := range.higher - range.lower;
    match ReadBytes(mem, range.lower, len)
    case None =>
    case Some(data) =>
      HitsMembership(data, range.lower, size, decode, value, |data|);
      if range.lower <= a && a + size < range.higher {
        ReadBytesSlice(mem, range.lower, len, a - range.lower, size);
      }
  }

  /** Scanning two lists of ranges one after the other is scanning their
      concatenation. */
  lemma ScanRangesAppend<T>(mem: Memory, xs: seq<Range>, ys: seq<Range>, size: nat, decode: seq<Byte> -> T, value: T)
    ensures ScanRanges(mem, xs + ys, size, decode, value)
         == ScanRanges(mem, xs, size, decode, value) + ScanRanges(mem, ys, size, decode, value)
  {
    var f := RangeScanner(mem, size, decode, value);
    ScanRangesIsConcatMap(mem, xs + ys, size, decode, value);
    ScanRangesIsConcatMap(mem, xs, size, decode, value);
    ScanRangesIsConcatMap(mem, ys, size, decode, value);
    ConcatMapAppend(f, xs, ys);
  }

  /** `ScanRange` with everything but the range fixed. */
  function RangeScanner<T(==)>(mem: Memory, size: nat, decode: seq<Byte> -> T, value: T): Range -> seq<nat>
  {
    range => ScanRange(mem, range, size, decode, value)
  }

  lemma {:induction false} ScanRangesIsConcatMap<T>(mem: Memory, ranges: seq<Range>, size: nat, decode: seq<Byte> -> T, value: T)
    ensures ScanRanges(mem, ranges, size, decode, value) == ConcatMap(RangeScanner(mem, size, decode, value), ranges)
    decreases |ranges|
  {
    if ranges != [] {
      ScanRangesIsConcatMap(mem, ranges[..|ranges| - 1], size, decode, value);
    }
  }

  /** An address is found exactly when some range reports it. */
  lemma {:induction false} ScanRangesMembership<T>(mem: Memory, ranges: seq<Range>, size: nat, decode: seq<Byte> -> T, value: T, a: nat)
    ensures a in ScanRanges(mem, ranges, size, decode, value)
        <==> exists i :: 0 <= i < |ranges| && a in ScanRange(mem, ranges[i], size, decode, value)
    decreases |ranges|
  {
    if ranges != [] {
      var init := ranges[..|ranges| - 1];
      ScanRangesMembership(mem, init, size, decode, value, a);
      assert forall i :: 0 <= i < |init| ==> init[i] == ranges[i];
    }
  }

  /** A range whose bulk read fails contributes nothing and does not fail the
      scan: the result is that of the scan without it. */
  lemma UnreadableRangeContributesNothing<T>(mem: Memory, ranges: seq<Range>, i: nat, size: nat, decode: seq<Byte> -> T, value: T)
    requires i < |ranges| && ranges[i].lower <= ranges[i].higher
    requires ReadBytes(mem, ranges[i].lower, ranges[i].higher - ranges[i].lower).None?
    ensures ScanRanges(mem, ranges, size, decode, value)
         == ScanRanges(mem, ranges[..i] + ranges[i + 1..], size, decode, value)
  {
    var pre, post := ranges[..i], ranges[i + 1..];
    var mid := pre + [ranges[i]];
    assert ranges == mid + post;
    ScanRangesAppend(mem, mid, post, size, decode, value);
    assert mid[..|mid| - 1] == pre;
    assert ScanRange(mem, ranges[i], size, decode, value) == [];
    assert ScanRanges(mem, mid, size, decode, value) == ScanRanges(mem, pre, size, decode, value);
    ScanRangesAppend(mem, pre, post, size, decode, value);
  }

  /** Every address `find_value` returns lay, at the time of the scan, inside
      a parsed range, at least `size` bytes before its end, and reads back as
      `value`. */
  lemma FoundAddressesHoldValue<T>(mem: Memory, maps: string, size: nat, decode: seq<Byte> -> T, value: T)
    requires FindValueSpec(mem, maps, size, decode, value).Ok?
    ensures RangesOf(Lines(maps)).Ok?
    ensures forall a :: a in FindValueSpec(mem, maps, size, decode, value).value ==>
              ReadValue(mem, a, size, decode) == Some(value)
              && exists range :: range in RangesOf(Lines(maps)).value
                                 && range.lower <= a && a + size < range.higher
  {
    var ranges := RangesOf(Lines(maps)).value;
    forall a | a in FindValueSpec(mem, maps, size, decode, value).value
      ensures ReadValue(mem, a, size, decode) == Some(value)
      ensures exists range :: range in ranges && range.lower <= a && a + size < range.higher
    {
      ScanRangesMembership(mem, ranges, size, decode, value, a);
      var i :| 0 <= i < |ranges| && a in ScanRange(mem, ranges[i], size, decode, value);
      ScanRangeMembership(mem, ranges[i], size, decode, value, a);
      assert ranges[i] in ranges;
    }
  }
}
