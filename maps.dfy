/** Reading the text of `/proc/<pid>/maps` into the list of readable address
    ranges: the first half of `find_value`. The file's contents are the
    input; opening and reading the file is not part of this model. */
module MemoryMaps {
  import opened Wrappers
  import opened Text

  /** One `(lower, higher)` pair of `ranges`: the mapping `[lower, higher)`. */
  datatype Range = Range(lower: nat, higher: nat)

  /** The `?` exits of the parsing loop. */
  datatype MapsError =
    | EmptyLine                       // a line without any field
    | MissingFlags                    // a line with an address field but no flags field
    | MissingRange                    // a readable line whose first field has no '-'
    | BadAddress(kind: IntErrorKind)  // `from_str_radix` rejected either half

  /** What one line contributes: an error, nothing (flags without 'r'), or
      the range written in its first field. */
  function ParseLine(line: string): (r: Result<Option<Range>, MapsError>)
    ensures r.Ok? && r.value.Some? ==> r.value.value.lower <= UsizeMax && r.value.value.higher <= UsizeMax
  {
    var fields := Fields(line);
    if |fields| == 0 then Err(EmptyLine)
    else if |fields| == 1 then Err(MissingFlags)
    else if 'r' !in fields[1] then Ok(None)
    else match SplitOnce(fields[0], '-')
      case None => Err(MissingRange)
      case Some((lo, hi)) =>
        match ParseUsizeHex(lo)
        case Err(kind) => Err(BadAddress(kind))
        case Ok(lower) =>
          match ParseUsizeHex(hi)
          case Err(kind) => Err(BadAddress(kind))
          case Ok(higher) => Ok(Some(Range(lower, higher)))
  }

  /** The outcome of the parsing loop over `lines`, taken in order: the error
      of the first line that fails, otherwise the ranges of the readable lines. */
  function RangesOf(lines: seq<string>): Result<seq<Range>, MapsError>
  {
    if lines == [] then Ok([])
    else match RangesOf(lines[..|lines| - 1])
      case Err(e) => Err(e)
      case Ok(ranges) =>
        match ParseLine(lines[|lines| - 1])
        case Err(e) => Err(e)
        case Ok(None) => Ok(ranges)
        case Ok(Some(range)) => Ok(ranges + [range])
  }

  /** The parsing loop of `find_value`: every line of the maps text is split
      into whitespace-separated fields; a line whose flags (second field)
      contain 'r' has its first field split at '-' and both halves parsed as
      hexadecimal, and the pair is pushed; any malformed line ends the whole
      parse with its error. */
  method ParseMaps(text: string) returns (r: Result<seq<Range>, MapsError>)
    ensures r == RangesOf(Lines(text))
  {
    var lines := Lines(text);
    var ranges: seq<Range> := [];
    var i := 0;
    while i < |lines|
      invariant 0 <= i <= |lines|
      invariant RangesOf(lines[..i]) == Ok(ranges)
    {
      var outcome := ParseOneLine(lines[i]);
      if outcome.Err? {
        RangesOfFailsAt(lines, i, outcome.error);
        return Err(outcome.error);
      }
      RangesOfPrefixStep(lines, i, ranges, outcome.value);
      if outcome.value.Some? {
        ranges := ranges + [outcome.value.value];
      } else {
        assert ranges + [] == ranges;
      }
      i := i + 1;
    }
    assert lines[..i] == lines;
    r := Ok(ranges);
  }

  /** The body of the parsing loop for one line: the failures in the order
      the source meets them, an unreadable line skipped, a readable one
      turned into its range. */
  method ParseOneLine(line: string) returns (r: Result<Option<Range>, MapsError>)
    ensures r == ParseLine(line)
  {
    var fields := Fields(line);
    if |fields| == 0 {
      return Err(EmptyLine);
    }
    if |fields| == 1 {
      return Err(MissingFlags);
    }
    var flags := fields[1];
    if 'r' !in flags {
      return Ok(None);
    }
    var split := SplitOnce(fields[0], '-');
    if split.None? {
      return Err(MissingRange);
    }
    var lower := ParseUsizeHex(split.value.0);
    if lower.Err? {
      return Err(BadAddress(lower.error));
    }
    var higher := ParseUsizeHex(split.value.1);
    if higher.Err? {
      return Err(BadAddress(higher.error));
    }
    r := Ok(Some(Range(lower.value, higher.value)));
  }

  /** One more line of the prefix, when it parses. */
  lemma RangesOfPrefixStep(lines: seq<string>, i: nat, ranges: seq<Range>, outcome: Option<Range>)
    requires i < |lines| && RangesOf(lines[..i]) == Ok(ranges) && ParseLine(lines[i]) == Ok(outcome)
    ensures RangesOf(lines[..i + 1]) == Ok(ranges + (if outcome.Some? then [outcome.value] else []))
  {
    var next := lines[..i + 1];
    assert next[..|next| - 1] == lines[..i] && next[|next| - 1] == lines[i];
    assert ranges + [] == ranges;
  }

  /** A line that fails after a prefix that parses fails the whole parse. */
  lemma RangesOfFailsAt(lines: seq<string>, i: nat, e: MapsError)
    requires i < |lines| && RangesOf(lines[..i]).Ok? && ParseLine(lines[i]) == Err(e)
    ensures RangesOf(lines) == Err(e)
  {
    var prefix := lines[..i + 1];
    assert prefix[..i] == lines[..i] && prefix[i] == lines[i];
    RangesOfErrorPersists(lines, i + 1);
  }

  /** Once a prefix of the lines fails, the whole parse fails with that error. */
  lemma {:induction false} RangesOfErrorPersists(lines: seq<string>, n: nat)
    requires n <= |lines|
    requires RangesOf(lines[..n]).Err?
    ensures RangesOf(lines) == RangesOf(lines[..n])
    decreases |lines| - n
  {
    if n < |lines| {
      var longer := lines[..n + 1];
      assert longer[..n] == lines[..n];
      RangesOfErrorPersists(lines, n + 1);
    } else {
      assert lines[..n] == lines;
    }
  }

  /** The parse fails exactly when some line fails, and then with the error of
      the first such line; no partial list of ranges is ever returned. */
  lemma {:induction false} RangesOfFailsAtFirstBadLine(lines: seq<string>)
    ensures RangesOf(lines).Err? <==> exists i :: 0 <= i < |lines| && ParseLine(lines[i]).Err?
    ensures RangesOf(lines).Err? ==>
              exists i :: 0 <= i < |lines| && ParseLine(lines[i]) == Err(RangesOf(lines).error)
                       && forall j :: 0 <= j < i ==> ParseLine(lines[j]).Ok?
    decreases |lines|
  {
    if lines != [] {
      var init := lines[..|lines| - 1];
      RangesOfFailsAtFirstBadLine(init);
      assert forall j :: 0 <= j < |init| ==> init[j] == lines[j];
      if RangesOf(init).Err? {
        var i :| 0 <= i < |init| && ParseLine(init[i]) == Err(RangesOf(init).error)
                 && forall j :: 0 <= j < i ==> ParseLine(init[j]).Ok?;
        assert ParseLine(lines[i]) == Err(RangesOf(lines).error);
      } else if ParseLine(lines[|lines| - 1]).Err? {
        assert forall j :: 0 <= j < |lines| - 1 ==> ParseLine(lines[j]).Ok?;
      } else {
        forall i | 0 <= i < |lines| ensures ParseLine(lines[i]).Ok? {
          if i < |init| { assert lines[i] == init[i]; }
        }
      }
    }
  }

  /** Ranges appear in line order: parsing two blocks of lines is parsing the
      first, then the second, and concatenating the ranges. */
  lemma {:induction false} RangesOfAppend(a: seq<string>, b: seq<string>)
    ensures RangesOf(a + b)
         == match RangesOf(a)
            case Err(e) => Err(e)
            case Ok(ra) =>
              match RangesOf(b)
              case Err(e) => Err(e)
              case Ok(rb) => Ok(ra + rb)
    decreases |b|
  {
    if b == [] {
      assert a + b == a;
      match RangesOf(a)
      case Err(e) =>
      case Ok(ra) => assert ra + [] == ra;
    } else {
      var init := b[..|b| - 1];
      assert (a + b)[..|a + b| - 1] == a + init;
      assert (a + b)[|a + b| - 1] == b[|b| - 1];
      RangesOfAppend(a, init);
      match RangesOf(a)
      case Err(e) =>
      case Ok(ra) =>
        match RangesOf(init)
        case Err(e) =>
        case Ok(ri) =>
          match ParseLine(b[|b| - 1])
          case Err(e) =>
          case Ok(None) =>
          case Ok(Some(range)) => assert ra + (ri + [range]) == (ra + ri) + [range];
    }
  }

  /** A well-formed line contributes a range exactly when its flags field
      contains 'r'. */
  lemma LineKeptIffReadable(line: string)
    requires ParseLine(line).Ok?
    ensures |Fields(line)| >= 2
    ensures ParseLine(line).value.Some? <==> 'r' in Fields(line)[1]
  {
  }

  /** A line whose flags lack 'r' is never split or parsed further, so its
      first field cannot make the parse fail. */
  lemma UnreadableLineNeverFails(line: string)
    requires |Fields(line)| >= 2 && 'r' !in Fields(line)[1]
    ensures ParseLine(line) == Ok(None)
  {
  }

  // ---------------------------------------------------------------------
  // The maps file as Linux prints it
  // ---------------------------------------------------------------------

  /** One mapping as Linux prints it: `start-end perms` followed by the
      remaining columns (offset, device, inode, path). */
  datatype Mapping = Mapping(start: nat, end: nat, perms: string, rest: string)

  /** Linux prints both addresses of a line zero-padded to at least eight
      hexadecimal digits (`00400000-00452000 r-xp ...`). */
  const AddressWidth: nat := 8

  predicate WellFormedMapping(m: Mapping) {
    m.start <= UsizeMax && m.end <= UsizeMax
    && m.perms != [] && NoWhitespace(m.perms)
    && (m.rest == [] || IsWhitespace(m.rest[0]))
    && '\n' !in m.rest && '\r' !in m.rest
  }

  function MapsLine(m: Mapping): string {
    PaddedHex(m.start, AddressWidth) + "-" + PaddedHex(m.end, AddressWidth) + " " + m.perms + m.rest
  }

  /** The whole file: one line per mapping, each ended by '\n'. */
  function RenderMaps(ms: seq<Mapping>): string {
    if ms == [] then [] else RenderMaps(ms[..|ms| - 1]) + MapsLine(ms[|ms| - 1]) + "\n"
  }

  /** The ranges of the mappings whose permissions contain 'r', in order. */
  function ReadableRanges(ms: seq<Mapping>): seq<Range> {
    if ms == [] then []
    else
      var last := ms[|ms| - 1];
      ReadableRanges(ms[..|ms| - 1]) + (if 'r' in last.perms then [Range(last.start, last.end)] else [])
  }

  /** The address field of a printed line: `start-end` in hexadecimal. */
  function AddressField(m: Mapping): string {
    PaddedHex(m.start, AddressWidth) + "-" + PaddedHex(m.end, AddressWidth)
  }

  lemma AddressFieldHasNoWhitespace(m: Mapping)
    ensures AddressField(m) != [] && NoWhitespace(AddressField(m))
  {
    var lo, hi, range := PaddedHex(m.start, AddressWidth), PaddedHex(m.end, AddressWidth), AddressField(m);
    PaddedHexHasNoDash(m.start, AddressWidth);
    PaddedHexHasNoDash(m.end, AddressWidth);
    forall i | 0 <= i < |range| ensures !IsWhitespace(range[i]) {
      if i < |lo| { assert range[i] == lo[i]; }
      else if i > |lo| { assert range[i] == hi[i - |lo| - 1]; }
    }
  }

  /** The first two fields of a printed line are its address field and its
      permissions. */
  lemma FieldsOfMapsLine(m: Mapping)
    requires WellFormedMapping(m)
    ensures |Fields(MapsLine(m))| >= 2
    ensures Fields(MapsLine(m))[0] == AddressField(m) && Fields(MapsLine(m))[1] == m.perms
  {
    var range := AddressField(m);
    AddressFieldHasNoWhitespace(m);
    assert MapsLine(m) == range + (" " + (m.perms + m.rest));
    FieldsOfWord(range, " " + (m.perms + m.rest));
    FieldsSkipWhitespace(' ', m.perms + m.rest);
    FieldsOfWord(m.perms, m.rest);
  }

  /** Splitting the address field at its first '-' gives the two printed numbers. */
  lemma SplitAddressField(m: Mapping)
    ensures SplitOnce(AddressField(m), '-') == Some((PaddedHex(m.start, AddressWidth), PaddedHex(m.end, AddressWidth)))
  {
    var lo, hi, range := PaddedHex(m.start, AddressWidth), PaddedHex(m.end, AddressWidth), AddressField(m);
    PaddedHexHasNoDash(m.start, AddressWidth);
    assert IndexOf(range, '-') == |lo| by {
      assert range[|lo|] == '-';
      forall i | 0 <= i < |lo| ensures range[i] != '-' { assert range[i] == lo[i]; }
      IndexOfIsFirst(range, '-', |lo|);
    }
    assert range[..|lo|] == lo && range[|lo| + 1..] == hi;
  }

  /** A printed line parses back to its mapping's range, or to nothing when
      the mapping is not readable. */
  lemma ParseMapsLine(m: Mapping)
    requires WellFormedMapping(m)
    ensures ParseLine(MapsLine(m)) == Ok(if 'r' in m.perms then Some(Range(m.start, m.end)) else None)
  {
    FieldsOfMapsLine(m);
    if 'r' in m.perms {
      SplitAddressField(m);
      ParseUsizeHexOfPaddedHex(m.start, AddressWidth);
      ParseUsizeHexOfPaddedHex(m.end, AddressWidth);
    }
  }

  /** A printed line holds no '\n' and does not end in '\r'. */
  lemma MapsLineIsOneLine(m: Mapping)
    requires WellFormedMapping(m)
    ensures '\n' !in MapsLine(m)
    ensures MapsLine(m) == [] || MapsLine(m)[|MapsLine(m)| - 1] != '\r'
  {
    var range, line := AddressField(m), MapsLine(m);
    AddressFieldHasNoWhitespace(m);
    assert line == range + " " + m.perms + m.rest;
    var k := |range| + 1 + |m.perms|;
    forall i | 0 <= i < |line| ensures line[i] != '\n' && (i == |line| - 1 ==> line[i] != '\r') {
      if i < |range| { assert line[i] == range[i]; }
      else if |range| < i < k { assert line[i] == m.perms[i - |range| - 1]; }
      else if k <= i { assert line[i] == m.rest[i - k]; }
    }
  }

  lemma RenderMapsEndsLine(ms: seq<Mapping>)
    ensures RenderMaps(ms) == [] || RenderMaps(ms)[|RenderMaps(ms)| - 1] == '\n'
  {
  }

  /** One more line that parses adds its range, if any, to the ranges. */
  lemma RangesOfSnoc(lines: seq<string>, line: string, ranges: seq<Range>, outcome: Option<Range>)
    requires RangesOf(lines) == Ok(ranges) && ParseLine(line) == Ok(outcome)
    ensures RangesOf(lines + [line]) == Ok(ranges + (if outcome.Some? then [outcome.value] else []))
  {
    var all := lines + [line];
    assert all[..|all| - 1] == lines && all[|all| - 1] == line;
    match outcome
    case None => assert RangesOf(all) == Ok(ranges); assert ranges + [] == ranges;
    case Some(range) => assert RangesOf(all) == Ok(ranges + [range]);
  }

  /** Printing one more mapping adds exactly its line to the lines of the file. */
  lemma LinesOfRenderSnoc(ms: seq<Mapping>)
    requires ms != [] && WellFormedMapping(ms[|ms| - 1])
    ensures Lines(RenderMaps(ms)) == Lines(RenderMaps(ms[..|ms| - 1])) + [MapsLine(ms[|ms| - 1])]
  {
    var init, last := ms[..|ms| - 1], ms[|ms| - 1];
    MapsLineIsOneLine(last);
    RenderMapsEndsLine(init);
    LinesSnoc(RenderMaps(init), MapsLine(last));
  }

  /** Parsing a maps file printed as Linux prints it gives exactly the ranges of its
      readable mappings, in file order. */
  lemma {:induction false} ParseRenderedMaps(ms: seq<Mapping>)
    requires forall i :: 0 <= i < |ms| ==> WellFormedMapping(ms[i])
    ensures RangesOf(Lines(RenderMaps(ms))) == Ok(ReadableRanges(ms))
  {
    if ms != [] {
      var init, last := ms[..|ms| - 1], ms[|ms| - 1];
      assert forall i :: 0 <= i < |init| ==> init[i] == ms[i];
      ParseRenderedMaps(init);
      LinesOfRenderSnoc(ms);
      ParseMapsLine(last);
      RangesOfSnoc(Lines(RenderMaps(init)), MapsLine(last), ReadableRanges(init),
                   if 'r' in last.perms then Some(Range(last.start, last.end)) else None);
    }
  }
}
