/** The Rust standard-library string operations that the memory-map parser
    of `find_value` relies on: `str::lines`, `str::split_whitespace`,
    `str::split_once` and `usize::from_str_radix(_, 16)` on a 64-bit target.
    Each is a function over `string`, with the lemmas the parser needs and an
    inverse (joining, rendering) where one exists. */
module Text {
  import opened Wrappers

  // ---------------------------------------------------------------------
  // Characters
  // ---------------------------------------------------------------------

  /** `char::is_whitespace`: the Unicode White_Space property. */
  predicate IsWhitespace(c: char) {
    ('\t' <= c <= '\r') || c == ' ' || c == '\U{85}' || c == '\U{A0}' || c == '\U{1680}'
    || ('\U{2000}' <= c <= '\U{200A}') || c == '\U{2028}' || c == '\U{2029}'
    || c == '\U{202F}' || c == '\U{205F}' || c == '\U{3000}'
  }

  predicate NoWhitespace(s: string) {
    forall i :: 0 <= i < |s| ==> !IsWhitespace(s[i])
  }

  /** Index of the first `c` in `s`, or `|s|` when `s` has none. */
  function IndexOf(s: string, c: char): (k: nat)
    ensures k <= |s|
    ensures k < |s| ==> s[k] == c
    ensures forall i :: 0 <= i < k ==> s[i] != c
  {
    if s == [] || s[0] == c then 0 else 1 + IndexOf(s[1..], c)
  }

  // ---------------------------------------------------------------------
  // str::lines
  // ---------------------------------------------------------------------

  /** A line that was ended by "\r\n" loses its '\r' as well. */
  function StripCarriageReturn(line: string): string {
    if |line| > 0 && line[|line| - 1] == '\r' then line[..|line| - 1] else line
  }

  /** `str::lines`: the text cut at every '\n'; a line ended by "\r\n" loses the
      '\r'; a last line without a terminator is kept unchanged; a final '\n'
      does not start an empty line, and the empty text has no lines. */
  function Lines(s: string): seq<string>
    decreases |s|
  {
    if s == [] then []
    else
      var k := IndexOf(s, '\n');
      if k == |s| then [s]
      else [StripCarriageReturn(s[..k])] + Lines(s[k + 1..])
  }

  /** A line without '\n' that does not end in '\r', followed by its
      terminator, is read back as that one line. */
  lemma LinesOfTerminatedLine(line: string)
    requires '\n' !in line
    requires line == [] || line[|line| - 1] != '\r'
    ensures Lines(line + "\n") == [line]
  {
    var s := line + "\n";
    assert s[|line|] == '\n';
    forall i | 0 <= i < |line| ensures s[i] != '\n' { assert s[i] == line[i]; }
    IndexOfIsFirst(s, '\n', |line|);
    assert s[..|line|] == line;
    assert s[|line| + 1..] == [];
    assert StripCarriageReturn(line) == line;
  }

  /** Appending text after a separator does not move its first occurrence. */
  lemma IndexOfExtend(x: string, y: string, c: char)
    requires IndexOf(x, c) < |x|
    ensures IndexOf(x + y, c) == IndexOf(x, c)
  {
    var k, s := IndexOf(x, c), x + y;
    assert s[k] == c;
    forall i | 0 <= i < k ensures s[i] != c { assert s[i] == x[i]; }
    IndexOfIsFirst(s, c, k);
  }

  /** One step of `Lines` at the first newline. */
  lemma LinesSplit(s: string, k: nat)
    requires k < |s| && k == IndexOf(s, '\n')
    ensures Lines(s) == [StripCarriageReturn(s[..k])] + Lines(s[k + 1..])
  {
  }

  lemma LinesAssociate(a: seq<string>, b: seq<string>, c: seq<string>)
    ensures (a + b) + c == a + (b + c)
  {
  }

  /** `lines` distributes over a concatenation whose left part is empty or
      ends with a line terminator. */
  lemma {:induction false} LinesAppend(x: string, y: string)
    requires x == [] || x[|x| - 1] == '\n'
    ensures Lines(x + y) == Lines(x) + Lines(y)
    decreases |x|
  {
    if x == [] {
      assert x + y == y;
    } else {
      var k := IndexOf(x, '\n');
      assert k < |x|;
      var s := x + y;
      IndexOfExtend(x, y, '\n');
      assert s[..k] == x[..k];
      assert s[k + 1..] == x[k + 1..] + y;
      LinesAppend(x[k + 1..], y);
      LinesSplit(x, k);
      LinesSplit(s, k);
      LinesAssociate([StripCarriageReturn(x[..k])], Lines(x[k + 1..]), Lines(y));
    }
  }

  /** Appending one terminated line to text that ends at a line boundary
      appends that line to its lines. */
  lemma LinesSnoc(prefix: string, line: string)
    requires prefix == [] || prefix[|prefix| - 1] == '\n'
    requires '\n' !in line
    requires line == [] || line[|line| - 1] != '\r'
    ensures Lines(prefix + line + "\n") == Lines(prefix) + [line]
  {
    assert prefix + line + "\n" == prefix + (line + "\n");
    LinesAppend(prefix, line + "\n");
    LinesOfTerminatedLine(line);
  }

  /** `IndexOf` is the first position holding `c`. */
  lemma {:induction false} IndexOfIsFirst(s: string, c: char, k: nat)
    requires k < |s| && s[k] == c
    requires forall i :: 0 <= i < k ==> s[i] != c
    ensures IndexOf(s, c) == k
    decreases k
  {
    if k > 0 {
      IndexOfIsFirst(s[1..], c, k - 1);
    }
  }

  // ---------------------------------------------------------------------
  // str::split_whitespace
  // ---------------------------------------------------------------------

  /** Length of the run of non-whitespace characters that starts `s`. */
  function WordEnd(s: string): (k: nat)
    ensures k <= |s|
    ensures k < |s| ==> IsWhitespace(s[k])
    ensures forall i :: 0 <= i < k ==> !IsWhitespace(s[i])
  {
    if s == [] || IsWhitespace(s[0]) then 0 else 1 + WordEnd(s[1..])
  }

  /** `str::split_whitespace`: the maximal runs of non-whitespace characters,
      in order; every field is non-empty and holds no whitespace. */
  function Fields(s: string): (fs: seq<string>)
    ensures forall i :: 0 <= i < |fs| ==> fs[i] != [] && NoWhitespace(fs[i])
    decreases |s|
  {
    if s == [] then []
    else if IsWhitespace(s[0]) then Fields(s[1..])
    else
      var k := WordEnd(s);
      [s[..k]] + Fields(s[k..])
  }

  /** A word followed by nothing or by whitespace is the first field. */
  lemma FieldsOfWord(w: string, rest: string)
    requires w != [] && NoWhitespace(w)
    requires rest == [] || IsWhitespace(rest[0])
    ensures Fields(w + rest) == [w] + Fields(rest)
  {
    var s := w + rest;
    assert WordEnd(s) == |w| by {
      WordEndIsFirst(s, |w|);
    }
    assert s[..|w|] == w;
    assert s[|w|..] == rest;
  }

  /** Leading whitespace does not change the fields. */
  lemma FieldsSkipWhitespace(c: char, rest: string)
    requires IsWhitespace(c)
    ensures Fields([c] + rest) == Fields(rest)
  {
    assert ([c] + rest)[1..] == rest;
  }

  lemma {:induction false} WordEndIsFirst(s: string, k: nat)
    requires k <= |s|
    requires k < |s| ==> IsWhitespace(s[k])
    requires forall i :: 0 <= i < k ==> !IsWhitespace(s[i])
    ensures WordEnd(s) == k
    decreases k
  {
    if k > 0 {
      WordEndIsFirst(s[1..], k - 1);
    }
  }

  /** Words joined by single spaces. */
  function JoinWords(ws: seq<string>): string {
    if ws == [] then [] else if |ws| == 1 then ws[0] else ws[0] + " " + JoinWords(ws[1..])
  }

  /** `split_whitespace` undoes joining non-empty, whitespace-free words with spaces. */
  lemma {:induction false} FieldsOfJoinWords(ws: seq<string>)
    requires forall i :: 0 <= i < |ws| ==> ws[i] != [] && NoWhitespace(ws[i])
    ensures Fields(JoinWords(ws)) == ws
  {
    if ws == [] {
    } else if |ws| == 1 {
      FieldsOfWord(ws[0], []);
      assert ws[0] + [] == ws[0];
    } else {
      var rest := JoinWords(ws[1..]);
      assert ws[0] + " " + rest == ws[0] + (" " + rest);
      FieldsOfWord(ws[0], " " + rest);
      FieldsSkipWhitespace(' ', rest);
      FieldsOfJoinWords(ws[1..]);
    }
  }

  // ---------------------------------------------------------------------
  // str::split_once
  // ---------------------------------------------------------------------

  /** `str::split_once(c)`: the text before and after the first `c`, or
      nothing when `s` holds no `c`. */
  function SplitOnce(s: string, c: char): (r: Option<(string, string)>)
    ensures r.None? <==> c !in s
    ensures r.Some? ==> s == r.value.0 + [c] + r.value.1 && c !in r.value.0
  {
    var k := IndexOf(s, c);
    if k == |s| then None
    else
      assert s == s[..k] + [c] + s[k + 1..];
      Some((s[..k], s[k + 1..]))
  }

  // ---------------------------------------------------------------------
  // usize::from_str_radix(_, 16)
  // ---------------------------------------------------------------------

  /** `usize::MAX` on a 64-bit target. */
  const UsizeMax: nat := 0xFFFF_FFFF_FFFF_FFFF

  /** `core::num::IntErrorKind`, the kinds an unsigned parse can report. */
  datatype IntErrorKind = Empty | InvalidDigit | PosOverflow

  /** `char::to_digit(16)` accepts both letter cases. */
  predicate IsHexDigit(c: char) {
    '0' <= c <= '9' || 'a' <= c <= 'f' || 'A' <= c <= 'F'
  }

  predicate AllHexDigits(s: string) {
    forall i :: 0 <= i < |s| ==> IsHexDigit(s[i])
  }

  function HexDigitValue(c: char): (d: nat)
    requires IsHexDigit(c)
    ensures d < 16
  {
    if '0' <= c <= '9' then c as int - '0' as int
    else if 'a' <= c <= 'f' then c as int - 'a' as int + 10
    else c as int - 'A' as int + 10
  }

  /** One turn of the digit loop: the digit is checked first, then the
      multiplication by the radix and the addition, for overflow. */
  function DigitStep(acc: nat, c: char): Result<nat, IntErrorKind> {
    if !IsHexDigit(c) then Err(InvalidDigit)
    else if acc * 16 + HexDigitValue(c) > UsizeMax then Err(PosOverflow)
    else Ok(acc * 16 + HexDigitValue(c))
  }

  /** The digit loop, left to right, stopping at the first problem. */
  function FoldDigits(digits: string, acc: nat): (r: Result<nat, IntErrorKind>)
    requires acc <= UsizeMax
    ensures r.Ok? ==> r.value <= UsizeMax
    ensures r.Err? ==> r.error != Empty
    decreases |digits|
  {
    if digits == [] then Ok(acc)
    else match DigitStep(acc, digits[0])
      case Err(e) => Err(e)
      case Ok(v) => FoldDigits(digits[1..], v)
  }

  /** The digits after an optional leading '+'. */
  function Unsigned(s: string): string {
    if s != [] && s[0] == '+' then s[1..] else s
  }

  /** `usize::from_str_radix(s, 16)`: the empty text is `Empty`; a lone sign is
      `InvalidDigit`; one leading '+' is accepted; '-' is an invalid digit for
      an unsigned type; a value above `usize::MAX` is `PosOverflow`. */
  function ParseUsizeHex(s: string): (r: Result<nat, IntErrorKind>)
    ensures r.Ok? ==> r.value <= UsizeMax
    ensures r == Err(Empty) <==> s == []
  {
    if s == [] then Err(Empty)
    else if s[0] == '+' then (if |s| == 1 then Err(InvalidDigit) else FoldDigits(s[1..], 0))
    else FoldDigits(s, 0)
  }

  /** The positional value of a string of hex digits (a reference definition,
      independent of the overflow-checking loop). */
  function HexValue(ds: string): nat
    requires AllHexDigits(ds)
  {
    if ds == [] then 0 else HexValue(ds[..|ds| - 1]) * 16 + HexDigitValue(ds[|ds| - 1])
  }

  /** Running the loop over one more digit is one more `DigitStep`. */
  lemma {:induction false} FoldDigitsSnoc(ds: string, c: char, acc: nat)
    requires acc <= UsizeMax
    ensures FoldDigits(ds + [c], acc)
         == match FoldDigits(ds, acc)
            case Err(e) => Err(e)
            case Ok(v) => DigitStep(v, c)
    decreases |ds|
  {
    if ds == [] {
      assert ds + [c] == [c];
      assert [c][1..] == [];
    } else {
      assert (ds + [c])[0] == ds[0];
      assert (ds + [c])[1..] == ds[1..] + [c];
      match DigitStep(acc, ds[0])
      case Err(e) =>
      case Ok(v) => FoldDigitsSnoc(ds[1..], c, v);
    }
  }

  /** Starting from zero, the loop succeeds exactly on non-overflowing hex
      digit strings, and then computes their positional value. */
  lemma {:induction false} FoldDigitsFromZero(ds: string)
    ensures FoldDigits(ds, 0).Ok? <==> AllHexDigits(ds) && HexValue(ds) <= UsizeMax
    ensures FoldDigits(ds, 0).Ok? ==> FoldDigits(ds, 0).value == HexValue(ds)
    decreases |ds|
  {
    if ds != [] {
      var init, c := ds[..|ds| - 1], ds[|ds| - 1];
      assert ds == init + [c];
      FoldDigitsSnoc(init, c, 0);
      FoldDigitsFromZero(init);
      if AllHexDigits(ds) {
        assert AllHexDigits(init);
      }
    }
  }

  /** `ParseUsizeHex` accepts exactly a non-empty run of hex digits (after an
      optional '+') whose value fits in a `usize`, and returns that value. */
  lemma ParseUsizeHexMeaning(s: string)
    ensures ParseUsizeHex(s).Ok?
        <==> Unsigned(s) != [] && AllHexDigits(Unsigned(s)) && HexValue(Unsigned(s)) <= UsizeMax
    ensures ParseUsizeHex(s).Ok? ==> ParseUsizeHex(s).value == HexValue(Unsigned(s))
  {
    if s != [] && s[0] == '+' && |s| == 1 {
      assert Unsigned(s) == [];
    } else if s != [] {
      FoldDigitsFromZero(Unsigned(s));
      if s[0] != '+' {
        assert Unsigned(s) != [];
      }
    }
  }

  function HexDigitChar(d: nat): (c: char)
    requires d < 16
    ensures IsHexDigit(c) && HexDigitValue(c) == d && c != '+' && c != '-'
  {
    if d < 10 then ('0' as int + d) as char else ('a' as int + d - 10) as char
  }

  /** Lower-case hexadecimal without leading zeros. */
  function ToHex(n: nat): (s: string)
    ensures s != [] && AllHexDigits(s)
    decreases n
  {
    if n < 16 then [HexDigitChar(n)] else ToHex(n / 16) + [HexDigitChar(n % 16)]
  }

  lemma {:induction false} HexValueOfToHex(n: nat)
    ensures HexValue(ToHex(n)) == n
    decreases n
  {
    var s := ToHex(n);
    if n >= 16 {
      assert s[..|s| - 1] == ToHex(n / 16);
      HexValueOfToHex(n / 16);
    }
  }

  /** `k` zeros. */
  function Zeros(k: nat): (s: string)
    ensures |s| == k && forall i :: 0 <= i < k ==> s[i] == '0'
  {
    seq(k, i => '0')
  }

  /** Lower-case hexadecimal padded with leading zeros to at least `width`
      digits, as Linux prints the addresses of `/proc/<pid>/maps` (width 8). */
  function PaddedHex(n: nat, width: nat): (s: string)
    ensures s != [] && AllHexDigits(s) && |s| >= width
  {
    var digits := ToHex(n);
    Zeros(if |digits| >= width then 0 else width - |digits|) + digits
  }

  /** Leading zeros do not change the value of a digit string. */
  lemma {:induction false} HexValueOfLeadingZeros(k: nat, ds: string)
    requires AllHexDigits(ds)
    ensures AllHexDigits(Zeros(k) + ds)
    ensures HexValue(Zeros(k) + ds) == HexValue(ds)
    decreases |ds|
  {
    var s := Zeros(k) + ds;
    if ds == [] {
      assert s == Zeros(k);
      HexValueOfZeros(k);
    } else {
      var init := ds[..|ds| - 1];
      HexValueOfLeadingZeros(k, init);
      assert s[..|s| - 1] == Zeros(k) + init;
      assert s[|s| - 1] == ds[|ds| - 1];
    }
  }

  lemma {:induction false} HexValueOfZeros(k: nat)
    ensures AllHexDigits(Zeros(k)) && HexValue(Zeros(k)) == 0
  {
    if k > 0 {
      HexValueOfZeros(k - 1);
      assert Zeros(k)[..k - 1] == Zeros(k - 1);
    }
  }

  lemma HexValueOfPaddedHex(n: nat, width: nat)
    ensures HexValue(PaddedHex(n, width)) == n
  {
    var digits := ToHex(n);
    HexValueOfToHex(n);
    HexValueOfLeadingZeros(if |digits| >= width then 0 else width - |digits|, digits);
  }

  /** Parsing a printed address, padded or not, gives the number back. */
  lemma ParseUsizeHexOfPaddedHex(n: nat, width: nat)
    requires n <= UsizeMax
    ensures ParseUsizeHex(PaddedHex(n, width)) == Ok(n)
  {
    var s := PaddedHex(n, width);
    assert s[0] != '+' by { assert IsHexDigit(s[0]); }
    assert Unsigned(s) == s;
    HexValueOfPaddedHex(n, width);
    ParseUsizeHexMeaning(s);
  }

  lemma PaddedHexHasNoDash(n: nat, width: nat)
    ensures '-' !in PaddedHex(n, width) && NoWhitespace(PaddedHex(n, width))
  {
    var s := PaddedHex(n, width);
    forall i | 0 <= i < |s| ensures s[i] != '-' && !IsWhitespace(s[i]) {
      assert IsHexDigit(s[i]);
    }
  }
}
