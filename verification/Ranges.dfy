/** Single byte ranges of a media file, after section 14.1.2 of RFC 9110. */
module Ranges {
  import opened Prelude
  import opened Numbers
  import opened Xml

  datatype ByteRange = ByteRange(start: u64, end: u64, partial: bool)

  function SplitOnce(s: string, separator: char): Option<(string, string)> {
    var left := Until(s, separator);
    if |left| == |s| then None else Some((left, s[|left| + 1..]))
  }

  /** `parse_range`; `None` is the rejection that is answered with status 416. */
  function ParseRange(header: Option<string>, fileSize: u64): Option<ByteRange> {
    if header.None? then Some(ByteRange(0, SaturatingSub(fileSize, 1), false))
    else if fileSize == 0 then None
    else
      var range := StripPrefix(header.value, "bytes=");
      if range.None? || ',' in range.value then None
      else
        var parts := SplitOnce(range.value, '-');
        if parts.None? then None
        else
          var (first, last) := parts.value;
          var bounds := Bounds(first, last, fileSize);
          if bounds.None? || bounds.value.0 >= fileSize || bounds.value.0 > bounds.value.1 then None
          else Some(ByteRange(bounds.value.0, bounds.value.1, true))
  }

  function Bounds(first: string, last: string, fileSize: u64): Option<(u64, u64)>
    requires fileSize > 0
  {
    if first == "" then
      var suffix := ParseUnsigned(last, U64_MAX);
      if suffix.None? || suffix.value == 0 then None
      else Some((SaturatingSub(fileSize, suffix.value), fileSize - 1))
    else
      var start := ParseUnsigned(first, U64_MAX);
      var end := if last == "" then Some(fileSize - 1) else ParseUnsigned(last, U64_MAX);
      if start.None? || end.None? then None
      else Some((start.value, Min(end.value, fileSize - 1)))
  }

  /** The length `media` announces and streams. */
  function ServedLength(r: ByteRange, fileSize: u64): u64 {
    if fileSize == 0 then 0 else SaturatingAdd(SaturatingSub(r.end, r.start), 1)
  }

  // --- What a range asks for -----------------------------------------------------------------

  /** The three forms of a range, independent of any file. */
  datatype RangeSpec = Between(first: nat, last: nat) | From(first: nat) | Suffix(length: nat)

  /** The offsets of a file of `size` bytes that a range asks for. */
  predicate Requests(spec: RangeSpec, size: nat, offset: nat) {
    offset < size &&
    match spec
    case Between(first, last) => first <= offset <= last
    case From(first) => first <= offset
    case Suffix(length) => size - length <= offset
  }

  ghost predicate Satisfiable(spec: RangeSpec, size: nat) {
    exists offset: nat :: Requests(spec, size, offset)
  }

  /** The range a header value denotes, if its numbers fit 64 bits. */
  function Recognise(header: string): Option<RangeSpec> {
    var range := StripPrefix(header, "bytes=");
    if range.None? || ',' in range.value || SplitOnce(range.value, '-').None? then None
    else
      var (first, last) := SplitOnce(range.value, '-').value;
      if first == "" then
        if ParseUnsigned(last, U64_MAX).Some? then Some(Suffix(ParseUnsigned(last, U64_MAX).value)) else None
      else if ParseUnsigned(first, U64_MAX).None? then None
      else if last == "" then Some(From(ParseUnsigned(first, U64_MAX).value))
      else if ParseUnsigned(last, U64_MAX).None? then None
      else Some(Between(ParseUnsigned(first, U64_MAX).value, ParseUnsigned(last, U64_MAX).value))
  }

  /** How a client writes a range. */
  function Written(spec: RangeSpec): string {
    "bytes=" + match spec
      case Between(first, last) => Decimal(first) + "-" + Decimal(last)
      case From(first) => Decimal(first) + "-"
      case Suffix(length) => "-" + Decimal(length)
  }

  predicate Fits(spec: RangeSpec) {
    match spec
    case Between(first, last) => first <= U64_MAX && last <= U64_MAX
    case From(first) => first <= U64_MAX
    case Suffix(length) => length <= U64_MAX
  }

  lemma SatisfiableWhen(spec: RangeSpec, size: nat)
    ensures Satisfiable(spec, size) <==>
      match spec
      case Between(first, last) => first < size && first <= last
      case From(first) => first < size
      case Suffix(length) => length > 0 && size > 0
  {
    match spec
    case Between(first, last) =>
      if first < size && first <= last {
        assert Requests(spec, size, first);
      }
    case From(first) =>
      if first < size {
        assert Requests(spec, size, first);
      }
    case Suffix(length) =>
      if length > 0 && size > 0 {
        assert Requests(spec, size, size - 1);
      }
  }

  /**
   * For every header value and file size: a range is accepted exactly when the value denotes one
   * and it asks for some byte of the file, and then exactly the bytes asked for are served.
   */
  lemma ServesWhatIsRequested(header: string, fileSize: u64)
    ensures var r := ParseRange(Some(header), fileSize); var spec := Recognise(header);
            && (r.Some? <==> spec.Some? && Satisfiable(spec.value, fileSize))
            && (r.Some? ==>
                  && r.value.partial
                  && r.value.start <= r.value.end < fileSize
                  && (forall offset: nat :: r.value.start <= offset <= r.value.end
                       <==> Requests(spec.value, fileSize, offset)))
  {
    hide ParseUnsigned, SplitOnce;
    var spec := Recognise(header);
    if spec.Some? {
      SatisfiableWhen(spec.value, fileSize);
    }
  }

  /** The announced length is the number of bytes served, with no saturation on the way. */
  lemma LengthIsExact(header: Option<string>, fileSize: u64)
    requires ParseRange(header, fileSize).Some?
    ensures var r := ParseRange(header, fileSize).value;
            ServedLength(r, fileSize) == (if fileSize == 0 then 0 else r.end - r.start + 1)
            && r.start + ServedLength(r, fileSize) <= fileSize
            && (header.None? ==> r.start == 0 && ServedLength(r, fileSize) == fileSize && !r.partial)
  {
    if header.Some? {
      ServesWhatIsRequested(header.value, fileSize);
    }
    hide Bounds;
  }

  lemma WrittenSplits(front: string, back: string)
    requires '-' !in front
    ensures SplitOnce(front + "-" + back, '-') == Some((front, back))
  {
    assert front + "-" + back == front + ("-" + back);
    UntilStops(front, '-', "-" + back);
    assert (front + ("-" + back))[|front| + 1..] == back;
  }

  // --- How a range is spelled ----------------------------------------------------------------

  /** `s` is the number `n`: digits, which may begin with zeros, and if `plus` also an optional plus sign. */
  predicate Spelled(s: string, n: nat, plus: bool) {
    var digits := if plus && s != "" && s[0] == '+' then s[1..] else s;
    digits != "" && AllDigits(digits) && DigitsValue(digits) == n
  }

  predicate SpelledParts(first: string, last: string, spec: RangeSpec, plus: bool) {
    match spec
    case Between(start, end) => Spelled(first, start, plus) && Spelled(last, end, plus)
    case From(start) => Spelled(first, start, plus) && last == ""
    case Suffix(length) => first == "" && Spelled(last, length, plus)
  }

  /**
   * A single range by the grammar of RFC 9110, sections 14.1.1 and 14.1.2, with its unit in lower
   * case; `plus` allows signs in front of numbers.
   */
  ghost predicate Spells(header: string, spec: RangeSpec, plus: bool) {
    exists first, last :: header == "bytes=" + (first + "-" + last) && SpelledParts(first, last, spec, plus)
  }

  lemma SplitsBack(s: string)
    ensures var parts := SplitOnce(s, '-');
            parts.Some? ==> s == parts.value.0 + "-" + parts.value.1 && '-' !in parts.value.0
  {
    var left := Until(s, '-');
    if |left| < |s| {
      UntilFollowed(s, '-');
      assert s == left + ("-" + s[|left| + 1..]);
    }
  }

  lemma SpelledIsClean(s: string, n: nat, plus: bool)
    requires Spelled(s, n, plus)
    ensures '-' !in s && ',' !in s && s != ""
  {
    var digits := if plus && s != "" && s[0] == '+' then s[1..] else s;
    assert forall c :: c in digits ==> IsDigit(c);
    assert s == digits || s == "+" + digits;
  }

  lemma SpelledIsParsed(s: string, n: nat)
    ensures ParseUnsigned(s, U64_MAX) == Some(n) <==> Spelled(s, n, true) && n <= U64_MAX
  {
  }

  lemma PartsAreClean(first: string, last: string, spec: RangeSpec)
    requires SpelledParts(first, last, spec, true)
    ensures '-' !in first && ',' !in first + "-" + last
  {
    match spec {
      case Between(start, end) =>
        SpelledIsClean(first, start, true);
        SpelledIsClean(last, end, true);
      case From(start) => SpelledIsClean(first, start, true);
      case Suffix(length) => SpelledIsClean(last, length, true);
    }
    hide SpelledParts, Spelled;
  }

  /** A header value spelled like a range splits into its parts. */
  lemma SpelledSplits(first: string, last: string, spec: RangeSpec)
    requires SpelledParts(first, last, spec, true)
    ensures var header := "bytes=" + (first + "-" + last);
            && StripPrefix(header, "bytes=") == Some(first + "-" + last)
            && ',' !in first + "-" + last
            && SplitOnce(first + "-" + last, '-') == Some((first, last))
  {
    PartsAreClean(first, last, spec);
    hide SpelledParts, Spelled, SplitOnce;
    WrittenSplits(first, last);
    assert ("bytes=" + (first + "-" + last))[6..] == first + "-" + last;
  }

  lemma PartsParse(first: string, last: string, spec: RangeSpec)
    ensures SpelledParts(first, last, spec, true) && Fits(spec) <==>
      match spec
      case Between(start, end) =>
        ParseUnsigned(first, U64_MAX) == Some(start) && ParseUnsigned(last, U64_MAX) == Some(end)
      case From(start) => ParseUnsigned(first, U64_MAX) == Some(start) && last == ""
      case Suffix(length) => first == "" && ParseUnsigned(last, U64_MAX) == Some(length)
  {
    hide Spelled, ParseUnsigned;
    match spec {
      case Between(start, end) =>
        SpelledIsParsed(first, start);
        SpelledIsParsed(last, end);
      case From(start) => SpelledIsParsed(first, start);
      case Suffix(length) => SpelledIsParsed(last, length);
    }
  }

  lemma NothingParsesToNothing()
    ensures ParseUnsigned("", U64_MAX).None?
  {
  }

  /** A header value is recognised as a range exactly when it spells one, signs allowed, in 64-bit numbers. */
  lemma RecogniseIff(header: string, spec: RangeSpec)
    ensures Recognise(header) == Some(spec) <==> Spells(header, spec, true) && Fits(spec)
  {
    NothingParsesToNothing();
    hide ParseUnsigned, SplitOnce, SpelledParts, Fits;
    var range := StripPrefix(header, "bytes=");
    if Recognise(header) == Some(spec) {
      var (first, last) := SplitOnce(range.value, '-').value;
      SplitsBack(range.value);
      PartsParse(first, last, spec);
      assert header == "bytes=" + (first + "-" + last);
    }
    if Spells(header, spec, true) && Fits(spec) {
      var first, last :| header == "bytes=" + (first + "-" + last) && SpelledParts(first, last, spec, true);
      SpelledSplits(first, last, spec);
      PartsParse(first, last, spec);
    }
  }

  /** A header value spells at most one range. */
  lemma SpellsOne(header: string, spec: RangeSpec, other: RangeSpec)
    requires Spells(header, spec, true) && Spells(header, other, true)
    ensures spec == other
  {
    var a, b :| header == "bytes=" + (a + "-" + b) && SpelledParts(a, b, spec, true);
    var c, d :| header == "bytes=" + (c + "-" + d) && SpelledParts(c, d, other, true);
    SpelledSplits(a, b, spec);
    SpelledSplits(c, d, other);
  }

  lemma StrictIsLenient(header: string, spec: RangeSpec)
    requires Spells(header, spec, false)
    ensures Spells(header, spec, true)
  {
    var a, b :| header == "bytes=" + (a + "-" + b) && SpelledParts(a, b, spec, false);
    PartsStrictIsLenient(a, b, spec);
  }

  lemma PartsStrictIsLenient(first: string, last: string, spec: RangeSpec)
    requires SpelledParts(first, last, spec, false)
    ensures SpelledParts(first, last, spec, true)
  {
    assert !IsDigit('+');
  }

  /**
   * A range spelled as RFC 9110 has it is accepted exactly when its numbers fit 64 bits and it
   * asks for some byte of the file, and then exactly the bytes asked for are served.
   */
  lemma SpelledIsServed(header: string, spec: RangeSpec, fileSize: u64)
    requires Spells(header, spec, false)
    ensures var r := ParseRange(Some(header), fileSize);
            && (r.Some? <==> Fits(spec) && Satisfiable(spec, fileSize))
            && (r.Some? ==> forall offset: nat ::
                  r.value.start <= offset <= r.value.end <==> Requests(spec, fileSize, offset))
  {
    StrictIsLenient(header, spec);
    RecogniseIff(header, spec);
    ServesWhatIsRequested(header, fileSize);
    hide ParseRange, Recognise, Spells, Satisfiable, Requests, Fits;
    var found := Recognise(header);
    if found.Some? {
      RecogniseIff(header, found.value);
      SpellsOne(header, spec, found.value);
    }
  }

  // --- Other spellings of the unit -----------------------------------------------------------

  function LowerCase(s: string): (r: string)
    ensures |r| == |s|
  {
    if s == "" then ""
    else [if 'A' <= s[0] <= 'Z' then (s[0] as int + 32) as char else s[0]] + LowerCase(s[1..])
  }

  /** Names of range units are case-insensitive (RFC 9110, section 14.1). */
  predicate BytesUnit(unit: string) {
    LowerCase(unit) == "bytes"
  }

  /** The grammar with the unit as the client spells it. */
  ghost predicate SpellsUnder(unit: string, header: string, spec: RangeSpec) {
    exists first, last :: header == unit + "=" + (first + "-" + last) && SpelledParts(first, last, spec, false)
  }

  /** Any unit but `bytes` in lower case is refused, whatever follows. */
  lemma OtherUnitIsRefused(unit: string, rest: string, fileSize: u64)
    requires '=' !in unit && unit != "bytes"
    ensures ParseRange(Some(unit + "=" + rest), fileSize).None?
  {
    BytesFirst(unit + "=" + rest);
    assert unit + "=" + rest == unit + ("=" + rest);
    UntilStops(unit, '=', "=" + rest);
  }

  lemma BytesFirst(header: string)
    ensures "bytes=" <= header ==> Until(header, '=') == "bytes"
  {
    if "bytes=" <= header {
      assert header == "bytes" + header[5..] && header[5] == '=';
      UntilStops("bytes", '=', header[5..]);
    }
  }

  lemma {:induction false} LowerCaseKeepsEquals(s: string)
    ensures '=' in s ==> '=' in LowerCase(s)
  {
    if s != "" {
      LowerCaseKeepsEquals(s[1..]);
      assert s == [s[0]] + s[1..];
    }
  }

  lemma BytesIsBytes()
    ensures BytesUnit("bytes")
  {
    assert "bytes"[1..] == "ytes" && "ytes"[1..] == "tes" && "tes"[1..] == "es" && "es"[1..] == "s" && "s"[1..] == "";
    assert LowerCase("s") == "s";
    assert LowerCase("es") == "es";
    assert LowerCase("tes") == "tes";
    assert LowerCase("ytes") == "ytes";
  }

  /**
   * For every range the grammar allows, however its unit is spelled, the answer is the one RFC
   * 9110 asks for exactly when the unit is in lower case and the numbers fit 64 bits, or the range
   * asks for nothing.
   */
  lemma AgreesExactlyWhen(unit: string, header: string, spec: RangeSpec, fileSize: u64)
    requires BytesUnit(unit) && SpellsUnder(unit, header, spec)
    ensures (ParseRange(Some(header), fileSize).Some? <==> Satisfiable(spec, fileSize))
       <==> (unit == "bytes" && Fits(spec)) || !Satisfiable(spec, fileSize)
  {
    var first, last :| header == unit + "=" + (first + "-" + last) && SpelledParts(first, last, spec, false);
    if unit == "bytes" {
      assert header == "bytes=" + (first + "-" + last);
      SpelledIsServed(header, spec, fileSize);
    } else {
      LowerCaseKeepsEquals(unit);
      assert '=' !in "bytes";
      OtherUnitIsRefused(unit, first + "-" + last, fileSize);
    }
    hide ParseRange, Satisfiable, Fits, SpelledParts;
  }

  /** A unit with a capital letter is refused, although the range asks for the only byte there is. */
  lemma CapitalUnitIsRefused()
    ensures var header := "Bytes" + "=" + ("0" + "-" + "0"); var spec := Between(0, 0);
            && BytesUnit("Bytes") && SpellsUnder("Bytes", header, spec)
            && Fits(spec) && Satisfiable(spec, 1) && ParseRange(Some(header), 1).None?
  {
    BytesIsBytes();
    assert "Bytes"[1..] == "bytes"[1..] == "ytes";
    assert LowerCase("Bytes") == "b" + LowerCase("ytes") && LowerCase("bytes") == "b" + LowerCase("ytes");
    assert DigitsValue("0") == 0 by { assert "0"[..0] == ""; }
    assert SpelledParts("0", "0", Between(0, 0), false);
    SatisfiableWhen(Between(0, 0), 1);
    assert "Bytes"[0] != "bytes"[0];
    OtherUnitIsRefused("Bytes", "0" + "-" + "0", 1);
  }

  lemma DecimalIsSpelled(n: nat)
    ensures Spelled(Decimal(n), n, false)
  {
    DecimalValue(n);
  }

  /** What a client writes spells the range it means, whatever its numbers. */
  lemma WrittenSpells(spec: RangeSpec)
    ensures Spells(Written(spec), spec, false)
  {
    var front := match spec
      case Between(first, _) => Decimal(first)
      case From(first) => Decimal(first)
      case Suffix(_) => "";
    var back := match spec
      case Between(_, last) => Decimal(last)
      case From(_) => ""
      case Suffix(length) => Decimal(length);
    match spec {
      case Between(first, last) =>
        DecimalIsSpelled(first);
        DecimalIsSpelled(last);
      case From(first) => DecimalIsSpelled(first);
      case Suffix(length) => DecimalIsSpelled(length);
    }
    hide Decimal, Spelled;
    assert SpelledParts(front, back, spec, false);
    assert front + "-" + back == match spec
      case Between(first, last) => Decimal(first) + "-" + Decimal(last)
      case From(first) => Decimal(first) + "-"
      case Suffix(length) => "-" + Decimal(length);
    assert Written(spec) == "bytes=" + (front + "-" + back);
  }

  /**
   * A written range is recognised as what the client meant exactly when its numbers fit 64 bits, and
   * else not at all.
   */
  lemma WrittenIsRecognised(spec: RangeSpec)
    ensures Recognise(Written(spec)) == if Fits(spec) then Some(spec) else None
  {
    WrittenSpells(spec);
    StrictIsLenient(Written(spec), spec);
    RecogniseIff(Written(spec), spec);
    hide Recognise, Spells, Written, Fits;
    var found := Recognise(Written(spec));
    if found.Some? {
      RecogniseIff(Written(spec), found.value);
      SpellsOne(Written(spec), spec, found.value);
    }
  }

  /** A range that runs one byte past what 64 bits can say is refused, although it asks for the only byte there is. */
  lemma WideRangeIsRefused()
    ensures var spec := Between(0, U64_COUNT);
            Satisfiable(spec, 1) && ParseRange(Some(Written(spec)), 1).None?
  {
    var spec := Between(0, U64_COUNT);
    WrittenSpells(spec);
    SatisfiableWhen(spec, 1);
    hide Written;
    SpelledIsServed(Written(spec), spec, 1);
  }

  /** Signs are accepted although the grammar has none. */
  lemma SignIsAccepted()
    ensures var header := "bytes=" + ("+0" + "-" + "+0");
            ParseRange(Some(header), 1).Some? && forall spec :: !Spells(header, spec, false)
  {
    var header := "bytes=" + ("+0" + "-" + "+0");
    assert DigitsValue("0") == 0 by { assert "0"[..0] == ""; }
    assert "+0"[1..] == "0" && header[6] == '+';
    var signed := Between(0, 0);
    assert SpelledParts("+0", "+0", signed, true);
    assert Spells(header, signed, true);
    RecogniseIff(header, signed);
    SatisfiableWhen(signed, 1);
    ServesWhatIsRequested(header, 1);
    forall spec
      ensures !Spells(header, spec, false)
    {
      if Spells(header, spec, false) {
        StrictIsLenient(header, spec);
        StrictExactlyWithoutSign(header, spec);
      }
    }
  }

  lemma SpelledHasSign(s: string, n: nat)
    requires Spelled(s, n, true)
    ensures '+' in s <==> s[0] == '+'
    ensures Spelled(s, n, false) <==> '+' !in s
  {
    assert !IsDigit('+');
    if s[0] == '+' {
      assert s == "+" + s[1..];
    }
  }

  /** Of the values recognised, the grammar allows exactly those without a sign. */
  lemma StrictExactlyWithoutSign(header: string, spec: RangeSpec)
    requires Spells(header, spec, true)
    ensures Spells(header, spec, false) <==> '+' !in header
  {
    var a, b :| header == "bytes=" + (a + "-" + b) && SpelledParts(a, b, spec, true);
    PartsHaveSign(a, b, spec);
    assert '+' in header <==> '+' in a || '+' in b;
    if Spells(header, spec, false) {
      var c, d :| header == "bytes=" + (c + "-" + d) && SpelledParts(c, d, spec, false);
      PartsStrictIsLenient(c, d, spec);
      SpelledSplits(a, b, spec);
      SpelledSplits(c, d, spec);
    }
  }

  lemma PartsHaveSign(first: string, last: string, spec: RangeSpec)
    requires SpelledParts(first, last, spec, true)
    ensures SpelledParts(first, last, spec, false) <==> '+' !in first && '+' !in last
  {
    hide Spelled;
    match spec {
      case Between(start, end) =>
        SpelledHasSign(first, start);
        SpelledHasSign(last, end);
      case From(start) => SpelledHasSign(first, start);
      case Suffix(length) => SpelledHasSign(last, length);
    }
  }

  /** An accepted value is one the grammar allows exactly when it has no sign. */
  lemma AcceptedIsAllowedIff(header: string, fileSize: u64)
    requires ParseRange(Some(header), fileSize).Some?
    ensures (exists spec :: Spells(header, spec, false)) <==> '+' !in header
  {
    ServesWhatIsRequested(header, fileSize);
    hide ParseRange, Recognise, Spells;
    var spec := Recognise(header).value;
    RecogniseIff(header, spec);
    StrictExactlyWithoutSign(header, spec);
    if other :| Spells(header, other, false) {
      StrictIsLenient(header, other);
      SpellsOne(header, spec, other);
    }
  }

  /** Printing the bounds of a part of the file and parsing them again gives the same part. */
  lemma BoundsRoundTrip(start: nat, end: nat, fileSize: u64)
    requires start <= end < fileSize
    ensures ParseRange(Some(Written(Between(start, end))), fileSize) == Some(ByteRange(start, end, true))
  {
    var spec := Between(start, end);
    assert Fits(spec);
    hide ParseRange, Recognise, Written;
    WrittenIsRecognised(spec);
    SatisfiableWhen(spec, fileSize);
    ServesWhatIsRequested(Written(spec), fileSize);
    var r := ParseRange(Some(Written(spec)), fileSize).value;
    assert Requests(spec, fileSize, start) && Requests(spec, fileSize, end);
    assert Requests(spec, fileSize, r.start) && Requests(spec, fileSize, r.end);
  }

  // --- Reassembling a file -------------------------------------------------------------------

  /** The bytes streamed for a header value, none when the range is rejected. */
  function Served(file: seq<byte>, header: Option<string>): seq<byte>
    requires |file| < U64_COUNT
  {
    var r := ParseRange(header, |file|);
    if r.None? then []
    else
      LengthIsExact(header, |file|);
      file[r.value.start..r.value.start + ServedLength(r.value, |file|)]
  }

  /** Where tile `n` of a size begins. */
  function TileStart(size: nat, n: nat): nat {
    if n == 0 then 0 else TileStart(size, n - 1) + size
  }

  lemma {:induction false} TileStartIsMultiple(size: nat, n: nat)
    ensures TileStart(size, n) == n * size
    decreases n
  {
    if n > 0 {
      TileStartIsMultiple(size, n - 1);
      assert n * size == (n - 1) * size + size;
    }
  }

  /** The answers to `n` consecutive ranges of `size` bytes, put together. */
  function Reassembled(file: seq<byte>, size: nat, n: nat): seq<byte>
    requires |file| < U64_COUNT && size >= 1
  {
    if n == 0 then []
    else
      var start := TileStart(size, n - 1);
      Reassembled(file, size, n - 1) + Served(file, Some(Written(Between(start, start + size - 1))))
  }

  lemma TileIsServed(file: seq<byte>, start: nat, size: nat)
    requires |file| < U64_COUNT && size >= 1 && start + size <= U64_COUNT
    ensures Served(file, Some(Written(Between(start, start + size - 1))))
         == (if start < |file| then file[start..Min(start + size, |file|)] else [])
  {
    var spec := Between(start, start + size - 1);
    hide ParseRange, Recognise, Written;
    WrittenIsRecognised(spec);
    SatisfiableWhen(spec, |file|);
    ServesWhatIsRequested(Written(spec), |file|);
    if start < |file| {
      var r := ParseRange(Some(Written(spec)), |file|).value;
      LengthIsExact(Some(Written(spec)), |file|);
      var last := Min(start + size, |file|) - 1;
      assert Requests(spec, |file|, start) && Requests(spec, |file|, last);
      assert Requests(spec, |file|, r.start) && Requests(spec, |file|, r.end);
      assert r.start == start && r.end == last;
    }
  }

  /** Ranges that tile the file from its beginning reassemble it. */
  lemma {:induction false} TilesReassemble(file: seq<byte>, size: nat, n: nat)
    requires |file| < U64_COUNT && size >= 1 && TileStart(size, n) <= U64_COUNT
    ensures Reassembled(file, size, n) == file[..Min(TileStart(size, n), |file|)]
    decreases n
  {
    hide Served, Written;
    if n > 0 {
      TilesReassemble(file, size, n - 1);
      TileExtends(file, TileStart(size, n - 1), size, Reassembled(file, size, n - 1));
    }
  }

  lemma TileExtends(file: seq<byte>, start: nat, size: nat, collected: seq<byte>)
    requires |file| < U64_COUNT && size >= 1 && start + size <= U64_COUNT
    requires collected == file[..Min(start, |file|)]
    ensures collected + Served(file, Some(Written(Between(start, start + size - 1))))
      == file[..Min(start + size, |file|)]
  {
    hide Served, Written;
    TileIsServed(file, start, size);
    FrontGrows(file, start, size);
  }

  lemma FrontGrows(file: seq<byte>, start: nat, size: nat)
    ensures file[..Min(start, |file|)] + (if start < |file| then file[start..Min(start + size, |file|)] else [])
         == file[..Min(start + size, |file|)]
  {
  }
}
