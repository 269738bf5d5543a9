/** One mission record of the log and the per-line rules applied to it:
    `Mission::from_line`, `Mission::is_valid_security_code`,
    `Mission::is_completed_mars_mission` and `is_comment_or_metadata`
    (src/main.rs). */
module Missions {
  import opened Text
  import opened Numeric

  /** A parsed log line. `success_rate` is kept as the trimmed text that
      parsed as an `f64`; its floating-point value is not modelled. */
  datatype Mission = Mission(
    date: string,
    mission_id: string,
    destination: string,
    status: string,
    crew_size: nat,
    duration: nat,
    success_rate: string,
    security_code: string,
    line_number: nat)

  /** A text field as `from_line` leaves it: trimmed, and free of the separator. */
  predicate IsFieldText(s: string) {
    IsTrimmed(s) && '|' !in s
  }

  /** What every mission built by `FromLine` satisfies, whatever the line. */
  predicate WellFormed(m: Mission) {
    && IsFieldText(m.date) && IsFieldText(m.mission_id)
    && IsFieldText(m.destination) && IsFieldText(m.status)
    && IsFieldText(m.security_code)
    && m.crew_size <= U32_MAX && m.duration <= U32_MAX
    && IsFloatLiteral(m.success_rate)
  }

  /** A converted field of a log line: text, or a number parsed as a `u32`. */
  datatype FieldValue = Text(text: string) | Number(number: nat)

  /** Piece `parts[k]` of a line converted as `from_line` converts it: every
      piece is trimmed; the crew size (`parts[4]`) and the duration
      (`parts[5]`) are then parsed as `u32`, and the success rate (`parts[6]`)
      must parse as an `f64`. */
  function ConvertField(k: nat, piece: string): (r: Option<FieldValue>)
    ensures r.Some? ==> (r.value.Number? <==> k == 4 || k == 5)
  {
    var t := Trim(piece);
    if k == 4 || k == 5 then
      match ParseU32(t)
      case None => None
      case Some(v) => Some(Number(v))
    else if k == 6 && !IsFloatLiteral(t) then None
    else Some(Text(t))
  }

  /** Pieces `k` to 7 converted in order. The first conversion that fails
      makes the whole result `None`, as each `?` in `from_line` returns early. */
  function ConvertFields(parts: seq<string>, k: nat): (r: Option<seq<FieldValue>>)
    requires k <= 8 <= |parts|
    ensures r.Some? ==> |r.value| == 8 - k
    ensures r.Some? ==> forall i :: 0 <= i < 8 - k ==> (r.value[i].Number? <==> k + i == 4 || k + i == 5)
    decreases 8 - k
  {
    if k == 8 then Some([])
    else
      match ConvertField(k, parts[k])
      case None => None
      case Some(v) =>
        match ConvertFields(parts, k + 1)
        case None => None
        case Some(rest) => Some([v] + rest)
  }

  /** `Mission::from_line`: split on `|`, refuse fewer than eight pieces, and
      convert the first eight in order; any failed conversion gives `None`.
      Pieces after the eighth are ignored. */
  function FromLine(line: string, line_number: nat): (r: Option<Mission>)
    ensures |Split(line, '|')| < 8 ==> r.None?
    ensures r.Some? ==> r.value.line_number == line_number
  {
    var parts := Split(line, '|');
    if |parts| < 8 then None
    else
      match ConvertFields(parts, 0)
      case None => None
      case Some(f) =>
        Some(Mission(f[0].text, f[1].text, f[2].text, f[3].text, f[4].number, f[5].number,
                     f[6].text, f[7].text, line_number))
  }

  /** The conversions succeed exactly when each piece converts, and then give
      each piece's conversion in place. */
  lemma {:induction false} ConvertFieldsSpec(parts: seq<string>, k: nat)
    requires k <= 8 <= |parts|
    ensures ConvertFields(parts, k).Some? <==> forall j :: k <= j < 8 ==> ConvertField(j, parts[j]).Some?
    ensures ConvertFields(parts, k).Some? ==>
              forall j :: k <= j < 8 ==> ConvertFields(parts, k).value[j - k] == ConvertField(j, parts[j]).value
    decreases 8 - k
  {
    if k < 8 {
      ConvertFieldsSpec(parts, k + 1);
      var r := ConvertFields(parts, k);
      if r.Some? {
        var rest := ConvertFields(parts, k + 1).value;
        assert r.value == [ConvertField(k, parts[k]).value] + rest;
        forall j | k < j < 8 ensures r.value[j - k] == ConvertField(j, parts[j]).value {
          assert r.value[j - k] == rest[j - (k + 1)];
        }
      }
    }
  }

  /** `from_line` as one expression over the pieces of the line: `None` when
      there are fewer than eight pieces or when the crew size, the duration or
      the success rate does not parse, and otherwise the trimmed pieces. */
  lemma FromLineFields(line: string, line_number: nat)
    ensures var parts := Split(line, '|');
      FromLine(line, line_number) ==
        if |parts| < 8 then None
        else if ParseU32(Trim(parts[4])).None? || ParseU32(Trim(parts[5])).None?
                || !IsFloatLiteral(Trim(parts[6])) then None
        else Some(Mission(Trim(parts[0]), Trim(parts[1]), Trim(parts[2]), Trim(parts[3]),
                          ParseU32(Trim(parts[4])).value, ParseU32(Trim(parts[5])).value,
                          Trim(parts[6]), Trim(parts[7]), line_number))
  {
    var parts := Split(line, '|');
    if |parts| >= 8 {
      ConvertFieldsSpec(parts, 0);
      var ok := ParseU32(Trim(parts[4])).Some? && ParseU32(Trim(parts[5])).Some?
                && IsFloatLiteral(Trim(parts[6]));
      if ok {
        assert forall j :: 0 <= j < 8 ==> ConvertField(j, parts[j]).Some?;
      } else if ParseU32(Trim(parts[4])).None? {
        assert ConvertField(4, parts[4]).None?;
      } else if ParseU32(Trim(parts[5])).None? {
        assert ConvertField(5, parts[5]).None?;
      } else {
        assert ConvertField(6, parts[6]).None?;
      }
    }
  }

  /** Every mission `from_line` builds has trimmed, separator-free text fields,
      32-bit numbers and a success rate that parses as an `f64`. */
  lemma FromLineWellFormed(line: string, line_number: nat)
    requires FromLine(line, line_number).Some?
    ensures WellFormed(FromLine(line, line_number).value)
  {
    FromLineFields(line, line_number);
    var parts := Split(line, '|');
    TrimmedPieceIsFieldText(parts[0]);
    TrimmedPieceIsFieldText(parts[1]);
    TrimmedPieceIsFieldText(parts[2]);
    TrimmedPieceIsFieldText(parts[3]);
    TrimmedPieceIsFieldText(parts[7]);
  }

  lemma TrimmedPieceIsFieldText(piece: string)
    requires '|' !in piece
    ensures IsFieldText(Trim(piece))
  {
    var a := LeadingWhitespace(piece);
    TrimShape(piece);
    if a < |piece| {
      var t := Trim(piece);
      forall i | 0 <= i < |t| ensures t[i] != '|' {
        assert t[i] == piece[a + i];
      }
    }
  }

  /** The eight fields of a mission as a log line writes them. */
  function Fields(m: Mission): (fields: seq<string>)
    ensures |fields| == 8
  {
    [m.date, m.mission_id, m.destination, m.status,
     FormatNat(m.crew_size), FormatNat(m.duration), m.success_rate, m.security_code]
  }

  /** The fields of `m`, each surrounded by the whitespace `pads[2k]` and `pads[2k+1]`. */
  function PaddedFields(m: Mission, pads: seq<string>): (fields: seq<string>)
    requires |pads| == 16
    ensures |fields| == 8
  {
    var f := Fields(m);
    seq(8, k requires 0 <= k < 8 => pads[2 * k] + f[k] + pads[2 * k + 1])
  }

  lemma NumeralIsFieldText(n: nat)
    ensures IsFieldText(FormatNat(n))
  {
    var s := FormatNat(n);
    assert IsDigit(s[0]) && IsDigit(s[|s| - 1]);
    assert forall i :: 0 <= i < |s| ==> IsDigit(s[i]);
  }

  lemma PaddedIsSeparatorFree(w1: string, t: string, w2: string)
    requires AllWhitespace(w1) && AllWhitespace(w2) && '|' !in t
    ensures '|' !in w1 + t + w2
  {
    var s := w1 + t + w2;
    forall i | 0 <= i < |s| ensures s[i] != '|' {
      if i < |w1| { assert s[i] == w1[i]; }
      else if i < |w1| + |t| { assert s[i] == t[i - |w1|]; }
      else { assert s[i] == w2[i - |w1| - |t|]; }
    }
  }

  /** Round trip: writing a well-formed mission as a line, with any whitespace
      around each field, and parsing that line gives the mission back, tagged
      with the line number it was read at. */
  lemma FromLineRoundTrip(m: Mission, pads: seq<string>, line_number: nat)
    requires WellFormed(m)
    requires |pads| == 16 && forall k :: 0 <= k < 16 ==> AllWhitespace(pads[k])
    ensures FromLine(Join(PaddedFields(m, pads), '|'), line_number) == Some(m.(line_number := line_number))
  {
    var parts := PaddedFields(m, pads);
    var line := Join(parts, '|');
    PaddedFieldTrim(m, pads, 0);
    PaddedFieldTrim(m, pads, 1);
    PaddedFieldTrim(m, pads, 2);
    PaddedFieldTrim(m, pads, 3);
    PaddedFieldTrim(m, pads, 4);
    PaddedFieldTrim(m, pads, 5);
    PaddedFieldTrim(m, pads, 6);
    PaddedFieldTrim(m, pads, 7);
    forall k | 0 <= k < |parts| ensures '|' !in parts[k] {
      PaddedFieldTrim(m, pads, k);
    }
    SplitJoin(parts, '|');
    ParseFormatRoundTrip(m.crew_size);
    ParseFormatRoundTrip(m.duration);
    FromLineFields(line, line_number);
    var r := FromLine(line, line_number);
    assert r == Some(Mission(m.date, m.mission_id, m.destination, m.status, m.crew_size,
                             m.duration, m.success_rate, m.security_code, line_number));
  }

  /** A padded field is separator-free and trims back to the field. */
  lemma PaddedFieldTrim(m: Mission, pads: seq<string>, k: nat)
    requires WellFormed(m) && k < 8
    requires |pads| == 16 && forall k :: 0 <= k < 16 ==> AllWhitespace(pads[k])
    ensures '|' !in PaddedFields(m, pads)[k]
    ensures Trim(PaddedFields(m, pads)[k]) == Fields(m)[k]
  {
    var f := Fields(m)[k];
    var w1, w2 := pads[2 * k], pads[2 * k + 1];
    FieldIsFieldText(m, k);
    assert PaddedFields(m, pads)[k] == w1 + f + w2;
    PaddedIsSeparatorFree(w1, f, w2);
    TrimOfPadded(w1, f, w2);
  }

  lemma FieldIsFieldText(m: Mission, k: nat)
    requires WellFormed(m) && k < 8
    ensures IsFieldText(Fields(m)[k])
  {
    if k == 4 {
      NumeralIsFieldText(m.crew_size);
    } else if k == 5 {
      NumeralIsFieldText(m.duration);
    } else if k == 6 {
      FloatLiteralIsFieldText(m.success_rate);
    }
  }

  lemma FloatLiteralIsFieldText(s: string)
    requires IsFloatLiteral(s)
    ensures IsFieldText(s)
  {
    FloatLiteralShape(s);
    assert IsFloatChar(s[0]) && IsFloatChar(s[|s| - 1]);
  }

  /** Pieces after the eighth `|`-separated field do not affect the result. */
  lemma FromLineIgnoresExtraFields(line: string, extra: string, line_number: nat)
    requires |Split(line, '|')| >= 8
    ensures FromLine(line + "|" + extra, line_number) == FromLine(line, line_number)
  {
    SplitAround(line, '|', extra);
    assert line + "|" + extra == line + ['|'] + extra;
    FromLineFields(line, line_number);
    FromLineFields(line + "|" + extra, line_number);
  }

  /** A duration written with a minus sign, such as "-5", fails `u32` parsing,
      so the whole line is rejected. */
  lemma FromLineRejectsNegativeDuration(line: string, line_number: nat)
    requires |Split(line, '|')| >= 8
    requires var d := Trim(Split(line, '|')[5]); d != [] && d[0] == '-'
    ensures FromLine(line, line_number) == None
  {
    ParseRejectsMinus(Trim(Split(line, '|')[5]));
    FromLineFields(line, line_number);
  }

  predicate IsAsciiUpper(c: char) {
    'A' <= c <= 'Z'
  }

  /** `Mission::is_valid_security_code`, the anchored pattern
      `^[A-Z]{3}-[0-9]{3}-[A-Z]{3}$` checked character by character. */
  predicate IsValidSecurityCode(code: string): (ok: bool)
    ensures ok ==> forall i :: 0 <= i < |code| ==> IsAsciiUpper(code[i]) || IsDigit(code[i]) || code[i] == '-'
    ensures ok ==> AsciiLowercase(code) != code
  {
    && |code| == 11
    && IsAsciiUpper(code[0]) && IsAsciiUpper(code[1]) && IsAsciiUpper(code[2])
    && code[3] == '-'
    && IsDigit(code[4]) && IsDigit(code[5]) && IsDigit(code[6])
    && code[7] == '-'
    && IsAsciiUpper(code[8]) && IsAsciiUpper(code[9]) && IsAsciiUpper(code[10])
  }

  /** A reference reading of the regular expression: a sequence of character
      classes, each repeated a fixed number of times, matched against the
      whole string (both anchors). */
  datatype CharClass = UpperAZ | Digit09 | Exactly(c: char)
  datatype Piece = Repeat(cls: CharClass, times: nat)

  predicate InClass(c: char, cls: CharClass) {
    match cls
    case UpperAZ => IsAsciiUpper(c)
    case Digit09 => IsDigit(c)
    case Exactly(x) => c == x
  }

  predicate FullMatch(pattern: seq<Piece>, s: string)
    decreases |pattern|
  {
    if pattern == [] then s == []
    else
      var n := pattern[0].times;
      && n <= |s|
      && (forall i :: 0 <= i < n ==> InClass(s[i], pattern[0].cls))
      && FullMatch(pattern[1..], s[n..])
  }

  /** `[A-Z]{3}-[0-9]{3}-[A-Z]{3}` */
  function SecurityCodePattern(): seq<Piece> {
    [Repeat(UpperAZ, 3), Repeat(Exactly('-'), 1), Repeat(Digit09, 3),
     Repeat(Exactly('-'), 1), Repeat(UpperAZ, 3)]
  }

  /** The character-by-character check accepts exactly the strings the
      anchored regular expression matches. */
  lemma SecurityCodeMatchesPattern(code: string)
    ensures IsValidSecurityCode(code) <==> FullMatch(SecurityCodePattern(), code)
  {
    if FullMatch(SecurityCodePattern(), code) {
      MatchedCodeIsValid(code);
    }
    if IsValidSecurityCode(code) {
      ValidCodeMatches(code);
    }
  }

  lemma MatchedCodeIsValid(code: string)
    requires FullMatch(SecurityCodePattern(), code)
    ensures IsValidSecurityCode(code)
  {
    var p := SecurityCodePattern();
    assert FullMatch(p[1..], code[3..]);
    assert FullMatch(p[2..], code[4..]) by { assert p[1..][1..] == p[2..]; assert code[3..][1..] == code[4..]; }
    assert FullMatch(p[3..], code[7..]) by { assert p[2..][1..] == p[3..]; assert code[4..][3..] == code[7..]; }
    assert FullMatch(p[4..], code[8..]) by { assert p[3..][1..] == p[4..]; assert code[7..][1..] == code[8..]; }
    assert FullMatch(p[5..], code[11..]) by { assert p[4..][1..] == p[5..]; assert code[8..][3..] == code[11..]; }
    assert code[4..][0] == code[4] && code[4..][1] == code[5] && code[4..][2] == code[6];
    assert code[8..][0] == code[8] && code[8..][1] == code[9] && code[8..][2] == code[10];
  }

  lemma ValidCodeMatches(code: string)
    requires IsValidSecurityCode(code)
    ensures FullMatch(SecurityCodePattern(), code)
  {
    var p := SecurityCodePattern();
    assert FullMatch(p[4..], code[8..]) by {
      assert p[4..][1..] == [];
      assert code[8..][3..] == [];
    }
    assert FullMatch(p[3..], code[7..]) by { assert p[3..][1..] == p[4..]; assert code[7..][1..] == code[8..]; }
    assert FullMatch(p[2..], code[4..]) by { assert p[2..][1..] == p[3..]; assert code[4..][3..] == code[7..]; }
    assert FullMatch(p[1..], code[3..]) by { assert p[1..][1..] == p[2..]; assert code[3..][1..] == code[4..]; }
  }

  /** The source's own cases: one accepted code and the seven rejected shapes,
      plus a lowercase code, which is rejected although destination and
      status are compared without regard to case. */
  lemma SecurityCodeExamples()
    ensures IsValidSecurityCode("TRX-842-YHG") && IsValidSecurityCode("XRT-421-ZQP")
    ensures !IsValidSecurityCode("TRX-842-YH") && !IsValidSecurityCode("TRX-842-YHGG")
    ensures !IsValidSecurityCode("trx-842-yhg") && !IsValidSecurityCode("TRX-84-YHG")
    ensures !IsValidSecurityCode("TX-842-YHG") && !IsValidSecurityCode("TRX842YHG")
    ensures !IsValidSecurityCode("TRX-ABC-YHG") && !IsValidSecurityCode("xrt-421-zqp")
    ensures !IsValidSecurityCode("INVALID")
  {
  }

  /** `Mission::is_completed_mars_mission`: destination "mars" and status
      "completed" up to ASCII case, a positive duration and a valid code. */
  predicate IsCompletedMarsMission(m: Mission): (ok: bool)
    ensures ok ==> |m.destination| == 4 && |m.status| == 9
    ensures ok ==> m.duration > 0 && |m.security_code| == 11
  {
    && EqIgnoreAsciiCase(m.destination, "mars")
    && EqIgnoreAsciiCase(m.status, "completed")
    && m.duration > 0
    && IsValidSecurityCode(m.security_code)
  }

  /** The source's own rejected cases: another destination, another status,
      a zero duration or a malformed code each fail the check. */
  lemma NotCompletedMarsExamples()
    ensures !IsCompletedMarsMission(Mission("2045-07-12", "KLM-1234", "Jupiter", "Completed", 5, 387, "98.7", "TRX-842-YHG", 1))
    ensures !IsCompletedMarsMission(Mission("2045-07-12", "KLM-1234", "Mars", "Failed", 5, 387, "98.7", "TRX-842-YHG", 1))
    ensures !IsCompletedMarsMission(Mission("2045-07-12", "KLM-1234", "Mars", "Completed", 5, 0, "98.7", "TRX-842-YHG", 1))
    ensures !IsCompletedMarsMission(Mission("2045-07-12", "KLM-1234", "Mars", "Completed", 5, 387, "98.7", "INVALID", 1))
  {
  }

  /** `is_comment_or_metadata`: after trimming, the line is empty or starts
      with `#`, `SYSTEM:`, `CONFIG:` or `CHECKSUM:`. */
  predicate IsCommentOrMetadata(line: string): (skip: bool)
    ensures AllWhitespace(line) ==> skip
    ensures skip ==> Trim(line) == [] || Trim(line)[0] in {'#', 'S', 'C'}
  {
    TrimShape(line);
    var t := Trim(line);
    || t == []
    || "#" <= t
    || "SYSTEM:" <= t
    || "CONFIG:" <= t
    || "CHECKSUM:" <= t
  }

  /** A `#` after any amount of whitespace marks a comment. */
  lemma IndentedCommentIsSkipped(w: string, rest: string)
    requires AllWhitespace(w)
    ensures IsCommentOrMetadata(w + "#" + rest)
  {
    var s := w + "#" + rest;
    assert s == w + ("#" + rest);
    LeadingWhitespaceOfPadded(w, "#" + rest);
    TrimShape(s);
    assert s[|w|] == '#';
  }

  /** Leading whitespace is decided by a prefix that contains a non-whitespace character. */
  lemma {:induction false} LeadingWhitespaceOfPrefix(p: string, s: string)
    requires p <= s && LeadingWhitespace(p) < |p|
    ensures LeadingWhitespace(s) == LeadingWhitespace(p)
  {
    if IsWhitespace(p[0]) {
      LeadingWhitespaceOfPrefix(p[1..], s[1..]);
    }
  }

  lemma TrimStartsAtFirstNonWhitespace(s: string)
    requires Trim(s) != []
    ensures LeadingWhitespace(s) < |s| && Trim(s)[0] == s[LeadingWhitespace(s)]
  {
    TrimShape(s);
  }

  lemma FirstPieceIsPrefix(line: string, sep: char)
    ensures Split(line, sep)[0] <= line
  {
    var parts := Split(line, sep);
    JoinSplit(line, sep);
    if |parts| > 1 {
      assert line == parts[0] + [sep] + Join(parts[1..], sep);
    }
  }

  /** A line with a prefix whose trimmed text starts with a digit is not
      skipped. */
  lemma DigitStartIsNotSkipped(p: string, line: string)
    requires p <= line
    requires Trim(p) != [] && IsDigit(Trim(p)[0])
    ensures !IsCommentOrMetadata(line)
  {
    TrimStartsAtFirstNonWhitespace(p);
    LeadingWhitespaceOfPrefix(p, line);
    var a := LeadingWhitespace(line);
    assert line[a] == p[a];
    TrimSlice(line);
    assert Trim(line)[0] == Trim(p)[0];
  }

  /** A line that parses and whose date starts with a digit (every date in the
      log does) is a data line: the skip rule does not swallow it. */
  lemma DatedLineIsNotSkipped(line: string, line_number: nat)
    requires FromLine(line, line_number).Some?
    requires var d := FromLine(line, line_number).value.date; d != [] && IsDigit(d[0])
    ensures !IsCommentOrMetadata(line)
  {
    FromLineFields(line, line_number);
    FirstPieceIsPrefix(line, '|');
    DigitStartIsNotSkipped(Split(line, '|')[0], line);
  }
}
