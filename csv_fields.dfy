/**
 * The server's CSV layer: the value cast applied to every trimmed cell,
 * the empty-input rules of parseCSV and toCSV, and the custom field codecs
 * for a project's timeAllocation ("day:hours|day:hours"), a routine's days
 * ("1,3,5") and a project's completedSessions (JSON text, "{}" when
 * missing). The CSV tokenizer and writer are parameters.
 */
module CsvFields {
  import opened Optional
  import opened Text
  import opened Catalog

  /** A cell after the cast: a boolean, a number (kept as its literal) or text. */
  datatype CellValue = Bool(b: bool) | Num(literal: string) | Str(text: string)

  /** A decoder's outcome: a value, or the TypeError that `.split` on a non-string throws. */
  datatype Result<T> = Ok(value: T) | TypeError

  /** One parsed record: column name to cast cell. */
  type Row = map<string, CellValue>

  // ---------------------------------------------------------------------
  // What `!isNaN(value)` accepts: the StringNumericLiteral grammar of
  // section 7.1.4.1.1 of ECMA-262, with the white space of Text.IsSpace.
  // ---------------------------------------------------------------------

  predicate IsExponentPart(s: string)
  {
    s == [] ||
    ((s[0] == 'e' || s[0] == 'E') &&
      var digits := if 2 <= |s| && (s[1] == '+' || s[1] == '-') then s[2..] else s[1..];
      digits != [] && AllDigits(digits))
  }

  /** StrUnsignedDecimalLiteral: Infinity, or digits with an optional fraction and exponent. */
  predicate IsUnsignedDecimal(s: string)
  {
    var whole := LeadingDigits(s);
    var rest := s[|whole|..];
    if rest != [] && rest[0] == '.' then
      var frac := LeadingDigits(rest[1..]);
      (whole != [] || frac != []) && IsExponentPart(rest[1 + |frac|..])
    else
      s == "Infinity" || (whole != [] && IsExponentPart(rest))
  }

  predicate IsDecimalLiteral(s: string)
  {
    IsUnsignedDecimal(s) || (s != [] && (s[0] == '+' || s[0] == '-') && IsUnsignedDecimal(s[1..]))
  }

  predicate IsHexDigit(c: char) { IsDigit(c) || 'a' <= c <= 'f' || 'A' <= c <= 'F' }

  /** NonDecimalIntegerLiteral: 0x…, 0o… or 0b… */
  predicate IsRadixLiteral(s: string)
  {
    3 <= |s| && s[0] == '0' &&
    (|| ((s[1] == 'x' || s[1] == 'X') && forall i :: 2 <= i < |s| ==> IsHexDigit(s[i]))
     || ((s[1] == 'o' || s[1] == 'O') && forall i :: 2 <= i < |s| ==> '0' <= s[i] <= '7')
     || ((s[1] == 'b' || s[1] == 'B') && forall i :: 2 <= i < |s| ==> s[i] == '0' || s[i] == '1'))
  }

  predicate IsNumberText(t: string) { IsDecimalLiteral(t) || IsRadixLiteral(t) }

  /** `!isNaN(value)`: Number(value) is a number; blank text is 0. */
  predicate IsNumeric(value: string)
  {
    var t := Trim(value);
    t == [] || IsNumberText(t)
  }

  /** The cast of parseCSV: booleans, numbers that do not start with '0', otherwise text. */
  function Cast(value: string): (r: CellValue)
  {
    if value == "true" then Bool(true)
    else if value == "false" then Bool(false)
    else if IsNumeric(value) && value != [] && value[0] != '0' then Num(value)
    else Str(value)
  }

  /** The text a cast cell came from. */
  function CellText(c: CellValue): (r: string)
  {
    match c
    case Bool(b) => if b then "true" else "false"
    case Num(literal) => literal
    case Str(text) => text
  }

  /**
   * A cell the cast leaves as text or turns into a boolean reads back as the
   * same text: String(true) is "true". A number cell is covered by
   * CastKeepsIntText for the integer text the encoders write.
   */
  lemma CastKeepsText(value: string)
    ensures !Cast(value).Num? ==> CellText(Cast(value)) == value
    ensures Cast(value).Bool? <==> value == "true" || value == "false"
  {
  }

  /**
   * Text that starts with '0' never becomes a number, whatever follows:
   * "0", "05" and "0.5" stay text.
   */
  lemma CastOfLeadingZero(value: string)
    requires value != [] && value[0] == '0'
    ensures Cast(value) == Str(value)
  {
    assert value[0] != 't' && value[0] != 'f';
  }

  lemma CastExamples()
    ensures Cast("true") == Bool(true) && Cast("false") == Bool(false)
    ensures Cast("") == Str("")
    ensures Cast("0.5") == Str("0.5") && Cast("05") == Str("05")
  {
    CastOfLeadingZero("0.5");
    CastOfLeadingZero("05");
  }

  lemma CastOfWord()
    ensures Cast("abc") == Str("abc")
  {
    assert !IsNumberText("abc") by {
      DigitsThenOtherNotDecimal([], 'a', "bc");
      assert "abc" == [] + ['a'] + "bc";
    }
    UnpaddedNumber("abc");
  }

  /** The part of a decimal literal before its exponent. */
  function Mantissa(s: string): (m: string)
    ensures m <= s
  {
    if s == [] || s[0] == 'e' || s[0] == 'E' then [] else [s[0]] + Mantissa(s[1..])
  }

  /** A literal without surrounding white space whose value is 0 (or -0). */
  predicate IsZeroText(t: string)
  {
    || (IsRadixLiteral(t) && forall i :: 2 <= i < |t| ==> t[i] == '0')
    || (IsDecimalLiteral(t) &&
        var m := Mantissa(t);
        forall i :: 0 <= i < |m| ==> m[i] == '0' || m[i] == '.' || m[i] == '+' || m[i] == '-')
  }

  /** Number(literal) is 0 (or -0). */
  predicate IsZeroNumber(literal: string)
  {
    var t := Trim(literal);
    t == [] || IsZeroText(t)
  }

  /** JavaScript truthiness of a cast cell. */
  predicate Truthy(c: CellValue)
  {
    match c
    case Bool(b) => b
    case Num(literal) => !IsZeroNumber(literal)
    case Str(text) => text != []
  }

  // ---------------------------------------------------------------------
  // parseCSV and toCSV
  // ---------------------------------------------------------------------

  /** The cast applied to every cell of a tokenized record. */
  function CastRow(raw: map<string, string>): (r: Row)
  {
    map k | k in raw :: Cast(raw[k])
  }

  /**
   * parseCSV: a missing or blank input gives no records; otherwise the
   * tokenizer's records (header row as keys, trimmed cells) with every
   * cell cast.
   */
  function ParseCsv(input: Option<string>, tokenize: string -> seq<map<string, string>>): (rows: seq<Row>)
    ensures input.None? || IsBlank(input.value) ==> rows == []
    ensures input.Some? && !IsBlank(input.value)
            ==> && |rows| == |tokenize(input.value)|
                && (forall i :: 0 <= i < |rows| ==> rows[i].Keys == tokenize(input.value)[i].Keys)
                && (forall i, k :: 0 <= i < |rows| && k in tokenize(input.value)[i]
                      ==> rows[i][k] == Cast(tokenize(input.value)[i][k]))
  {
    if input.None? then []
    else
      TrimEmptyIffBlank(input.value);
      if Trim(input.value) == [] then []
      else
        var records := tokenize(input.value);
        seq(|records|, i requires 0 <= i < |records| => CastRow(records[i]))
  }

  /** Input made only of white space, such as a lone form feed, gives no records. */
  lemma ParseCsvOfWhiteSpace(tokenize: string -> seq<map<string, string>>)
    ensures ParseCsv(Some("\U{000C}"), tokenize) == []
    ensures ParseCsv(Some(" \t\r\n"), tokenize) == []
  {
    assert IsBlank("\U{000C}");
    assert IsBlank(" \t\r\n");
  }

  /** toCSV: no data, or an empty list, gives the empty text; otherwise the writer's output. */
  function ToCsv(data: Option<seq<Row>>, write: seq<Row> -> string): (csv: string)
    ensures data.None? || data.value == [] ==> csv == []
    ensures data.Some? && data.value != [] ==> csv == write(data.value)
  {
    if data.None? || |data.value| == 0 then [] else write(data.value)
  }

  // ---------------------------------------------------------------------
  // Facts about the text of integers
  // ---------------------------------------------------------------------

  predicate NoSpace(s: string) { forall i :: 0 <= i < |s| ==> !IsSpace(s[i]) }

  lemma {:induction false} NatToStringLead(n: nat)
    requires 0 < n
    ensures NatToString(n)[0] != '0'
    decreases n
  {
    if 10 <= n {
      NatToStringLead(n / 10);
    }
  }

  lemma {:induction false} LeadingDigitsOfConcat(a: string, b: string)
    requires AllDigits(a)
    requires b != [] ==> !IsDigit(b[0])
    ensures LeadingDigits(a + b) == a
    decreases |a|
  {
    if a != [] {
      assert (a + b)[1..] == a[1..] + b;
      LeadingDigitsOfConcat(a[1..], b);
    }
  }

  lemma {:induction false} MantissaOfPlain(s: string)
    requires forall i :: 0 <= i < |s| ==> s[i] != 'e' && s[i] != 'E'
    ensures Mantissa(s) == s
    decreases |s|
  {
    if s != [] {
      MantissaOfPlain(s[1..]);
    }
  }

  /** Text that neither starts nor ends with white space is read as it is. */
  lemma UnpaddedNumber(s: string)
    requires s != [] && !IsSpace(s[0]) && !IsSpace(s[|s| - 1])
    ensures IsNumeric(s) == IsNumberText(s)
    ensures IsZeroNumber(s) == IsZeroText(s)
  {
    TrimOfUnpadded(s);
  }

  /** A nonempty run of digits is an unsigned decimal literal. */
  lemma DigitsAreDecimal(d: string)
    requires d != [] && AllDigits(d)
    ensures IsUnsignedDecimal(d)
  {
    LeadingDigitsOfDigits(d);
    assert d[|d|..] == [];
  }

  /** Digits followed by a character that cannot continue a literal are no literal. */
  lemma DigitsThenOtherNotDecimal(d: string, c: char, w: string)
    requires AllDigits(d)
    requires !IsDigit(c) && c != '.' && c != 'e' && c != 'E' && c != 'I'
    ensures !IsUnsignedDecimal(d + [c] + w)
  {
    var s := d + [c] + w;
    assert s == d + ([c] + w);
    LeadingDigitsOfConcat(d, [c] + w);
    assert s[|d|..] == [c] + w;
    assert s != "Infinity" by {
      if d == [] { assert s[0] == c; } else { assert IsDigit(s[0]); }
    }
  }

  /** The text of a nonzero integer passes `!isNaN` and does not start with '0'. */
  lemma IntTextIsNumeric(n: int)
    requires n != 0
    ensures IntToString(n)[0] != '0' && IsNumeric(IntToString(n))
  {
    var s := IntToString(n);
    var m: nat := if n < 0 then -n else n;
    var d := NatToString(m);
    UnpaddedNumber(s);
    NatToStringLead(m);
    DigitsAreDecimal(d);
    if n < 0 {
      assert s[1..] == d;
    } else {
      assert s == d;
    }
  }

  /** Number(String(n)) is not zero for a nonzero n. */
  lemma IntTextNonZero(n: int)
    requires n != 0
    ensures !IsZeroNumber(IntToString(n))
  {
    var s := IntToString(n);
    var m: nat := if n < 0 then -n else n;
    var d := NatToString(m);
    UnpaddedNumber(s);
    NatToStringLead(m);
    MantissaOfPlain(s);
    assert !IsRadixLiteral(s);
    if n > 0 {
      assert Mantissa(s)[0] == d[0];
    } else {
      assert Mantissa(s)[1] == d[0];
    }
  }

  /** The text of a nonzero integer is cast to a truthy number; "0" stays text. */
  lemma IntTextCast(n: int)
    ensures n == 0 ==> Cast(IntToString(n)) == Str("0")
    ensures n != 0 ==> Cast(IntToString(n)) == Num(IntToString(n)) && Truthy(Cast(IntToString(n)))
  {
    var s := IntToString(n);
    assert s[0] != 't' && s[0] != 'f';
    if n != 0 {
      IntTextIsNumeric(n);
      IntTextNonZero(n);
    }
  }

  /**
   * An integer the encoders write comes back unchanged through the cast and
   * String(): the number cell of a non-zero integer prints as the same text,
   * and "0" stays text.
   */
  lemma CastKeepsIntText(n: int)
    ensures CellText(Cast(IntToString(n))) == IntToString(n)
    ensures Cast(IntToString(n)).Num? <==> n != 0
  {
    IntTextCast(n);
  }

  /** Digits followed by a codec separator are neither a boolean nor a number. */
  lemma DigitsThenSeparator(d: string, sep: char, w: string)
    requires d != [] && AllDigits(d)
    requires sep == ',' || sep == ':' || sep == '|'
    requires NoSpace(w)
    ensures Cast(d + [sep] + w) == Str(d + [sep] + w)
  {
    var v := d + [sep] + w;
    assert v[0] != 't' && v[0] != 'f';
    assert !IsSpace(v[0]) && !IsSpace(v[|v| - 1]);
    assert !IsNumberText(v) by {
      DigitsThenOtherNotDecimal(d, sep, w);
      assert !IsRadixLiteral(v) by {
        if 1 < |d| { assert v[1] == d[1]; } else { assert v[1] == sep; }
      }
    }
    UnpaddedNumber(v);
    assert v != "true" && v != "false";
    assert !IsNumeric(v);
  }

  /** The same with a minus sign in front. */
  lemma NegativeDigitsThenSeparator(d: string, sep: char, w: string)
    requires d != [] && AllDigits(d)
    requires sep == ',' || sep == ':' || sep == '|'
    requires NoSpace(w)
    ensures Cast("-" + d + [sep] + w) == Str("-" + d + [sep] + w)
  {
    var v := "-" + d + [sep] + w;
    assert v[0] != 't' && v[0] != 'f';
    assert !IsSpace(v[0]) && !IsSpace(v[|v| - 1]);
    assert !IsNumberText(v) by {
      assert v[1..] == d + [sep] + w;
      DigitsThenOtherNotDecimal(d, sep, w);
      DigitsThenOtherNotDecimal([], '-', v[1..]);
      assert v == [] + ['-'] + v[1..];
    }
    UnpaddedNumber(v);
    assert v != "true" && v != "false";
    assert !IsNumeric(v);
  }

  /**
   * Text that starts with an integer followed by one of the codecs'
   * separators is neither a boolean nor a number, so the cast keeps it.
   */
  lemma IntThenSeparatorStaysText(n: int, sep: char, w: string)
    requires sep == ',' || sep == ':' || sep == '|'
    requires NoSpace(w)
    ensures Cast(IntToString(n) + [sep] + w) == Str(IntToString(n) + [sep] + w)
  {
    if n < 0 {
      assert IntToString(n) == "-" + NatToString(-n);
      NegativeDigitsThenSeparator(NatToString(-n), sep, w);
    } else {
      DigitsThenSeparator(NatToString(n), sep, w);
    }
  }

  lemma {:induction false} JoinNoSpace(parts: seq<string>, sep: char)
    requires !IsSpace(sep)
    requires forall i :: 0 <= i < |parts| ==> NoSpace(parts[i])
    ensures NoSpace(Join(parts, sep))
    decreases |parts|
  {
    if 2 <= |parts| {
      JoinNoSpace(parts[1..], sep);
    }
  }

  // ---------------------------------------------------------------------
  // Routine days: "1,3,5"
  // ---------------------------------------------------------------------

  function IntTexts(xs: seq<int>): (r: seq<string>)
    ensures |r| == |xs| && forall i :: 0 <= i < |xs| ==> r[i] == IntToString(xs[i])
  {
    seq(|xs|, i requires 0 <= i < |xs| => IntToString(xs[i]))
  }

  /** The integers as numbers. */
  function Ints(xs: seq<int>): (r: seq<JsInt>)
    ensures |r| == |xs| && forall i :: 0 <= i < |xs| ==> r[i] == Int(xs[i])
  {
    seq(|xs|, i requires 0 <= i < |xs| => Int(xs[i]))
  }

  /** routineToCSV's days column: `days.join(',')`. */
  function EncodeDays(days: seq<int>): (r: string)
  {
    Join(IntTexts(days), ',')
  }

  /** `text.split(',').map(d => parseInt(d.trim()))`. */
  function ParseDayList(text: string): (r: seq<JsInt>)
    ensures |r| == |Split(text, ',')|
  {
    var parts := Split(text, ',');
    seq(|parts|, i requires 0 <= i < |parts| => ParseInt(Trim(parts[i])))
  }

  /**
   * parseRoutineCSV's days, as written: a falsy cell gives no days, a text
   * cell is split, and any other truthy cell (a number, true) has no
   * `.split`, which throws.
   */
  function DecodeDaysAsWritten(cell: Option<CellValue>): (r: Result<seq<JsInt>>)
  {
    if cell.None? || !Truthy(cell.value) then Ok([])
    else if cell.value.Str? then Ok(ParseDayList(cell.value.text))
    else TypeError
  }

  /**
   * The days decoder as intended: the cell is read back as text
   * (`String(record.days)`) before it is split, so a cell the cast turned
   * into a number decodes like the text it came from.
   */
  function DecodeDays(cell: Option<CellValue>): (r: seq<JsInt>)
  {
    if cell.None? || !Truthy(cell.value) then [] else ParseDayList(CellText(cell.value))
  }

  /** The characters number texts are made of. */
  predicate NumberChars(s: string)
  {
    forall i :: 0 <= i < |s| ==> s[i] == '-' || s[i] == '.' || IsDigit(s[i])
  }

  lemma NumberCharsFacts(s: string)
    requires NumberChars(s)
    ensures NoSpace(s) && ',' !in s && ':' !in s && '|' !in s
  {
    forall c | c in s ensures c != ',' && c != ':' && c != '|' {
      var i :| 0 <= i < |s| && s[i] == c;
    }
  }

  lemma IntTextChars(n: int)
    ensures NumberChars(IntToString(n))
  {
    var s := IntToString(n);
    if n < 0 {
      forall i | 0 <= i < |s| ensures s[i] == '-' || IsDigit(s[i]) {
        if 0 < i { assert s[i] == s[1..][i - 1]; }
      }
    }
  }

  lemma IntTextFacts(n: int)
    ensures NoSpace(IntToString(n)) && ',' !in IntToString(n)
    ensures ParseInt(Trim(IntToString(n))) == Int(n)
  {
    IntTextChars(n);
    NumberCharsFacts(IntToString(n));
    TrimOfUnpadded(IntToString(n));
    ParseIntOfIntToString(n);
  }

  /** Splitting an encoded day list reads every day back. */
  lemma ParseDayListOfEncodeDays(days: seq<int>)
    requires days != []
    ensures ParseDayList(EncodeDays(days)) == Ints(days)
  {
    var parts := IntTexts(days);
    forall i | 0 <= i < |parts| ensures ',' !in parts[i] && ParseInt(Trim(parts[i])) == Int(days[i]) {
      IntTextFacts(days[i]);
    }
    SplitJoin(parts, ',');
  }

  /** Encoding is never falsy text unless the list is empty; with two days or more it stays text. */
  lemma CastOfEncodeDays(days: seq<int>)
    ensures days == [] ==> Cast(EncodeDays(days)) == Str([])
    ensures |days| == 1 ==> EncodeDays(days) == IntToString(days[0])
    ensures 2 <= |days| ==> Cast(EncodeDays(days)) == Str(EncodeDays(days)) && EncodeDays(days) != []
  {
    var parts := IntTexts(days);
    if 2 <= |days| {
      forall i | 0 <= i < |parts[1..]| ensures NoSpace(parts[1..][i]) {
        IntTextFacts(days[i + 1]);
      }
      JoinNoSpace(parts[1..], ',');
      IntThenSeparatorStaysText(days[0], ',', Join(parts[1..], ','));
    }
  }

  /**
   * The days round trip through the CSV file, as written: it holds for an
   * empty list, for [0] and for two days or more, and throws for a single
   * nonzero day, which the cast turns into a number.
   */
  lemma DaysRoundTripAsWritten(days: seq<int>)
    ensures DecodeDaysAsWritten(Some(Cast(EncodeDays(days))))
            == if |days| == 1 && days[0] != 0 then TypeError else Ok(Ints(days))
  {
    CastOfEncodeDays(days);
    if |days| == 1 {
      IntTextCast(days[0]);
    }
    if days != [] {
      ParseDayListOfEncodeDays(days);
    }
  }

  /** A routine on Wednesdays only is saved as "3", read back as the number 3, and `.split` throws. */
  lemma SingleDayRoundTripFails()
    ensures EncodeDays([3]) == "3"
    ensures Cast(EncodeDays([3])) == Num("3")
    ensures DecodeDaysAsWritten(Some(Cast(EncodeDays([3])))) == TypeError
  {
    DaysRoundTripAsWritten([3]);
    IntTextCast(3);
  }

  /** A missing or empty days cell decodes to no days, and no days are saved as "". */
  lemma DaysEmpty()
    ensures EncodeDays([]) == ""
    ensures DecodeDaysAsWritten(None) == Ok([]) && DecodeDaysAsWritten(Some(Cast(""))) == Ok([])
    ensures DecodeDays(None) == [] && DecodeDays(Some(Cast(""))) == []
  {
  }

  /** With the text read back before the split, every day list round-trips. */
  lemma DaysRoundTrip(days: seq<int>)
    ensures DecodeDays(Some(Cast(EncodeDays(days)))) == Ints(days)
  {
    CastOfEncodeDays(days);
    CastKeepsText(EncodeDays(days));
    if |days| == 1 {
      IntTextCast(days[0]);
    }
    if days != [] {
      ParseDayListOfEncodeDays(days);
    }
  }

  // ---------------------------------------------------------------------
  // Project time allocation: "day:hours|day:hours", hours in tenths
  // ---------------------------------------------------------------------

  /** `${hours}` for hours given in tenths: "2", "2.5", "-0.5". */
  function TenthsToString(h: int): (r: string)
  {
    var m: nat := if h < 0 then -h else h;
    (if h < 0 then "-" else "") + UnsignedTenthsText(m)
  }

  /** The text of a nonnegative number of tenths: whole part, then ".d" unless d is 0. */
  function UnsignedTenthsText(m: nat): (r: string)
  {
    NatToString(m / 10) + (if m % 10 == 0 then "" else "." + [DigitChar(m % 10)])
  }

  /**
   * parseFloat(s) in tenths: white space, a sign, then the unsigned part;
   * the sign applies to the value read.
   */
  function ParseTenths(s: string): (r: JsInt)
  {
    var t := TrimStart(s);
    var signed := t != [] && (t[0] == '-' || t[0] == '+');
    var r := ReadTenths(if signed then t[1..] else t);
    if signed && t[0] == '-' && r.Int? then Int(0 - r.value) else r
  }

  /**
   * The unsigned part of parseFloat in tenths: the whole digits and at most
   * one decimal; NaN when there is no digit before or after the point.
   */
  function ReadTenths(u: string): (r: JsInt)
  {
    var whole := LeadingDigits(u);
    var rest := u[|whole|..];
    var frac := if rest != [] && rest[0] == '.' then LeadingDigits(rest[1..]) else [];
    if whole == [] && frac == [] then NaN
    else Int(DigitsValue(whole) * 10 + (if frac == [] then 0 else DigitValue(frac[0])))
  }

  lemma ReadTenthsOfText(m: nat)
    ensures ReadTenths(UnsignedTenthsText(m)) == Int(m)
  {
    var d := NatToString(m / 10);
    var tail: string := if m % 10 == 0 then "" else "." + [DigitChar(m % 10)];
    var u := d + tail;
    assert u == UnsignedTenthsText(m);
    LeadingDigitsOfConcat(d, tail);
    DigitsValueOfNatToString(m / 10);
    assert u[|d|..] == tail;
    if m % 10 != 0 {
      assert tail[1..] == [DigitChar(m % 10)];
      LeadingDigitsOfConcat([DigitChar(m % 10)], []);
      assert [DigitChar(m % 10)] + [] == [DigitChar(m % 10)];
    }
  }

  lemma ParseTenthsOfDigitFirst(u: string)
    requires u != [] && IsDigit(u[0])
    ensures ParseTenths(u) == ReadTenths(u)
  {
    assert !IsSpace(u[0]);
    assert TrimStart(u) == u;
    assert !(u[0] == '-' || u[0] == '+');
  }

  lemma ParseTenthsOfNegative(u: string)
    requires u != [] && IsDigit(u[0])
    ensures ParseTenths("-" + u) == if ReadTenths(u).Int? then Int(0 - ReadTenths(u).value) else ReadTenths(u)
  {
    var v := "-" + u;
    assert TrimStart(v) == v;
    assert v[1..] == u;
  }

  /** Hours written by the encoder read back exactly. */
  lemma ParseTenthsOfTenthsToString(h: int)
    ensures ParseTenths(TenthsToString(h)) == Int(h)
  {
    var m: nat := if h < 0 then -h else h;
    var u := UnsignedTenthsText(m);
    ReadTenthsOfText(m);
    assert IsDigit(u[0]);
    if h < 0 {
      assert TenthsToString(h) == "-" + u;
      ParseTenthsOfNegative(u);
    } else {
      assert TenthsToString(h) == u;
      ParseTenthsOfDigitFirst(u);
    }
  }

  /** progettiToCSV's text of one entry: `${day}:${hours}`. */
  function EntryText(a: Allocation): (r: string)
  {
    IntToString(a.day) + ":" + TenthsToString(a.hours)
  }

  function EncodeAllocation(allocs: seq<Allocation>): (r: string)
  {
    Join(EntryTexts(allocs), '|')
  }

  /** One decoded entry: `{ day: parseInt(day), hours: parseFloat(hours) }`. */
  datatype DecodedEntry = DecodedEntry(day: JsInt, hours: JsInt)

  /** `const [day, hours] = item.split(':')`; a missing hours part parses as NaN. */
  function ParseEntry(item: string): (r: DecodedEntry)
  {
    var parts := Split(item, ':');
    DecodedEntry(ParseInt(parts[0]), if 1 < |parts| then ParseTenths(parts[1]) else NaN)
  }

  function ParseAllocationList(text: string): (r: seq<DecodedEntry>)
    ensures |r| == |Split(text, '|')|
  {
    var items := Split(text, '|');
    seq(|items|, i requires 0 <= i < |items| => ParseEntry(items[i]))
  }

  /** parseProgettiCSV's timeAllocation: falsy gives none, text is split, anything else throws. */
  function DecodeAllocation(cell: Option<CellValue>): (r: Result<seq<DecodedEntry>>)
  {
    if cell.None? || !Truthy(cell.value) then Ok([])
    else if cell.value.Str? then Ok(ParseAllocationList(cell.value.text))
    else TypeError
  }

  /** What a list of allocations should decode to. */
  function Decoded(allocs: seq<Allocation>): (r: seq<DecodedEntry>)
    ensures |r| == |allocs|
    ensures forall i :: 0 <= i < |allocs| ==> r[i] == DecodedEntry(Int(allocs[i].day), Int(allocs[i].hours))
  {
    seq(|allocs|, i requires 0 <= i < |allocs| => DecodedEntry(Int(allocs[i].day), Int(allocs[i].hours)))
  }

  lemma TenthsTextChars(h: int)
    ensures NumberChars(TenthsToString(h))
  {
    var m: nat := if h < 0 then -h else h;
    var d := NatToString(m / 10);
    var s := TenthsToString(h);
    var sign: string := if h < 0 then "-" else "";
    var tail: string := if m % 10 == 0 then "" else "." + [DigitChar(m % 10)];
    assert s == sign + d + tail;
    forall i | 0 <= i < |s| ensures s[i] == '-' || s[i] == '.' || IsDigit(s[i]) {
      if i < |sign| {
      } else if i < |sign| + |d| {
        assert s[i] == d[i - |sign|];
      } else {
        assert s[i] == tail[i - |sign| - |d|];
      }
    }
  }

  lemma EntryTextChars(a: Allocation)
    ensures NoSpace(EntryText(a)) && '|' !in EntryText(a)
  {
    var s := IntToString(a.day);
    var t := TenthsToString(a.hours);
    IntTextChars(a.day);
    TenthsTextChars(a.hours);
    var e := EntryText(a);
    assert e == s + [':'] + t;
    forall i | 0 <= i < |e| ensures !IsSpace(e[i]) && e[i] != '|' {
      if i < |s| {
        assert e[i] == s[i];
      } else if i > |s| {
        assert e[i] == t[i - |s| - 1];
      }
    }
  }

  lemma ParseEntryOfEntryText(a: Allocation)
    ensures ParseEntry(EntryText(a)) == DecodedEntry(Int(a.day), Int(a.hours))
  {
    var s := IntToString(a.day);
    var t := TenthsToString(a.hours);
    IntTextChars(a.day);
    NumberCharsFacts(s);
    TenthsTextChars(a.hours);
    NumberCharsFacts(t);
    SplitAfterPart(s, ':', t);
    SplitWithoutSep(t, ':');
    assert Split(EntryText(a), ':') == [s, t];
    ParseIntOfIntToString(a.day);
    ParseTenthsOfTenthsToString(a.hours);
  }

  /**
   * A project's time allocation survives the CSV file: the encoded text is
   * never turned into a number or a boolean, and decoding gives back every
   * (day, hours) entry in order; an empty list is saved as "" and read back
   * as an empty list.
   */
  lemma AllocationRoundTrip(allocs: seq<Allocation>)
    ensures DecodeAllocation(Some(Cast(EncodeAllocation(allocs)))) == Ok(Decoded(allocs))
  {
    if allocs != [] {
      CastOfEncodeAllocation(allocs);
      ParseAllocationListOfEncode(allocs);
    }
  }

  /** A missing or empty timeAllocation cell decodes to no entries, and no entries are saved as "". */
  lemma AllocationEmpty()
    ensures EncodeAllocation([]) == ""
    ensures DecodeAllocation(None) == Ok([]) && DecodeAllocation(Some(Cast(""))) == Ok([])
  {
  }

  function EntryTexts(allocs: seq<Allocation>): (r: seq<string>)
    ensures |r| == |allocs| && forall i :: 0 <= i < |allocs| ==> r[i] == EntryText(allocs[i])
  {
    seq(|allocs|, i requires 0 <= i < |allocs| => EntryText(allocs[i]))
  }

  /** A nonempty encoded allocation is nonempty text that the cast keeps as text. */
  lemma CastOfEncodeAllocation(allocs: seq<Allocation>)
    requires allocs != []
    ensures EncodeAllocation(allocs) != [] && Cast(EncodeAllocation(allocs)) == Str(EncodeAllocation(allocs))
  {
    var entries := EntryTexts(allocs);
    var w := TenthsToString(allocs[0].hours)
             + (if |allocs| == 1 then [] else ['|'] + Join(entries[1..], '|'));
    assert NoSpace(w) by {
      TenthsTextChars(allocs[0].hours);
      NumberCharsFacts(TenthsToString(allocs[0].hours));
      if 1 < |allocs| {
        forall i | 0 <= i < |entries[1..]| ensures NoSpace(entries[1..][i]) {
          EntryTextChars(allocs[i + 1]);
        }
        JoinNoSpace(entries[1..], '|');
      }
    }
    assert EncodeAllocation(allocs) == IntToString(allocs[0].day) + [':'] + w by {
      assert EncodeAllocation(allocs) == Join(entries, '|');
    }
    IntThenSeparatorStaysText(allocs[0].day, ':', w);
  }

  lemma ParseAllocationListOfEncode(allocs: seq<Allocation>)
    requires allocs != []
    ensures ParseAllocationList(EncodeAllocation(allocs)) == Decoded(allocs)
  {
    var entries := EntryTexts(allocs);
    assert EncodeAllocation(allocs) == Join(entries, '|');
    forall i | 0 <= i < |entries| ensures '|' !in entries[i] {
      EntryTextChars(allocs[i]);
    }
    SplitJoin(entries, '|');
    forall i | 0 <= i < |allocs|
      ensures ParseEntry(entries[i]) == DecodedEntry(Int(allocs[i].day), Int(allocs[i].hours))
    {
      ParseEntryOfEntryText(allocs[i]);
    }
  }

  // ---------------------------------------------------------------------
  // completedSessions: JSON text, "{}" when missing
  // ---------------------------------------------------------------------

  /** What parseProgettiCSV stores: the empty object, or what JSON.parse reads from the text. */
  datatype Sessions = EmptySessions | ParsedJson(text: string)

  /** `JSON.stringify(completedSessions || {})`, given the object's JSON text when it has one. */
  function EncodeSessions(json: Option<string>): (text: string)
    ensures json.None? ==> text == "{}"
  {
    if json.None? then "{}" else json.value
  }

  /** `record.completedSessions ? JSON.parse(record.completedSessions) : {}`. */
  function DecodeSessions(cell: Option<CellValue>): (r: Sessions)
  {
    if cell.None? || !Truthy(cell.value) then EmptySessions else ParsedJson(CellText(cell.value))
  }

  /**
   * An object's JSON text starts with '{', so the cast leaves it as text and
   * JSON.parse gets it back verbatim; a missing value is written as "{}".
   */
  lemma SessionsRoundTrip(json: Option<string>)
    requires json.Some? ==> json.value != [] && json.value[0] == '{'
    ensures DecodeSessions(Some(Cast(EncodeSessions(json)))) == ParsedJson(EncodeSessions(json))
    ensures json.None? ==> DecodeSessions(Some(Cast(EncodeSessions(json)))) == ParsedJson("{}")
  {
    var s := EncodeSessions(json);
    assert s[0] == '{';
    BraceIsText(s);
  }

  /** Text that starts with '{' is neither a boolean nor a number. */
  lemma BraceIsText(s: string)
    requires s != [] && s[0] == '{'
    ensures Cast(s) == Str(s)
  {
    assert s != "true" && s != "false";
    assert TrimStart(s) == s;
    var t := Trim(s);
    assert t == TrimEnd(s);
    TrimEmptyIffBlank(s);
    assert t != [] && t[0] == '{';
    assert !IsNumberText(t) by {
      DigitsThenOtherNotDecimal([], '{', t[1..]);
      assert t == [] + ['{'] + t[1..];
    }
    assert !IsNumeric(s);
  }

  /** A missing column and an empty cell both decode to the empty object. */
  lemma SessionsMissing()
    ensures DecodeSessions(None) == EmptySessions
    ensures DecodeSessions(Some(Cast(""))) == EmptySessions
  {
  }
}
