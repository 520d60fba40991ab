/**
 * Template formatting: `formatComplet`, `formatHour`, the Spanish name
 * tables, the `FORMATTERS` table of twelve two-letter keys and `formatDate`,
 * which rewrites the first occurrence of each key, in table order.
 */
module Formatting {
  import opened Text
  import opened Calendar
  import Dates

  /**
   * `formatComplet(value, size)`: the numeral of `value` left-padded with
   * '0' to `size` characters; a longer numeral is kept whole.
   */
  function FormatComplet(value: int, size: int): (r: string)
    ensures |r| == if size <= |IntToString(value)| then |IntToString(value)| else size
  {
    PadStart(IntToString(value), size, '0')
  }

  /**
   * For a non-negative value the padded numeral is all digits, ends with the
   * value's own numeral, starts with zeros only, and reads back as the value.
   */
  lemma FormatCompletNat(value: nat, size: int)
    ensures var r := FormatComplet(value, size);
            var d := NatToString(value);
            && |r| == (if size <= |d| then |d| else size)
            && r[|r| - |d|..] == d
            && (forall i :: 0 <= i < |r| - |d| ==> r[i] == '0')
            && AllDigits(r)
            && ParseDigits(r) == value
  {
    var d := NatToString(value);
    assert IntToString(value) == d;
    PadZeros(d, size);
    ParseNatToString(value);
  }

  /** 5 padded to 2 is "05"; 123 padded to 2 stays "123". */
  lemma FormatCompletSamples()
    ensures FormatComplet(5, 2) == "05"
    ensures FormatComplet(123, 2) == "123"
  {
  }

  /** A value below 100 padded to two places is exactly two digits that read back as it. */
  lemma TwoDigits(value: int)
    requires 0 <= value < 100
    ensures |FormatComplet(value, 2)| == 2 && AllDigits(FormatComplet(value, 2))
    ensures ParseDigits(FormatComplet(value, 2)) == value
  {
    FormatCompletNat(value, 2);
    ShortNumeral(value);
  }

  /** A value below 100 has at most two digits. */
  lemma ShortNumeral(value: nat)
    requires value < 100
    ensures |NatToString(value)| <= 2
  {
    if value >= 10 {
      assert NatToString(value) == NatToString(value / 10) + [DigitChar(value % 10)];
    }
  }

  /**
   * `formatHour`: the hour on a 12-hour clock, 12 for midnight and noon, the
   * clock hour minus 12 in the afternoon.
   */
  function FormatHour(hour: int): (h: int)
    requires 0 <= hour < 24
    ensures 1 <= h <= 12
    ensures h % 12 == hour % 12
  {
    if hour > 12 then hour - 12 else if hour == 0 then 12 else hour
  }

  /** `MONTH_NAMES`. */
  const MonthNames: seq<string> := ["Enero", "Febrero", "Marzo", "Abril", "Mayo", "Junio", "Julio",
                                    "Agosto", "Septiembre", "Octubre", "Noviembre", "Diciembre"]

  /** `MONTH_LABELS`. */
  const MonthLabels: seq<string> := ["Ene", "Feb", "Mar", "Abr", "May", "Jun", "Jul",
                                     "Ago", "Sep", "Oct", "Nov", "Dic"]

  /** `DAYS_NAME`, Sunday first. */
  const DayNames: seq<string> := ["Domingo", "Lunes", "Martes", "Miércoles", "Jueves", "Viernes", "Sábado"]

  /** `DAYS_NAME_MIN`. */
  const DayNamesMin: seq<string> := ["Do", "Lu", "Ma", "Mi", "Ju", "Vi", "Sá"]

  /** The keys of `FORMATTERS`. */
  datatype Token = DD | DW | DX | MM | MN | MX | AA | HH | II | SS | HZ | ZZ

  /** `Object.keys(FORMATTERS)`: the keys in the order the table declares them. */
  const Formatters: seq<Token> := [DD, DW, DX, MM, MN, MX, AA, HH, II, SS, HZ, ZZ]

  /** The two letters of a key. */
  function Key(t: Token): (k: string)
    ensures |k| == 2 && IsLower(k[0]) && IsLower(k[1])
  {
    match t
    case DD => "dd"  case DW => "dw"  case DX => "dx"  case MM => "mm"
    case MN => "mn"  case MX => "mx"  case AA => "aa"  case HH => "hh"
    case II => "ii"  case SS => "ss"  case HZ => "hz"  case ZZ => "zz"
  }

  predicate IsLower(ch: char) {
    'a' <= ch <= 'z'
  }

  /** The table lists every key once, and no two keys are spelled alike. */
  lemma FormattersTable()
    ensures |Formatters| == 12
    ensures forall t: Token :: t in Formatters
    ensures forall i, j :: 0 <= i < j < |Formatters| ==> Key(Formatters[i]) != Key(Formatters[j])
  {
    forall t: Token ensures t in Formatters {
      match t
      case DD => assert Formatters[0] == t;
      case DW => assert Formatters[1] == t;
      case DX => assert Formatters[2] == t;
      case MM => assert Formatters[3] == t;
      case MN => assert Formatters[4] == t;
      case MX => assert Formatters[5] == t;
      case AA => assert Formatters[6] == t;
      case HH => assert Formatters[7] == t;
      case II => assert Formatters[8] == t;
      case SS => assert Formatters[9] == t;
      case HZ => assert Formatters[10] == t;
      case ZZ => assert Formatters[11] == t;
    }
  }

  /**
   * The fragment one entry of `FORMATTERS` renders. `MN` looks up the month
   * name by the WEEKDAY (`getDay()`), as the table does.
   */
  function Render(t: Token, c: Civil): string
    requires c.Valid()
  {
    match t
    case DD => FormatComplet(c.day, 2)
    case DW => DayNames[c.Weekday()]
    case DX => DayNamesMin[c.Weekday()]
    case MM => FormatComplet(c.month + 1, 2)
    case MN => MonthNames[c.Weekday()]
    case MX => MonthLabels[c.month]
    case AA => FormatComplet(c.year, 4)
    case HH => FormatComplet(c.hours, 2)
    case II => FormatComplet(c.minutes, 2)
    case SS => FormatComplet(c.seconds, 2)
    case HZ => FormatComplet(FormatHour(c.hours), 2)
    case ZZ => if c.hours > 11 then "PM" else "AM"
  }

  /** The tokens that render a number padded to two places. */
  predicate IsTwoDigit(t: Token) {
    t.DD? || t.MM? || t.HH? || t.II? || t.SS? || t.HZ?
  }

  /** The number a two-digit token shows: the month 1-based, `hz` on a 12-hour clock. */
  function ShownValue(t: Token, c: Civil): int
    requires c.Valid() && IsTwoDigit(t)
  {
    match t
    case DD => c.day
    case MM => c.month + 1
    case HH => c.hours
    case II => c.minutes
    case SS => c.seconds
    case HZ => FormatHour(c.hours)
  }

  /** Day, month, hour, minute, second and 12-hour fields are two digits that read back as the field. */
  lemma RenderTwoDigit(t: Token, c: Civil)
    requires c.Valid() && IsTwoDigit(t)
    ensures var r := Render(t, c); |r| == 2 && AllDigits(r) && ParseDigits(r) == ShownValue(t, c)
  {
    assert Render(t, c) == FormatComplet(ShownValue(t, c), 2);
    TwoDigits(ShownValue(t, c));
  }

  /**
   * The year is at least four characters; a non-negative year is its numeral
   * padded with zeros to four places, and reads back as itself.
   */
  lemma RenderYear(c: Civil)
    requires c.Valid()
    ensures |Render(AA, c)| >= 4
    ensures c.year >= 0 ==>
              |Render(AA, c)| == (if 4 <= |NatToString(c.year)| then |NatToString(c.year)| else 4)
    ensures c.year >= 0 ==> AllDigits(Render(AA, c)) && ParseDigits(Render(AA, c)) == c.year
  {
    if c.year >= 0 {
      FormatCompletNat(c.year, 4);
    }
  }

  /** `zz` is "PM" exactly for hours 12 to 23, and "AM" otherwise. */
  lemma RenderMeridiem(c: Civil)
    requires c.Valid()
    ensures Render(ZZ, c) == "PM" <==> c.hours > 11
    ensures Render(ZZ, c) == "AM" <==> c.hours <= 11
  {
  }

  /**
   * `mn` yields the month name at the weekday's index, so always one of the
   * first seven month names, whatever the month; `mx` yields the label of
   * the date's own month.
   */
  lemma RenderMonthName(c: Civil)
    requires c.Valid()
    ensures Render(MN, c) == MonthNames[c.Weekday()] && Render(MN, c) in MonthNames[..7]
    ensures Render(MX, c) == MonthLabels[c.month]
  {
  }

  /** A December Sunday renders `mn` as "Enero": the quirk is observable. */
  lemma MonthNameQuirkSample()
    ensures Civil(2023, 11, 31, 0, 0, 0, 0).Weekday() == 0
    ensures Render(MN, Civil(2023, 11, 31, 0, 0, 0, 0)) == "Enero"
  {
  }

  /**
   * No fragment contains `$`, so `replace` inserts every fragment literally
   * and never expands a `$` replacement pattern.
   */
  lemma RenderHasNoDollar(t: Token, c: Civil)
    requires c.Valid()
    ensures '$' !in Render(t, c)
  {
    match t
    case DD => NumeralHasNoDollar(c.day, 2);
    case MM => NumeralHasNoDollar(c.month + 1, 2);
    case AA => NumeralHasNoDollar(c.year, 4);
    case HH => NumeralHasNoDollar(c.hours, 2);
    case II => NumeralHasNoDollar(c.minutes, 2);
    case SS => NumeralHasNoDollar(c.seconds, 2);
    case HZ => NumeralHasNoDollar(FormatHour(c.hours), 2);
    case DW => assert forall i :: 0 <= i < 7 ==> '$' !in DayNames[i];
    case DX => assert forall i :: 0 <= i < 7 ==> '$' !in DayNamesMin[i];
    case MN => assert forall i :: 0 <= i < 12 ==> '$' !in MonthNames[i];
    case MX => assert forall i :: 0 <= i < 12 ==> '$' !in MonthLabels[i];
    case ZZ =>
  }

  lemma NumeralHasNoDollar(value: int, size: int)
    ensures '$' !in FormatComplet(value, size)
  {
    var s := IntToString(value);
    var r := FormatComplet(value, size);
    forall i | 0 <= i < |r| ensures r[i] != '$' {
      if i >= |r| - |s| {
        assert r[i] == r[|r| - |s|..][i - (|r| - |s|)];
      }
    }
  }

  /** One step of `formatDate`: replace the first occurrence of the key, if any. */
  function Step(t: Token, c: Civil, format: string): string
    requires c.Valid()
  {
    if Includes(format, Key(t)) then ReplaceFirst(format, Key(t), Render(t, c)) else format
  }

  /** The specification of `formatDate`: the steps for `tokens`, first to last. */
  function Apply(tokens: seq<Token>, c: Civil, format: string): string
    requires c.Valid()
  {
    if tokens == [] then format else Apply(tokens[1..], c, Step(tokens[0], c, format))
  }

  /** No key occurs in `s`. */
  predicate NoKeyIn(tokens: seq<Token>, s: string) {
    forall i :: 0 <= i < |tokens| ==> !Includes(s, Key(tokens[i]))
  }

  /** A pattern in which no key occurs is returned unchanged. */
  lemma {:induction false} ApplyNoKey(tokens: seq<Token>, c: Civil, s: string)
    requires c.Valid() && NoKeyIn(tokens, s)
    ensures Apply(tokens, c, s) == s
    decreases |tokens|
  {
    if tokens != [] {
      assert !Includes(s, Key(tokens[0]));
      assert NoKeyIn(tokens[1..], s) by {
        forall i | 0 <= i < |tokens[1..]| ensures !Includes(s, Key(tokens[1..][i])) {
          assert tokens[1..][i] == tokens[i + 1];
        }
      }
      ApplyNoKey(tokens[1..], c, s);
    }
  }

  /**
   * Only the first occurrence of a key is replaced: `"dd/dd"` becomes the
   * two-digit day followed by `"/dd"`.
   */
  lemma FirstOccurrenceOnly(c: Civil)
    requires c.Valid()
    ensures Apply(Formatters, c, "dd/dd") == Render(DD, c) + "/dd"
  {
    var d := Render(DD, c);
    var s := d + "/dd";
    var rest := Formatters[1..];
    ApplyUnfold(Formatters, c, "dd/dd");
    FirstDayStep(c);
    RenderTwoDigit(DD, c);
    NoLaterKeyAfterDay(d);
    ApplyNoKey(rest, c, s);
  }

  lemma ApplyUnfold(tokens: seq<Token>, c: Civil, s: string)
    requires c.Valid() && tokens != []
    ensures Apply(tokens, c, s) == Apply(tokens[1..], c, Step(tokens[0], c, s))
  {
  }

  /** The `dd` step on "dd/dd" replaces the leading key only. */
  lemma FirstDayStep(c: Civil)
    requires c.Valid()
    ensures Step(DD, c, "dd/dd") == Render(DD, c) + "/dd"
  {
    assert FirstOccurrence("dd/dd", "dd", 0);
    assert "dd/dd"[2..] == "/dd";
  }

  /** No key after `dd` in the table occurs in two digits followed by "/dd". */
  lemma NoLaterKeyAfterDay(d: string)
    requires |d| == 2 && AllDigits(d)
    ensures NoKeyIn(Formatters[1..], d + "/dd")
  {
    var rest := Formatters[1..];
    assert rest == [DW, DX, MM, MN, MX, AA, HH, II, SS, HZ, ZZ];
    forall i | 0 <= i < |rest| ensures !Includes(d + "/dd", Key(rest[i])) {
      NoKeyAfterDay(d, rest[i]);
    }
  }

  /** A key other than "dd" does not occur in two digits followed by "/dd". */
  lemma NoKeyAfterDay(d: string, t: Token)
    requires |d| == 2 && AllDigits(d) && t != DD
    ensures !Includes(d + "/dd", Key(t))
  {
    var s := d + "/dd";
    var k := Key(t);
    assert k != "dd";
    forall j ensures !OccursAt(s, k, j) {
      if 0 <= j && j + 2 <= |s| {
        assert s[j..j + 2][0] == s[j];
        assert j < 3 ==> s[j] == '/' || IsDigit(s[j]);
        assert j == 3 ==> s[j..j + 2] == "dd";
      }
    }
  }

  /**
   * `formatDate`: for each key of `FORMATTERS` in order, if the current
   * string contains it, replace its first occurrence with the rendered field.
   */
  method FormatDate(date: Dates.Date, pattern: string) returns (format: string)
    requires date.Valid()
    ensures format == Apply(Formatters, date.Fields(), pattern)
    ensures NoKeyIn(Formatters, pattern) ==> format == pattern
  {
    var c := date.Fields();
    format := pattern;
    var i := 0;
    while i < |Formatters|
      invariant 0 <= i <= |Formatters|
      invariant Apply(Formatters[i..], c, format) == Apply(Formatters, c, pattern)
    {
      var key := Key(Formatters[i]);
      if Includes(format, key) {
        format := ReplaceFirst(format, key, Render(Formatters[i], c));
      }
      assert Formatters[i..][1..] == Formatters[i + 1..];
      i := i + 1;
    }
    if NoKeyIn(Formatters, pattern) {
      ApplyNoKey(Formatters, c, pattern);
    }
  }
}
