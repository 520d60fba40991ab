/**
 * Humanised durations: the `ELAPSED_TIMES` table, `formatForHumans`,
 * which names a signed number of milliseconds by its coarsest whole unit,
 * and `differenceForHumans`.
 */
module Humanize {
  import opened Wrappers
  import opened Text
  import Timestamps

  /** An `ElapsedTime` entry: a magnitude and its singular and plural names. */
  datatype ElapsedTime = ElapsedTime(value: int, single: string, plural: string)

  /**
   * `createElapsedTime`: the plural is the one given, unless it is missing or
   * empty, in which case it is the singular followed by `charPlural` ("s" by default).
   */
  function CreateElapsedTime(value: int, single: string, charPlural: string := "s",
                             plural: Option<string> := None): (e: ElapsedTime)
    ensures e.value == value && e.single == single
    ensures plural.Some? && plural.value != [] ==> e.plural == plural.value
    ensures plural.None? || plural.value == [] ==> e.plural == single + charPlural
  {
    var p := if plural.Some? && plural.value != [] then plural.value else single + charPlural;
    ElapsedTime(value, single, p)
  }

  /** `ELAPSED_TIMES`, from the largest unit to the smallest. */
  const ElapsedTimes: seq<ElapsedTime> := [
    ElapsedTime(31536000000, "año", "años"),
    ElapsedTime(2592000000, "mes", "meses"),
    ElapsedTime(604800000, "semana", "semanas"),
    ElapsedTime(86400000, "día", "dias"),
    ElapsedTime(3600000, "hora", "horas"),
    ElapsedTime(60000, "minuto", "minutos"),
    ElapsedTime(1000, "segundo", "segundos")
  ]

  /** The table is what the seven `createElapsedTime` calls build. */
  lemma ElapsedTimesBuilt()
    ensures ElapsedTimes == [
      CreateElapsedTime(Timestamps.Year, "año"),
      CreateElapsedTime(Timestamps.Month, "mes", "es"),
      CreateElapsedTime(Timestamps.Week, "semana"),
      CreateElapsedTime(Timestamps.Day, "día", "s", Some("dias")),
      CreateElapsedTime(Timestamps.Hour, "hora"),
      CreateElapsedTime(Timestamps.Minute, "minuto"),
      CreateElapsedTime(Timestamps.Second, "segundo")
    ]
  {
    assert "año" + "s" == "años";
    assert "mes" + "es" == "meses";
    assert "semana" + "s" == "semanas";
    assert "hora" + "s" == "horas";
    assert "minuto" + "s" == "minutos";
    assert "segundo" + "s" == "segundos";
  }

  /** The table is ordered by strictly decreasing magnitude down to one second, with these names. */
  lemma ElapsedTimesTable()
    ensures |ElapsedTimes| == 7
    ensures forall i, j :: 0 <= i < j < |ElapsedTimes| ==> ElapsedTimes[i].value > ElapsedTimes[j].value
    ensures ElapsedTimes[|ElapsedTimes| - 1].value == 1000
    ensures ElapsedTimes[0].single == "año" && ElapsedTimes[0].plural == "años"
    ensures ElapsedTimes[1].single == "mes" && ElapsedTimes[1].plural == "meses"
    ensures ElapsedTimes[2].single == "semana" && ElapsedTimes[2].plural == "semanas"
    ensures ElapsedTimes[3].single == "día" && ElapsedTimes[3].plural == "dias"
    ensures ElapsedTimes[4].single == "hora" && ElapsedTimes[4].plural == "horas"
    ensures ElapsedTimes[5].single == "minuto" && ElapsedTimes[5].plural == "minutos"
    ensures ElapsedTimes[6].single == "segundo" && ElapsedTimes[6].plural == "segundos"
  {
  }

  /** "Falta" (still to come) for a positive amount, "Hace" (ago) otherwise, zero included. */
  function Prefix(milliseconds: int): (p: string)
    ensures p == "Falta" <==> milliseconds > 0
    ensures p == "Hace" <==> milliseconds <= 0
  {
    if milliseconds > 0 then "Falta" else "Hace"
  }

  function Abs(x: int): nat {
    if x < 0 then -x else x
  }

  /** The whole number of units of entry `i` in `value`, as `Math.floor` gives it. */
  function Quotient(value: nat, i: nat): int
    requires i < |ElapsedTimes|
  {
    value / ElapsedTimes[i].value
  }

  /**
   * The first entry at or after `from` with a quotient of at least one; the
   * last entry, one second, always has one for a value of a second or more.
   */
  function CoarsestFrom(value: nat, from: nat): (i: nat)
    requires value >= 1000 && from < |ElapsedTimes|
    ensures from <= i < |ElapsedTimes| && Quotient(value, i) >= 1
    ensures forall j :: from <= j < i ==> Quotient(value, j) == 0
    decreases |ElapsedTimes| - from
  {
    if from == |ElapsedTimes| - 1 || Quotient(value, from) >= 1 then from
    else CoarsestFrom(value, from + 1)
  }

  /** The coarsest unit of `value`: the first in the table with a quotient of at least one. */
  function CoarsestUnit(value: nat): (i: nat)
    requires value >= 1000
    ensures i < |ElapsedTimes| && Quotient(value, i) >= 1
    ensures forall j :: 0 <= j < i ==> Quotient(value, j) == 0
  {
    CoarsestFrom(value, 0)
  }

  /** "<prefix> <quotient> <name>", the singular name for a quotient of one and the plural otherwise. */
  function UnitPhrase(prefix: string, value: nat, i: nat): string
    requires i < |ElapsedTimes|
  {
    var result := Quotient(value, i);
    var name := if result == 1 then ElapsedTimes[i].single else ElapsedTimes[i].plural;
    prefix + " " + IntToString(result) + " " + name
  }

  /** What `formatForHumans` returns for `milliseconds`. */
  function HumanPhrase(milliseconds: int): (r: string)
    ensures |r| >= |Prefix(milliseconds)| + 1 && r[..|Prefix(milliseconds)| + 1] == Prefix(milliseconds) + " "
  {
    var value := Abs(milliseconds);
    if value < 1000 then Prefix(milliseconds) + " 1 segundo"
    else UnitPhrase(Prefix(milliseconds), value, CoarsestUnit(value))
  }

  /** Less than a second either way reads as one second. */
  lemma HumanPhraseSubSecond(milliseconds: int)
    requires -1000 < milliseconds < 1000
    ensures HumanPhrase(milliseconds) == Prefix(milliseconds) + " 1 segundo"
  {
  }

  /**
   * From one second on, the phrase names the unit `i` that has a quotient of
   * at least one while every larger unit has quotient zero.
   */
  lemma {:induction false} HumanPhraseSelectsCoarsest(milliseconds: int, i: nat)
    requires Abs(milliseconds) >= 1000 && i < |ElapsedTimes|
    requires Quotient(Abs(milliseconds), i) >= 1
    requires forall j :: 0 <= j < i ==> Quotient(Abs(milliseconds), j) == 0
    ensures HumanPhrase(milliseconds) == UnitPhrase(Prefix(milliseconds), Abs(milliseconds), i)
  {
    var k := CoarsestUnit(Abs(milliseconds));
    assert k == i;
  }

  /** Half a second ahead reads as one second to come; zero reads as one second ago. */
  lemma HumanPhraseSubSecondSamples()
    ensures HumanPhrase(500) == "Falta 1 segundo"
    ensures HumanPhrase(0) == "Hace 1 segundo"
  {
  }

  /** Ninety seconds is one minute, not ninety seconds. */
  lemma HumanPhraseMinuteSample()
    ensures HumanPhrase(90000) == "Falta 1 minuto"
  {
    HumanPhraseSelectsCoarsest(90000, 5);
  }

  /** Twenty-five hours is one day: the day wins over the hour. */
  lemma HumanPhraseDaySample()
    ensures HumanPhrase(25 * Timestamps.Hour) == "Falta 1 día"
  {
    HumanPhraseSelectsCoarsest(25 * Timestamps.Hour, 3);
  }

  /** Two hours takes the plural, and two days ago the table's plural "dias". */
  lemma HumanPhrasePluralSamples()
    ensures HumanPhrase(2 * Timestamps.Hour) == "Falta 2 horas"
    ensures HumanPhrase(-2 * Timestamps.Day) == "Hace 2 dias"
  {
    HumanPhraseSelectsCoarsest(2 * Timestamps.Hour, 4);
    HumanPhraseSelectsCoarsest(-2 * Timestamps.Day, 3);
  }

  /**
   * `formatForHumans`: the prefix from the sign, one second below a second,
   * otherwise a scan of `ELAPSED_TIMES` that stops at the first unit with a
   * quotient of at least one.
   */
  method FormatForHumans(milliseconds: int) returns (description: string)
    ensures description == HumanPhrase(milliseconds)
    ensures description != ""
  {
    var prefix := if milliseconds > 0 then "Falta" else "Hace";
    var value := Abs(milliseconds);
    if value < 1000 {
      return prefix + " 1 segundo";
    }
    description := "";
    var index := 0;
    while description == "" && index < |ElapsedTimes|
      invariant 0 <= index <= |ElapsedTimes|
      invariant description == "" ==> forall j :: 0 <= j < index ==> Quotient(value, j) == 0
      invariant description != "" ==> 1 <= index && index - 1 == CoarsestUnit(value)
      invariant description != "" ==> description == UnitPhrase(prefix, value, index - 1)
    {
      var elapsed := ElapsedTimes[index];
      var result := value / elapsed.value;
      if result >= 1 {
        var name := if result == 1 then elapsed.single else elapsed.plural;
        description := prefix + " " + IntToString(result) + " " + name;
        assert description == UnitPhrase(prefix, value, index);
      }
      index := index + 1;
    }
  }

  /** `differenceForHumans(date, compare)`: the phrase for `date - compare`. */
  method DifferenceForHumans(date: int, compare: int) returns (r: string)
    ensures r == HumanPhrase(Timestamps.TimeDifference(date, compare))
  {
    r := FormatForHumans(Timestamps.TimeDifference(date, compare));
  }
}
