/**
 The label the home screen gives a calendar day, e.g. "5th March 2024": the
 day of the month, the fixed suffix "th" (also for 1, 2, 3, 21, ...), a space,
 the English month name, a space and the full year. The label is both the
 section title and the grouping key, and its second space-separated token is
 the month key.
 */
module DayKey {
  import opened Wrappers
  import opened Text

  const MonthNames: seq<string> := [
    "January", "February", "March", "April", "May", "June",
    "July", "August", "September", "October", "November", "December"
  ]

  /** What `Date.prototype.getMonth` returns: 0 for January up to 11 for December. */
  type MonthIndex = m: int | 0 <= m < 12

  /** A stored row's timestamp, already decoded into local calendar fields. */
  datatype Date = Date(day: nat, month: MonthIndex, year: int)

  /** The day label of a date: it splits on spaces into exactly day+"th", the month name and the year. */
  function KeyOf(d: Date): (key: string)
    ensures Split(key, ' ') == [NatToString(d.day) + "th", MonthNames[d.month], IntToString(d.year)]
  {
    var day, month, year := NatToString(d.day) + "th", MonthNames[d.month], IntToString(d.year);
    assert day + " " + month + " " + year == day + [' '] + (month + [' '] + year);
    DigitsHaveNo(NatToString(d.day), ' ');
    assert ' ' !in day;
    MonthNamesHaveNoSpace(d.month);
    assert ' ' !in year by {
      if d.year < 0 {
        DigitsHaveNo(year[1..], ' ');
        assert year == [year[0]] + year[1..];
      } else {
        DigitsHaveNo(year, ' ');
      }
    }
    SplitAround(day, ' ', month + [' '] + year);
    SplitAround(month, ' ', year);
    SplitWithout(day, ' ');
    SplitWithout(month, ' ');
    SplitWithout(year, ' ');
    day + " " + month + " " + year
  }

  /** Whether the label has a second space-separated token for MonthOf to read. */
  predicate HasMonthToken(key: string) {
    2 <= |Split(key, ' ')|
  }

  /** The month key of a day label: its second space-separated token, a single word. */
  function MonthOf(key: string): (month: string)
    requires HasMonthToken(key)
    ensures ' ' !in month
  {
    SplitPiecesWithout(key, ' ');
    Split(key, ' ')[1]
  }

  /** Position of a month name in the table, if it is one. */
  function MonthIndexOf(name: string): (r: Option<MonthIndex>)
    ensures r.Some? ==> MonthNames[r.value] == name
    ensures r.None? ==> name !in MonthNames
  {
    FindMonth(name, 0)
  }

  function FindMonth(name: string, from: nat): (r: Option<MonthIndex>)
    requires from <= 12
    ensures r.Some? ==> from <= r.value && MonthNames[r.value] == name
    ensures r.Some? ==> forall j :: from <= j < r.value ==> MonthNames[j] != name
    ensures r.None? ==> forall j :: from <= j < 12 ==> MonthNames[j] != name
    decreases 12 - from
  {
    if from == 12 then None
    else if MonthNames[from] == name then Some(from)
    else FindMonth(name, from + 1)
  }

  /** Reads a day label back into its date; None for a string that is not one. */
  function ParseKey(key: string): (r: Option<Date>) {
    var tokens := Split(key, ' ');
    if |tokens| != 3 then None
    else
      var first := tokens[0];
      if |first| < 3 || first[|first| - 2..] != "th" || !AllDigits(first[..|first| - 2]) then None
      else
        match MonthIndexOf(tokens[1])
        case None => None
        case Some(m) =>
          match ParseInt(tokens[2])
          case None => None
          case Some(y) => Some(Date(ParseDigits(first[..|first| - 2]), m, y))
  }

  lemma MonthNamesHaveNoSpace(m: MonthIndex)
    ensures ' ' !in MonthNames[m]
  {
  }

  lemma MonthNamesDistinct(i: MonthIndex, j: MonthIndex)
    requires i != j
    ensures MonthNames[i] != MonthNames[j]
  {
  }

  /** The month key of a day label is the month's name and nothing else (no year). */
  lemma MonthOfKey(d: Date)
    ensures HasMonthToken(KeyOf(d))
    ensures MonthOf(KeyOf(d)) == MonthNames[d.month]
  {
  }

  /** ParseKey inverts KeyOf. */
  lemma ParseKeyOf(d: Date)
    ensures ParseKey(KeyOf(d)) == Some(d)
  {
    var first := NatToString(d.day) + "th";
    assert first[..|first| - 2] == NatToString(d.day);
    assert first[|first| - 2..] == "th";
    ParseNatToString(d.day);
    ParseIntToString(d.year);
    var r := MonthIndexOf(MonthNames[d.month]);
    if r.value != d.month {
      MonthNamesDistinct(r.value, d.month);
    }
  }

  /** Two rows share a day label exactly when they fall on the same calendar day. */
  lemma KeyOfInjective(d1: Date, d2: Date)
    ensures KeyOf(d1) == KeyOf(d2) <==> d1 == d2
  {
    if KeyOf(d1) == KeyOf(d2) {
      ParseKeyOf(d1);
      ParseKeyOf(d2);
    }
  }

  /**
   The month key ignores the year: the same month of two different years gives
   two different day labels but one month key.
   */
  lemma SameMonthOtherYear(d1: Date, d2: Date)
    requires d1.month == d2.month && d1.year != d2.year
    ensures KeyOf(d1) != KeyOf(d2)
    ensures HasMonthToken(KeyOf(d1)) && HasMonthToken(KeyOf(d2))
    ensures MonthOf(KeyOf(d1)) == MonthOf(KeyOf(d2)) == MonthNames[d1.month]
  {
    KeyOfInjective(d1, d2);
    MonthOfKey(d1);
    MonthOfKey(d2);
  }
}
