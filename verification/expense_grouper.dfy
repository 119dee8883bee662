/**
 What the home screen does with the rows it reads from storage: label every
 row with its day, gather the rows into day groups (section title + rows),
 gather the day groups into month groups keyed by the month name, and sum
 each day's amounts for the section header.
 */
module ExpenseGrouper {
  import opened Text
  import opened DayKey
  import opened GroupBy

  /** A stored row; the amount is an exact integer here (see README). */
  datatype Expense = Expense(name: string, amount: int, category: string, date: Date)

  /** `{date, data}`: a day label and the rows of that day. */
  type DayGroup = Group<string, Expense>

  /** `{month, monthlyData}`: a month name and the day groups of that month. */
  type MonthGroup = Group<string, DayGroup>

  function Amount(e: Expense): int {
    e.amount
  }

  /** The day label of a row. */
  function DayOf(e: Expense): string {
    KeyOf(e.date)
  }

  /** The temporary array: each row paired with its day label. */
  function DayPieces(rows: seq<Expense>): (ps: seq<(string, Expense)>)
    ensures |ps| == |rows|
    ensures forall i :: 0 <= i < |rows| ==> ps[i] == (KeyOf(rows[i].date), rows[i])
  {
    KeyedBy(rows, DayOf)
  }

  function GroupByDay(rows: seq<Expense>): (days: seq<DayGroup>)
    ensures |rows| == 0 ==> days == []
  {
    GroupPairs(DayPieces(rows))
  }

  /** Day groups paired with their month key (the label's second token). */
  function MonthPieces(days: seq<DayGroup>): (ps: seq<(string, DayGroup)>)
    requires forall i :: 0 <= i < |days| ==> HasMonthToken(days[i].key)
    ensures |ps| == |days|
    ensures forall i :: 0 <= i < |days| ==> ps[i] == (MonthOf(days[i].key), days[i])
  {
    seq(|days|, i requires 0 <= i < |days| => (MonthOf(days[i].key), days[i]))
  }

  function GroupByMonth(days: seq<DayGroup>): (months: seq<MonthGroup>)
    requires forall i :: 0 <= i < |days| ==> HasMonthToken(days[i].key)
    ensures |days| == 0 ==> months == []
  {
    GroupPairs(MonthPieces(days))
  }

  /** The whole pass: rows to month groups of day groups. */
  function GroupExpenses(rows: seq<Expense>): (months: seq<MonthGroup>)
    ensures |rows| == 0 ==> months == []
    ensures |months| <= 12
  {
    DayGroupMonths(rows);
    MonthCount(rows);
    GroupByMonth(GroupByDay(rows))
  }

  /** The rows carrying day label `key`, in input order. */
  function RowsOn(rows: seq<Expense>, key: string): seq<Expense> {
    Having(rows, DayOf, key)
  }

  // ---------------------------------------------------------------------------
  // Day groups

  lemma DayPiecesValues(rows: seq<Expense>)
    ensures Values(DayPieces(rows)) == rows
    ensures forall k, e :: (k, e) in DayPieces(rows) ==> k == KeyOf(e.date) && e in rows
  {
    assert Values(DayPieces(rows)) == rows;
  }

  /**
   Day grouping partitions the rows: as many rows in the groups as in the
   input, the same rows, every row in the group its own label leads to, and
   only rows of that label in any group.
   */
  lemma DayGroupsPartition(rows: seq<Expense>)
    ensures |Flatten(GroupByDay(rows))| == |rows|
    ensures multiset(Flatten(GroupByDay(rows))) == multiset(rows)
    ensures forall j :: 0 <= j < |rows| ==>
      KeyIndex(GroupByDay(rows), KeyOf(rows[j].date)) < |GroupByDay(rows)| &&
      rows[j] in GroupByDay(rows)[KeyIndex(GroupByDay(rows), KeyOf(rows[j].date))].items
    ensures forall i, e :: 0 <= i < |GroupByDay(rows)| && e in GroupByDay(rows)[i].items ==>
      e in rows && KeyOf(e.date) == GroupByDay(rows)[i].key
    ensures forall i :: 0 <= i < |GroupByDay(rows)| ==> 0 < |GroupByDay(rows)[i].items|
  {
    var ps := DayPieces(rows);
    var days := GroupByDay(rows);
    DayPiecesValues(rows);
    assert |Flatten(days)| == |rows| by {
      GroupPairsCount(ps, Amount);
    }
    assert multiset(Flatten(days)) == multiset(rows) by {
      GroupPairsPermutes(ps);
    }
    GroupPairsCovers(ps);
    GroupPairsHomogeneous(ps);
  }

  /**
   Day labels are pairwise distinct, they are exactly the rows' labels, and
   they come in the order in which each label first appears among the rows.
   */
  lemma DayGroupsOrder(rows: seq<Expense>)
    ensures Distinct(GroupKeys(GroupByDay(rows)))
    ensures GroupKeys(GroupByDay(rows)) == Dedup(Keys(DayPieces(rows)))
    ensures forall j :: 0 <= j < |rows| ==> KeyOf(rows[j].date) in GroupKeys(GroupByDay(rows))
    ensures forall i :: 0 <= i < |GroupByDay(rows)| ==> GroupByDay(rows)[i].key in Keys(DayPieces(rows))
    ensures forall i, j :: 0 <= i < j < |GroupByDay(rows)| ==>
      FirstIndex(Keys(DayPieces(rows)), GroupByDay(rows)[i].key) <
      FirstIndex(Keys(DayPieces(rows)), GroupByDay(rows)[j].key)
  {
    var ps := DayPieces(rows);
    GroupPairsKeys(ps);
    RowKeysGrouped(rows);
  }

  /** DayGroupsOrder's coverage step: each row's label is among the group keys. */
  lemma RowKeysGrouped(rows: seq<Expense>)
    requires forall k :: k in GroupKeys(GroupByDay(rows)) <==> k in Keys(DayPieces(rows))
    ensures forall j :: 0 <= j < |rows| ==> DayOf(rows[j]) in GroupKeys(GroupByDay(rows))
  {
    var ps := DayPieces(rows);
    forall j | 0 <= j < |rows| ensures DayOf(rows[j]) in GroupKeys(GroupByDay(rows)) {
      assert Keys(ps)[j] == DayOf(rows[j]);
    }
  }

  /** Each day group holds exactly the rows of its label, in their input order. */
  lemma DayGroupsKeepOrder(rows: seq<Expense>)
    ensures forall i :: 0 <= i < |GroupByDay(rows)| ==>
      GroupByDay(rows)[i].items == RowsOn(rows, GroupByDay(rows)[i].key)
  {
    var ps := DayPieces(rows);
    GroupPairsSpec(ps);
    forall i | 0 <= i < |GroupByDay(rows)|
      ensures GroupByDay(rows)[i].items == RowsOn(rows, GroupByDay(rows)[i].key)
    {
      ItemsWithKeyBy(rows, DayOf, GroupByDay(rows)[i].key);
    }
  }

  /** All rows of a day group fall on the same calendar day. */
  lemma DayGroupsSameDay(rows: seq<Expense>)
    ensures forall i, e1, e2 ::
      (0 <= i < |GroupByDay(rows)| && e1 in GroupByDay(rows)[i].items && e2 in GroupByDay(rows)[i].items)
      ==> e1.date == e2.date
  {
    DayGroupsPartition(rows);
    forall e1: Expense, e2: Expense | KeyOf(e1.date) == KeyOf(e2.date)
      ensures e1.date == e2.date
    {
      KeyOfInjective(e1.date, e2.date);
    }
  }

  /** Grouping the rows of the day groups, taken in section order, gives the same day groups. */
  lemma DayRegroupIdempotent(rows: seq<Expense>)
    ensures GroupByDay(Flatten(GroupByDay(rows))) == GroupByDay(rows)
  {
    DayGroupsPartition(rows);
    KeyedByFlatten(GroupByDay(rows), DayOf);
    GroupPairsIdempotent(DayPieces(rows));
  }

  /**
   Every day group's label has a month token, and that token is the month
   name of every row in the group.
   */
  lemma DayGroupMonths(rows: seq<Expense>)
    ensures forall i :: 0 <= i < |GroupByDay(rows)| ==> HasMonthToken(GroupByDay(rows)[i].key)
    ensures forall i, e :: 0 <= i < |GroupByDay(rows)| && e in GroupByDay(rows)[i].items ==>
      MonthOf(GroupByDay(rows)[i].key) == MonthNames[e.date.month]
    ensures forall i :: 0 <= i < |GroupByDay(rows)| ==> MonthOf(GroupByDay(rows)[i].key) in MonthNames
  {
    var days := GroupByDay(rows);
    DayGroupsPartition(rows);
    forall i | 0 <= i < |days|
      ensures HasMonthToken(days[i].key) && MonthOf(days[i].key) in MonthNames
      ensures forall e :: e in days[i].items ==> MonthOf(days[i].key) == MonthNames[e.date.month]
    {
      GroupMonth(days[i]);
    }
  }

  /** DayGroupMonths for one nonempty group whose rows all carry its label. */
  lemma GroupMonth(day: DayGroup)
    requires 0 < |day.items|
    requires forall e :: e in day.items ==> KeyOf(e.date) == day.key
    ensures HasMonthToken(day.key) && MonthOf(day.key) in MonthNames
    ensures forall e :: e in day.items ==> MonthOf(day.key) == MonthNames[e.date.month]
  {
    assert day.items[0] in day.items;
    MonthOfKey(day.items[0].date);
    forall e | e in day.items ensures MonthOf(day.key) == MonthNames[e.date.month] {
      MonthOfKey(e.date);
    }
  }

  // ---------------------------------------------------------------------------
  // Month groups

  lemma MonthPiecesValues(days: seq<DayGroup>)
    requires forall i :: 0 <= i < |days| ==> HasMonthToken(days[i].key)
    ensures Values(MonthPieces(days)) == days
    ensures forall k, d :: (k, d) in MonthPieces(days) ==> k == MonthOf(d.key) && d in days
  {
    assert Values(MonthPieces(days)) == days;
  }

  /**
   Month grouping partitions the day groups: each day group lands in the month
   group of its month token, and a month group holds only day groups of its
   month, so only rows of that month whatever their year.
   */
  lemma MonthGroupsPartition(rows: seq<Expense>)
    ensures var days := GroupByDay(rows); var months := GroupExpenses(rows);
      && (forall j :: 0 <= j < |days| ==> HasMonthToken(days[j].key))
      && multiset(Flatten(months)) == multiset(days)
      && (forall j :: 0 <= j < |days| ==>
            KeyIndex(months, MonthOf(days[j].key)) < |months| &&
            days[j] in months[KeyIndex(months, MonthOf(days[j].key))].items)
      && (forall m, d :: 0 <= m < |months| && d in months[m].items ==>
            d in days && HasMonthToken(d.key) && months[m].key == MonthOf(d.key))
      && (forall m, d, e :: 0 <= m < |months| && d in months[m].items && e in d.items ==>
            months[m].key == MonthNames[e.date.month])
  {
    var days := GroupByDay(rows);
    DayGroupMonths(rows);
    var ps := MonthPieces(days);
    MonthPiecesValues(days);
    GroupPairsPermutes(ps);
    GroupPairsCovers(ps);
    GroupPairsHomogeneous(ps);
  }

  /** Month keys are pairwise distinct month names in order of first appearance. */
  lemma MonthGroupsOrder(rows: seq<Expense>)
    ensures forall i :: 0 <= i < |GroupByDay(rows)| ==> HasMonthToken(GroupByDay(rows)[i].key)
    ensures Distinct(GroupKeys(GroupExpenses(rows)))
    ensures forall m :: 0 <= m < |GroupExpenses(rows)| ==>
      GroupExpenses(rows)[m].key in Keys(MonthPieces(GroupByDay(rows)))
    ensures forall m :: 0 <= m < |GroupExpenses(rows)| ==> GroupExpenses(rows)[m].key in MonthNames
    ensures forall m, n :: 0 <= m < n < |GroupExpenses(rows)| ==>
      FirstIndex(Keys(MonthPieces(GroupByDay(rows))), GroupExpenses(rows)[m].key) <
      FirstIndex(Keys(MonthPieces(GroupByDay(rows))), GroupExpenses(rows)[n].key)
  {
    var days := GroupByDay(rows);
    DayGroupMonths(rows);
    var ps := MonthPieces(days);
    GroupPairsKeys(ps);
    var months := GroupExpenses(rows);
    assert months == GroupPairs(ps);
    forall m | 0 <= m < |months| ensures months[m].key in Keys(ps) && months[m].key in MonthNames {
      assert GroupKeys(months)[m] == months[m].key;
      assert months[m].key in Keys(ps);
      var i :| 0 <= i < |ps| && Keys(ps)[i] == months[m].key;
      assert months[m].key == MonthOf(days[i].key);
    }
  }

  /** There are at most twelve month groups, one per month name. */
  lemma MonthCount(rows: seq<Expense>)
    ensures forall i :: 0 <= i < |GroupByDay(rows)| ==> HasMonthToken(GroupByDay(rows)[i].key)
    ensures |GroupByMonth(GroupByDay(rows))| <= 12
  {
    var days := GroupByDay(rows);
    DayGroupMonths(rows);
    var ps := MonthPieces(days);
    GroupPairsKeys(ps);
    var months := GroupByMonth(days);
    forall m | 0 <= m < |months| ensures GroupKeys(months)[m] in MonthNames {
      assert GroupKeys(months)[m] in Keys(ps);
    }
    DistinctWithin(GroupKeys(months), MonthNames);
  }

  /**
   Where a row ends up: in the month group of its month name, inside the day
   group of its day label. Two rows of the same month but different years
   therefore share a month group.
   */
  lemma RowPlacement(rows: seq<Expense>, j: nat)
    requires j < |rows|
    ensures var months := GroupExpenses(rows);
      var m := KeyIndex(months, MonthNames[rows[j].date.month]);
      && m < |months|
      && exists d :: d in months[m].items && d.key == KeyOf(rows[j].date) && rows[j] in d.items
  {
    var days := GroupByDay(rows);
    var months := GroupExpenses(rows);
    DayGroupsPartition(rows);
    DayGroupMonths(rows);
    MonthGroupsPartition(rows);
    var i := KeyIndex(days, KeyOf(rows[j].date));
    var d := days[i];
    assert rows[j] in d.items;
    assert MonthOf(d.key) == MonthNames[rows[j].date.month];
    assert d in months[KeyIndex(months, MonthOf(days[i].key))].items;
  }

  // ---------------------------------------------------------------------------
  // Grouping the grouped rows again

  /** The month key of a day group, made total: "" for a label without a month token. */
  function MonthKey(day: DayGroup): string {
    if HasMonthToken(day.key) then MonthOf(day.key) else ""
  }

  lemma MonthPiecesKeyed(days: seq<DayGroup>)
    requires forall i :: 0 <= i < |days| ==> HasMonthToken(days[i].key)
    ensures MonthPieces(days) == KeyedBy(days, MonthKey)
  {
  }

  /**
   The day groups in month-group order, taken apart into rows and grouped by
   day again, come back as they are: a reordering of the day groups.
   */
  lemma ShuffledDaysRegroup(rows: seq<Expense>)
    ensures GroupByDay(Flatten(Flatten(GroupExpenses(rows)))) == Flatten(GroupExpenses(rows))
  {
    var days := GroupByDay(rows);
    var shuffled := Flatten(GroupExpenses(rows));
    assert multiset(shuffled) == multiset(days) by {
      MonthGroupsPartition(rows);
    }
    assert Distinct(GroupKeys(days)) by {
      DayGroupsOrder(rows);
    }
    assert (forall i :: 0 <= i < |days| ==> 0 < |days[i].items|)
      && (forall i, e :: 0 <= i < |days| && e in days[i].items ==> DayOf(e) == days[i].key) by {
      DayGroupsPartition(rows);
    }
    RegroupPermuted(shuffled, days, DayOf);
  }

  /** The month groups, taken apart into day groups and grouped by month again, come back as they are. */
  lemma MonthsRegroup(rows: seq<Expense>)
    ensures GroupPairs(KeyedBy(Flatten(GroupExpenses(rows)), MonthKey)) == GroupExpenses(rows)
  {
    MonthGroupsOrder(rows);
    MonthsNonEmpty(rows);
    MonthsKeyed(rows);
    RegroupKeyed(GroupExpenses(rows), MonthKey);
  }

  lemma MonthsNonEmpty(rows: seq<Expense>)
    ensures forall m :: 0 <= m < |GroupExpenses(rows)| ==> 0 < |GroupExpenses(rows)[m].items|
  {
    var days := GroupByDay(rows);
    DayGroupMonths(rows);
    assert GroupExpenses(rows) == GroupPairs(MonthPieces(days));
    GroupPairsHomogeneous(MonthPieces(days));
  }

  lemma MonthsKeyed(rows: seq<Expense>)
    ensures forall m, d :: 0 <= m < |GroupExpenses(rows)| && d in GroupExpenses(rows)[m].items ==>
      MonthKey(d) == GroupExpenses(rows)[m].key
  {
    MonthGroupsPartition(rows);
  }

  /**
   The whole two-level result is stable: taking the month groups apart down to
   rows, in display order, and grouping those rows again gives the same month
   groups of the same day groups.
   */
  lemma GroupExpensesIdempotent(rows: seq<Expense>)
    ensures GroupExpenses(Flatten(Flatten(GroupExpenses(rows)))) == GroupExpenses(rows)
  {
    var shuffled := Flatten(GroupExpenses(rows));
    var again := Flatten(shuffled);
    ShuffledDaysRegroup(rows);
    MonthsRegroup(rows);
    DayGroupMonths(again);
    MonthPiecesKeyed(shuffled);
    assert GroupExpenses(again) == GroupPairs(MonthPieces(GroupByDay(again)));
  }

  // ---------------------------------------------------------------------------
  // Totals

  /**
   `reduce((sum, data) => sum + amount, acc)` over the rows of a day: the
   accumulator plus the sum of the amounts.
   */
  function Reduce(items: seq<Expense>, acc: int): (total: int)
    ensures total == acc + SumOf(items, Amount)
    decreases |items|
  {
    if |items| == 0 then acc else Reduce(items[1..], acc + items[0].amount)
  }

  /** A day's total: the left fold from 0 adds up to the sum of its amounts. */
  function DayTotal(day: DayGroup): (total: int)
    ensures total == SumOf(day.items, Amount)
  {
    Reduce(day.items, 0)
  }

  lemma {:induction false} DayTotalsOfFlatten(days: seq<DayGroup>)
    ensures SumOf(days, DayTotal) == SumOf(Flatten(days), Amount)
    decreases |days|
  {
    if |days| > 0 {
      var n := |days| - 1;
      var pre := days[..n];
      DayTotalsOfFlatten(pre);
      SumOfSnoc(days, DayTotal);
      assert Flatten(days) == Flatten(pre) + days[n].items;
      SumOfAppend(Flatten(pre), days[n].items, Amount);
    }
  }

  /** The day totals add up to the total of all rows. */
  lemma DayTotalsAddUp(rows: seq<Expense>)
    ensures SumOf(GroupByDay(rows), DayTotal) == SumOf(rows, Amount)
  {
    var ps := DayPieces(rows);
    DayPiecesValues(rows);
    GroupPairsCount(ps, Amount);
    DayTotalsOfFlatten(GroupByDay(rows));
  }

  /** Regrouping by month neither loses nor repeats a day total. */
  lemma MonthTotalsAddUp(rows: seq<Expense>)
    ensures SumOf(Flatten(GroupExpenses(rows)), DayTotal) == SumOf(rows, Amount)
  {
    var days := GroupByDay(rows);
    DayGroupMonths(rows);
    var ps := MonthPieces(days);
    MonthPiecesValues(days);
    GroupPairsCount(ps, DayTotal);
    DayTotalsAddUp(rows);
  }
}
