# Expense grouping and the add-expense form, modelled in Dafny

The app keeps a list of expenses (name, amount, category, timestamp) and shows
them on its home screen as sections, one per calendar day, nested in month
groups. Each section is titled with a day label such as "5th March 2024",
carries the total of the day's amounts, and lists that day's rows. Amounts are
shown with a comma between groups of three digits. A second screen is the
add-expense form. It checks the fields, optionally records a recurring
expense, inserts the row and navigates back.

This project models both pieces and proves their properties:

- `wrappers.dfy`: `Option`.
- `text.dfy`:
  - decimal rendering of naturals and integers, and their parsers;
  - JavaScript `String.prototype.split` on one character, with `Join` as its inverse.
- `day_key.dfy`:
  - the month-name table;
  - the day label of a date, and a parser that reads it back;
  - the month key, which is the label's second space-separated token.
- `group_by.dfy`: the insertion-ordered group-by the home screen uses twice.
  - As a fold (`GroupPairs`) and as the screen's nested loop (`GroupInOrder`).
  - Proved equal to a reference definition: distinct keys in first-appearance order, each with its elements in input order.
- `expense_grouper.dfy`: rows to day groups to month groups, and the day totals.
- `thousands.dfy`:
  - the regular expression `\B(?=(\d{3})+(?!\d))`, modelled position by position;
  - a reference grouping it is proved equal to.
- `add_expense.dfy`: the form as a state machine. Reset, the switch and its effect, the pickers, and `Add`, which returns the list of effects it causes.

## Model

| member | source | states |
|---|---|---|
| Text.NatToString | src/screens/homeScreen.js:45 | the text `getDate()` becomes when concatenated to a string: a nonempty string of decimal digits |
| Text.IntToString | src/screens/homeScreen.js:49 | the text `getFullYear()` becomes when concatenated: digits for a non-negative year, a '-' followed by digits for a negative one |
| Text.ParseNatToString | src/screens/homeScreen.js:44-49 | reading back the decimal rendering of a natural gives the natural |
| Text.ParseIntToString | src/screens/homeScreen.js:44-49 | reading back the rendering of an integer (sign included) gives the integer |
| Text.Split | src/screens/homeScreen.js:85 | `split` on one character: the pieces between consecutive separators, empty pieces kept, always at least one piece |
| Text.SplitWithout | src/screens/homeScreen.js:85 | `split` of a string without the separator is the one-element list of that string |
| Text.SplitAround | src/screens/homeScreen.js:85 | splitting `a + c + b` on `c` is the split of `a` followed by the split of `b` |
| Text.SplitPiecesWithout | src/screens/homeScreen.js:85 | no piece of a `split` contains the separator |
| Text.JoinSplit | src/screens/homeScreen.js:85 | joining the pieces of a split with the separator gives back the string |
| DayKey.MonthIndexOf | src/screens/homeScreen.js:8-21 | finds a month name's position in the table, or reports that it is not a month name |
| DayKey.MonthNamesDistinct | src/screens/homeScreen.js:8-21 | the twelve month names are pairwise different |
| DayKey.MonthNamesHaveNoSpace | src/screens/homeScreen.js:8-21 | no month name contains a space |
| DayKey.KeyOf | src/screens/homeScreen.js:42-49 | a day label splits on spaces into exactly three words: day+"th", the month name, the year |
| DayKey.MonthOf | src/screens/homeScreen.js:85 | the month key read from a label is a single word, without spaces |
| DayKey.MonthOfKey | src/screens/homeScreen.js:85 | the second token of a day label is the month name alone, without the year |
| DayKey.ParseKeyOf | src/screens/homeScreen.js:42-49 | the day label determines the date: reading it back gives the date |
| DayKey.KeyOfInjective | src/screens/homeScreen.js:42-49 | two dates get the same label exactly when they are the same day |
| DayKey.SameMonthOtherYear | src/screens/homeScreen.js:85 | the same month in two different years gives two labels but one month key |
| GroupBy.KeyIndex | src/screens/homeScreen.js:59-64 | the first group with the key, or the group count if there is none |
| GroupBy.Place | src/screens/homeScreen.js:55-71 | one push-or-append: a present key's group gets the element at its end and the keys stay as they were; an absent key opens a new last group holding just the element; every other group is left as it was |
| GroupBy.GroupPairs | src/screens/homeScreen.js:55-71 | the fold of push-or-append over the input; its group keys are the distinct input keys in first-appearance order |
| GroupBy.FindKey | src/screens/homeScreen.js:59-64 | the inner loop's scan stops at the first group with the key, or at the end when there is none |
| GroupBy.GroupInOrder | src/screens/homeScreen.js:55-71 | the screen's scan-then-push-or-append loop computes the fold `GroupPairs` |
| GroupBy.GroupPairsSpec | src/screens/homeScreen.js:55-71 | group keys are the distinct input keys in first-appearance order; each group holds exactly its key's elements in input order |
| GroupBy.GroupPairsKeys | src/screens/homeScreen.js:55-71 | group keys are pairwise distinct, are exactly the input keys, and are ordered by first appearance |
| GroupBy.GroupPairsCovers | src/screens/homeScreen.js:66-70 | every input element is in the group that the key scan finds for its key |
| GroupBy.GroupPairsHomogeneous | src/screens/homeScreen.js:55-71 | a group holds only elements that came with its key, and no group is empty |
| GroupBy.PlaceFlatten | src/screens/homeScreen.js:66-70 | one push-or-append adds exactly one element and its weight to the flattened groups |
| GroupBy.GroupPairsCount | src/screens/homeScreen.js:55-71 | the groups hold as many elements as the input, with the same weighted sum |
| GroupBy.GroupPairsPermutes | src/screens/homeScreen.js:55-71 | the flattened groups are a permutation of the input elements |
| GroupBy.GroupPairsIdempotent | src/screens/homeScreen.js:55-71 | taking the groups apart and grouping again gives the same groups |
| ExpenseGrouper.DayPieces | src/screens/homeScreen.js:41-52 | each row paired with its own day label, one piece per row, in order |
| ExpenseGrouper.GroupByDay | src/screens/homeScreen.js:55-71 | no rows give no sections (the lemmas below state the rest) |
| ExpenseGrouper.MonthPieces | src/screens/homeScreen.js:85 | each day group paired with its label's month token, in order |
| ExpenseGrouper.GroupByMonth | src/screens/homeScreen.js:83-96 | no day groups give no month groups (the lemmas below state the rest) |
| ExpenseGrouper.GroupExpenses | src/screens/homeScreen.js:41-96 | no rows give no month groups; there are never more than twelve month groups |
| ExpenseGrouper.DayGroupsPartition | src/screens/homeScreen.js:55-71 | day groups hold the rows exactly once each; every row is in its label's group; a group holds only rows with its label; no group is empty |
| ExpenseGrouper.DayGroupsOrder | src/screens/homeScreen.js:55-71 | day labels are distinct, are exactly the rows' labels, and come in order of first appearance |
| ExpenseGrouper.DayGroupsKeepOrder | src/screens/homeScreen.js:66-70 | a day group's rows are exactly the rows with its label, in their stored order |
| ExpenseGrouper.DayGroupsSameDay | src/screens/homeScreen.js:42-71 | all rows of a section fall on one calendar day |
| ExpenseGrouper.DayRegroupIdempotent | src/screens/homeScreen.js:41-71 | grouping the sections' rows again, in section order, gives the same sections |
| ExpenseGrouper.GroupExpensesIdempotent | src/screens/homeScreen.js:41-96 | taking the month groups apart down to rows, in display order, and running the whole grouping again gives the same month groups of the same day groups |
| ExpenseGrouper.DayGroupMonths | src/screens/homeScreen.js:85 | every section label has a month token, and it is the month name of each of the section's rows |
| ExpenseGrouper.MonthGroupsPartition | src/screens/homeScreen.js:83-96 | each section lands in the month group of its month token, exactly once; a month group holds only rows of its month, of any year |
| ExpenseGrouper.MonthGroupsOrder | src/screens/homeScreen.js:83-96 | month keys are distinct month names in order of first appearance |
| ExpenseGrouper.MonthCount | src/screens/homeScreen.js:83-96 | there are at most twelve month groups |
| ExpenseGrouper.RowPlacement | src/screens/homeScreen.js:41-96 | a row lies in the month group of its month name, inside the section of its day label |
| ExpenseGrouper.Reduce | src/screens/homeScreen.js:112-114 | the left fold from an accumulator adds the accumulator to the sum of the amounts |
| ExpenseGrouper.DayTotal | src/screens/homeScreen.js:111-116 | a section total is the sum of its rows' amounts |
| ExpenseGrouper.DayTotalsOfFlatten | src/screens/homeScreen.js:111-116 | the section totals of a list of sections add up to the total of their rows |
| ExpenseGrouper.DayTotalsAddUp | src/screens/homeScreen.js:111-116 | the section totals add up to the total of all stored rows |
| ExpenseGrouper.MonthTotalsAddUp | src/screens/homeScreen.js:83-96 | month grouping neither loses nor repeats a section total |
| Thousands.CommaAt | src/screens/homeScreen.js:128 | the pattern can only match strictly inside the text, after a word character and before at least three digits |
| Thousands.ReplacePrefix | src/screens/homeScreen.js:128 | the global replace over the first n characters: each character copied, with a comma in front of it wherever the pattern matches the empty string at its position |
| Thousands.ReplacePrefixOnlyCommas | src/screens/homeScreen.js:128 | the replace only inserts commas: the output for the first n characters and those characters agree once all commas are deleted from both |
| Thousands.InsertSeparators | src/screens/homeScreen.js:128 | the global replace, on any text: the output and the text agree once all commas are deleted from both |
| Thousands.InsertSeparatorsRestores | src/screens/homeScreen.js:128 | on a text without commas, deleting the commas from the output gives back the text |
| Thousands.FormatAmount | src/screens/homeScreen.js:143 | a shown amount becomes the amount's decimal rendering again once its commas are deleted |
| Thousands.TriplesOverDigits | src/screens/homeScreen.js:128 | over digits, `(\d{3})+(?!\d)` matches exactly a nonempty multiple of three digits |
| Thousands.CommaAtOverDigits | src/screens/homeScreen.js:128 | over digits, a comma goes at a position exactly when it is inside and a multiple of three digits follows |
| Thousands.SeparatorsAreGroups | src/screens/homeScreen.js:128 | over digits, the regex replace equals the reference grouping by threes from the right |
| Thousands.SignedSeparators | src/screens/homeScreen.js:143 | a leading minus sign is copied and the digits behind it are grouped as without it |
| Thousands.FormatAmountGroups | src/screens/homeScreen.js:143 | a shown amount is its sign followed by the grouped digits of its magnitude |
| Thousands.RemoveCommasGrouped | src/screens/homeScreen.js:128 | deleting the commas from the grouped digits gives back the digits |
| Thousands.GroupShapes | src/screens/homeScreen.js:128 | the first comma-separated group has one to three digits and every later one exactly three |
| Thousands.SeparatorShapes | src/screens/homeScreen.js:128 | the same shapes for the replace's own output on a nonempty digit string: the first group one to three digits, every later one exactly three, all digits |
| AddExpenseForm.Reset | src/screens/addExpense.js:51-55 | clears name, amount and category; leaves switch and interval; the result fails the presence guard |
| AddExpenseForm.Toggle | src/screens/addExpense.js:31-33 | the switch flips (lines 155 and 162); the interval becomes "Daily" when it is now on, "" when off |
| AddExpenseForm.Complete | src/screens/addExpense.js:60 | the presence guard: Name neither "" nor absent, Amount present, Category not "" |
| AddExpenseForm.Accepted | src/screens/addExpense.js:60-65 | the presence guard holds and the loose `Amount < 0` comparison does not, so Add writes |
| AddExpenseForm.Add | src/screens/addExpense.js:58-107 | incomplete fields give only the missing-information alert; a negative amount gives only the improper-amount alert; otherwise exactly the recurring record (only when the switch is on), one insert of the fields, then navigation back: three effects with the switch on, two with it off; no write without acceptance |
| AddExpenseForm.EmptyAmountPassesGuard | src/screens/addExpense.js:60 | the guard tests the amount only for null, so an empty amount text passes it and the row is inserted |
| AddExpenseForm.AddAfterReset | src/screens/addExpense.js:51-65 | pressing Add right after Reset only alerts |
| AddExpenseForm.ToggleTwiceDropsChoice | src/screens/addExpense.js:31-33 | switching off and on again replaces an earlier interval choice with "Daily" |
| AddExpenseForm.Apply | src/screens/addExpense.js:113-185 | every user action keeps the form consistent: text fields present, interval a picker label exactly while the switch is on |
| AddExpenseForm.Run | src/screens/addExpense.js:113-185 | any sequence of user actions keeps the form consistent |
| AddExpenseForm.ReachableRecurringHasLabel | src/screens/addExpense.js:168-181 | from the opening form, a recurring record Add writes always carries one of the four picker labels |

## Left out

- Rendering is not modelled. That covers the React components, `SectionList`, styles, focus hooks, tab-bar hiding and the currency prefix "₹".
- Storage is not modelled. The rows `getExpenses` returns are the input sequence; `src/function/expensesTable` is not part of this model.
- The insert is not executed. `db.transaction` / `executeSql` appear as an `InsertExpense` effect with the three values, and the insert's success and error callbacks, which only log, are left out.
- `setRecurringDate` and `setRecurringExpense` are not modelled. `src/function/recurringExpenses` is not part of this model:
  - the recurrence-date calculation is a function parameter of `Env`;
  - saving the record is a `SaveRecurring` effect.
- The clock is a parameter. `new Date()` is `Env.now`.
- JavaScript's loose `Amount < 0` on the amount text is a predicate parameter of `Env` (`isNegative`). The string-to-number coercion is not modelled.
- The row's stored timestamp is taken as already decoded into local day, month index and year. `new Date(...)`, time zones and `getDate`/`getMonth`/`getFullYear` are not modelled.
- Amounts are exact integers. `parseFloat`, fractional amounts and floating-point sums are left out. The regex also groups the digits after a decimal point ("1234.5678" shows as "1,234.5,678"). `InsertSeparators` reproduces this on any text, but the grouping lemmas are stated over digit strings only.
- ExpenseGrouper.DayTotal: exact integer sum, where the app's floating-point total can round.
- The `try`/`catch` blocks only log to the console. An exception from the recurrence helpers would skip the insert but not the navigation back. That path is not modelled; `Add` assumes those helpers return.
- React's state updates and effects are modelled as atomic steps. The toggle effect runs together with the switch flip (`Toggle`), and `Add` reads the fields as they stand.
- `AddExpenseForm.Form`: a null Category is not modelled. The category comes from a picker whose values are strings.
- `ExpenseGrouper.GroupByMonth` requires every label to have a month token. JavaScript would use `undefined` as the key otherwise, but every label the day grouping produces has one (`DayGroupMonths`).
- The categories context, the commented-out daily-total block (homeScreen.js:74-80) and navigation to the edit screen are not modelled.

## Behaviour worth knowing

- The day label always uses the suffix "th", also for the 1st, 2nd, 3rd, 21st and so on. Day 1 therefore reads "1th".
- The month key is the month name alone. March of two different years therefore ends up in one month group (`SameMonthOtherYear`, `RowPlacement`).
- The presence guard does not test whether the amount is a number. An empty or non-numeric amount text passes it, and the row is inserted unless the loose `< 0` comparison holds (`EmptyAmountPassesGuard`).
- After an accepted Add, navigation back happens however the insert turns out.
