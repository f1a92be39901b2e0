# Compteur: a verified model of the counter screen's logic

Compteur is a one-screen Android app that keeps a list of named "streak
counters", each showing how many days have passed since its start date, and
lets the user share a counter's day count through the platform share sheet.
This project models the screen's logic in Dafny and proves what it promises:

- `Calendar` (calendar.dfy): java.time's proleptic Gregorian dates,
  `LocalDate.toEpochDay` written out as java.time computes it (truncating
  division for negative years, years -999999999 to 999999999), and
  `getDaysSince` as `DaysSince(start, today)`. An independent calendar
  successor `NextDay` / predecessor `PrevDay` is the reference it is
  checked against: each step moves the epoch day by exactly one, the epoch
  day follows calendar order, and the count is zero, positive or negative
  exactly when the start is today, in the past or in the future.
- `Palette` (palette.dfy): the six colours and `getRandomColor`.
- `Titles` (titles.dfy): Kotlin's `isNotBlank`, which enables the dialog's
  confirm button.
- `CounterList` (counter_list.dfy): the `Counter` data class (its start
  date is a `LocalDate`, a subset type of dates that exist) and the
  `mutableStateListOf` list as class `Counters`, with `Add` (`counters.add`)
  and `Remove` (`counters.remove`, which drops the first structurally equal
  element).
- `AddDialog` (add_dialog.dfy): the dialog's state (title, selected date,
  selected colour), the date picker's zero-based month conversion, and the
  gated confirm action.
- `Share` (share.dfy): the per-card debounce guard `ShareGuard` and the share
  message, with a parser that reads the day count and title back.
- `Wrappers` (wrappers.dfy): `Option`, whose `None` stands for a
  `DateTimeException`.

The clock (`SystemClock.elapsedRealtime()`), today's date
(`LocalDate.now()`) and the random draw (`Random.nextInt`) are parameters.

Two points where the code is stricter or narrower than a reader might expect,
and where the model follows the code:
- a share is honoured only when strictly more than 2000 ms have passed
  (`currentTime - lastClickTime > cooldown`), so a tap exactly 2000 ms later
  is dropped;
- deletion removes the first element EQUAL to the card's counter, not the
  card's own entry: of two identical counters the earlier one goes.

## Model

| member | source | states |
|---|---|---|
| Calendar.DaysSince | app/src/main/java/com/example/compteur/MainActivity.kt:231-233 | the day count from a date to itself is zero |
| Calendar.DaysSinceSign | app/src/main/java/com/example/compteur/MainActivity.kt:231-233 | the count is 0 iff start is today, positive iff start is before today, negative iff start is after today (not clamped) |
| Calendar.DaysSinceAntisymmetric | app/src/main/java/com/example/compteur/MainActivity.kt:231-233 | swapping start and today negates the count |
| Calendar.DaysSinceFitsLong | app/src/main/java/com/example/compteur/MainActivity.kt:231-233 | every valid date lies between LocalDate.MIN and LocalDate.MAX in epoch days, so the Long result never overflows |
| Calendar.DaysSinceEarlierStart | app/src/main/java/com/example/compteur/MainActivity.kt:231-233 | moving the start date n days earlier raises the count by n |
| Calendar.DaysSinceLaterStart | app/src/main/java/com/example/compteur/MainActivity.kt:231-233 | moving the start date n days later lowers the count by n |
| Calendar.EpochDay | app/src/main/java/com/example/compteur/MainActivity.kt:232 | `LocalDate.toEpochDay`, the quantity `ChronoUnit.DAYS.between` subtracts: every date of a year lies between that year's January 1st and the next one's |
| Calendar.MinusDays | app/src/main/java/com/example/compteur/MainActivity.kt:231-233 | a reference day shift (the source calls no `minusDays`) used to state the "n days earlier" property: stepping back n calendar days lowers the epoch day by exactly n, and fails only when leaving the supported range |
| Calendar.PlusDays | app/src/main/java/com/example/compteur/MainActivity.kt:231-233 | a reference day shift (the source calls no `plusDays`) used to state the "n days later" property: stepping forward n calendar days raises the epoch day by exactly n, and fails only when leaving the supported range |
| Calendar.NextDay | app/src/main/java/com/example/compteur/MainActivity.kt:231-233 | the calendar successor of a valid date is a valid, later date |
| Calendar.PrevDay | app/src/main/java/com/example/compteur/MainActivity.kt:231-233 | the calendar predecessor is a valid, earlier date whose successor is the original |
| Calendar.EpochDayNext | app/src/main/java/com/example/compteur/MainActivity.kt:231-233 | the epoch day of the next calendar day is one more |
| Calendar.EpochDayPrev | app/src/main/java/com/example/compteur/MainActivity.kt:231-233 | the epoch day of the previous calendar day is one less |
| Calendar.EpochDayMonotone | app/src/main/java/com/example/compteur/MainActivity.kt:231-233 | an earlier date has a smaller epoch day |
| Calendar.EpochDayInjective | app/src/main/java/com/example/compteur/MainActivity.kt:231-233 | two valid dates with the same epoch day are the same date |
| Calendar.EpochOrigin | app/src/main/java/com/example/compteur/MainActivity.kt:231-233 | 1970-01-01 is epoch day 0 |
| Calendar.LeapYearsStep | app/src/main/java/com/example/compteur/MainActivity.kt:231-233 | the leap-year term of the epoch-day formula grows by one exactly across a leap year, for negative years too |
| Calendar.YearStartStep | app/src/main/java/com/example/compteur/MainActivity.kt:231-233 | January 1st of the next year comes a year's length (365 or 366 days) later |
| Calendar.DaysBeforeMonthStep | app/src/main/java/com/example/compteur/MainActivity.kt:231-233 | the month offset formula advances by the length of each month |
| Palette.RandomColor | app/src/main/java/com/example/compteur/MainActivity.kt:235-240 | every draw in [0, 6) yields one of the six palette colours, all fully opaque |
| Palette.RandomColorCoversPalette | app/src/main/java/com/example/compteur/MainActivity.kt:235-240 | every palette colour is the outcome of some draw |
| Palette.RandomColorInjective | app/src/main/java/com/example/compteur/MainActivity.kt:235-240 | distinct draws yield distinct colours |
| Titles.IsWhitespace | app/src/main/java/com/example/compteur/MainActivity.kt:217 | Kotlin's `Char.isWhitespace` behind `isNotBlank`: no ASCII letter or digit, and nothing above U+3000, is whitespace |
| Titles.IsBlank | app/src/main/java/com/example/compteur/MainActivity.kt:217 | a title is blank iff every character is Kotlin whitespace |
| Titles.IsNotBlank | app/src/main/java/com/example/compteur/MainActivity.kt:217 | a title passes the gate iff it holds a non-whitespace character |
| CounterList.IndexOf | app/src/main/java/com/example/compteur/MainActivity.kt:87 | -1 iff no equal counter is present, otherwise the position of the first equal counter |
| CounterList.RemoveFirst | app/src/main/java/com/example/compteur/MainActivity.kt:87 | the list `counters.remove` leaves: one element shorter when an equal counter is present, the same list when none is (the multiset and order facts are in the two lemmas below) |
| CounterList.RemoveFirstCounts | app/src/main/java/com/example/compteur/MainActivity.kt:87 | removing a present counter shortens the list by one and takes exactly one copy of it out; an absent one leaves the list unchanged |
| CounterList.RemoveFirstOrder | app/src/main/java/com/example/compteur/MainActivity.kt:87 | the remaining counters keep their relative order |
| CounterList.RemoveFirstOfDuplicate | app/src/main/java/com/example/compteur/MainActivity.kt:35 | with structural equality, deleting a counter that has an equal earlier one removes the earlier one |
| CounterList.RemoveUndoesAdd | app/src/main/java/com/example/compteur/MainActivity.kt:87-98 | deleting a just-added counter with no equal restores the list |
| CounterList.CardDays | app/src/main/java/com/example/compteur/MainActivity.kt:111 | the day count a card shows is defined for every listed counter (its start date is an existing date), zero exactly on the start date and positive exactly after it |
| CounterList.Counters.constructor | app/src/main/java/com/example/compteur/MainActivity.kt:51-57 | the list starts as the three seeded counters, all with non-blank titles |
| CounterList.Counters.Add | app/src/main/java/com/example/compteur/MainActivity.kt:98 | the list grows by one, the new counter is last with the given fields, earlier entries are unchanged |
| CounterList.Counters.Remove | app/src/main/java/com/example/compteur/MainActivity.kt:87 | an element is removed iff an equal one was present, and the new list drops exactly the first equal element |
| AddDialog.OpenPicker | app/src/main/java/com/example/compteur/MainActivity.kt:190-192 | the picker receives a zero-based month in [0, 12) |
| AddDialog.PickedDate | app/src/main/java/com/example/compteur/MainActivity.kt:187-189 | the callback yields a date iff year, month + 1, day form a valid date |
| AddDialog.PickerRoundTrip | app/src/main/java/com/example/compteur/MainActivity.kt:188-192 | confirming the picker on the fields it opened with rebuilds the same date |
| AddDialog.PickerFieldsRoundTrip | app/src/main/java/com/example/compteur/MainActivity.kt:188-192 | a picked date opens the picker on the same fields |
| AddDialog.Dialog.constructor | app/src/main/java/com/example/compteur/MainActivity.kt:161-163 | a new dialog has an empty title (so confirm is disabled), today's date and a palette colour |
| AddDialog.Dialog.EditTitle | app/src/main/java/com/example/compteur/MainActivity.kt:173 | editing sets the title and nothing else |
| AddDialog.Dialog.PickDate | app/src/main/java/com/example/compteur/MainActivity.kt:187-189 | the picked date becomes the selected date and nothing else changes |
| AddDialog.Dialog.Reroll | app/src/main/java/com/example/compteur/MainActivity.kt:207 | tapping the swatch replaces the colour with a palette colour and nothing else |
| AddDialog.Dialog.Confirm | app/src/main/java/com/example/compteur/MainActivity.kt:212-217 | a counter is added iff the title is not blank, with the dialog's title, date and colour; the all-titles-non-blank invariant is kept |
| Share.ShareGuard.constructor | app/src/main/java/com/example/compteur/MainActivity.kt:113 | lastClickTime starts at 0 |
| Share.ShareGuard.TryShare | app/src/main/java/com/example/compteur/MainActivity.kt:143-148 | a tap is honoured iff now - lastClickTime > 2000; honoured: lastClickTime becomes now and the message is sent; dropped: nothing changes |
| Share.Admits | app/src/main/java/com/example/compteur/MainActivity.kt:145 | the guard's test: a tap is admitted only if it is strictly later than the last honoured one (and more than 2000 ms later) |
| Share.CooldownEdge | app/src/main/java/com/example/compteur/MainActivity.kt:145 | a tap exactly 2000 ms after an honoured one is dropped, one 2001 ms after it is honoured |
| Share.Honoured | app/src/main/java/com/example/compteur/MainActivity.kt:144-146 | the taps of a series the guard honours are taps that were made, never more than were made |
| Share.TapSeries | app/src/main/java/com/example/compteur/MainActivity.kt:143-148 | a series of taps on one guard honours exactly `Honoured` of the taps and leaves `lastClickTime` at `LastClickAfter`, so the spacing and quiet-window lemmas hold of the guard object |
| Share.HonouredSpacing | app/src/main/java/com/example/compteur/MainActivity.kt:144-146 | over any sequence of taps, consecutive honoured taps are more than 2000 ms apart |
| Share.SpacedPairwise | app/src/main/java/com/example/compteur/MainActivity.kt:144-146 | the recursive spacing predicate is equivalent to its pairwise reading |
| Share.QuietWindow | app/src/main/java/com/example/compteur/MainActivity.kt:145 | after a share at t, every tap up to and including t + 2000 is dropped and lastClickTime stays t |
| Share.LastClickAfter | app/src/main/java/com/example/compteur/MainActivity.kt:146 | after a series of taps lastClickTime is the last honoured tap, or unchanged if none was honoured |
| Share.ShareText | app/src/main/java/com/example/compteur/MainActivity.kt:244 | the message `shareCounter` sends starts with the fixed head, ends with the fixed tail and is longer than both with the title |
| Share.Digits | app/src/main/java/com/example/compteur/MainActivity.kt:244 | the rendered day count is a non-empty run of decimal digits without a leading zero |
| Share.DecimalRoundTrip | app/src/main/java/com/example/compteur/MainActivity.kt:244 | reading back a rendered day count gives the same count, negatives included |
| Share.ShareTextRoundTrip | app/src/main/java/com/example/compteur/MainActivity.kt:244 | the day count and the title can be read back from the share message |
| Share.ShareTextInjective | app/src/main/java/com/example/compteur/MainActivity.kt:244 | two messages are equal only for the same day count and title |

## Left out

- Compose layout, theming, icons, dialog visibility (`showAddDialog`), dismissal and `MainActivity.onCreate`: presentation and framework lifecycle.
- The `Intent` built and started by `shareCounter`: a fire-and-forget call into the platform; `TryShare` returns the message it would carry instead.
- `SystemClock.elapsedRealtime()`, `LocalDate.now()` and `Random.nextInt`: nondeterministic sources, passed in as parameters.
- The `dd/MM/yyyy` display of the selected date, the card's "Commencé il y a … jours" label and the alpha-blended card background: library formatting and floating point, presentation only.
- Compose recomposition and `remember` scoping: each card's `ShareGuard` is an independent object; when Compose recreates it is not modelled.
- Share.ShareGuard.TryShare: `lastClickTime` and the clock are `Long` in the source; the model uses unbounded integers, because the monotonic clock never comes near 64-bit overflow.
- A series of taps: the source has no loop over taps; each tap is a separate click event, and the method only strings `TryShare` calls together to carry the series properties over to the guard object.
- AddDialog.Dialog.PickDate: requires the picked fields to form a valid date; the platform picker never offers others, and `LocalDate.of` would throw on them.
