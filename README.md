# Playdate scheduler: a verified model of the scheduling core

The playdate scheduler is a single-screen React app. Parents add their
children by name. For the selected child they mark the half-hour cells of a
Monday-to-Sunday week in which the child is free. The app colours each cell
by whether anyone is free then, and lists the five cells where the most
children are free.

This project models the scheduling logic of the `App` component in
`src/App.jsx` and proves what it promises:

- `options.dfy`: `Options`, the `Option` type used for "no selection" and
  failed parses.
- `text.dfy`: `Text`, the JavaScript string operations the app relies on:
  - `trim`, as a slice between the leading and trailing whitespace runs;
  - `toString` of a natural and `padStart`, with their two-digit
    combination and its parse back;
  - `join`.
- `time_grid.dfy`: `TimeGrid`, the seven day names and the 23 half-hour
  slots from 09:00 to 20:00:
  - `Grid()` is the specification: slot `i` is `9 + i/2` o'clock, minute
    `30 * (i % 2)`;
  - `GenerateTimeSlots` is the app's nested loop with its `break`, proved
    to build exactly `Grid()`.
- `children.dfy`: `Children`, the child record and its sparse availability
  object:
  - `ToggleKey` is the delete-or-set-true flip;
  - `ToggleChildren` is the `map` rebuild of the list;
  - `FindById` is `find` by id.
- `aggregation.dfy`: `Aggregation`, the read-only queries:
  - `AvailableChildren` is `filter`;
  - `SlotColor` gives the cell colour;
  - `BestTimes` is the top-five ranking: a day-by-slot enumeration of the
    non-empty cells, a stable sort by count (largest first), then the first
    five;
  - `GetBestTimes` is the app's `forEach` loops, proved to compute
    `BestTimes`.
- `scheduler.dfy`: `Scheduler`, the component state as a class `App`:
  - fields `children` and `current` (the selected child, a copy of a
    record);
  - the re-sync effect is `SyncCurrent`, which `AddChild` and `ToggleSlot`
    run after changing `children`, as React runs the effect after every
    change of the list.

What the app does that shapes the model:

- An empty or all-whitespace name is silently ignored; no error is
  reported.
- Availability keys are built from weekday names (`"Monday-09:00"`).
- The id is the clock reading and is not checked for uniqueness. The model
  takes it as a parameter, `now`, and does not require it to be unused.
  What holds when it is unused is stated as a separate, conditional
  postcondition.

## Model

| member | source | states |
|---|---|---|
| Text.LeadingWhitespace | src/App.jsx:31 | the length of the whitespace run `trim` removes at the front: every character before it is whitespace and the next one is not |
| Text.TrailingWhitespace | src/App.jsx:31 | the length of the whitespace run `trim` removes at the end: every character after the kept part is whitespace and the last kept character is not |
| Text.TrimIsCore | src/App.jsx:31-34 | the trimmed name is a contiguous piece of the input; everything cut off on either side is whitespace; the result neither starts nor ends with whitespace |
| Text.TrimEmptyIff | src/App.jsx:31 | a name is rejected (trims to empty) exactly when it consists of whitespace only |
| Text.TrimIdempotent | src/App.jsx:34 | trimming the stored name again changes nothing |
| Text.NatToString | src/App.jsx:15 | `toString` of a natural is a non-empty string of decimal digits |
| Text.PadStart | src/App.jsx:15 | `padStart` gives the larger of the width and the input length, ends with the input, and has only fill characters in front |
| Text.TwoDigits | src/App.jsx:15 | the padded hour or minute is exactly two decimal digits |
| Text.TwoDigitsIsPaddedDecimal | src/App.jsx:15 | for `n < 100`, the two digits are what `n.toString().padStart(2, '0')` yields |
| Text.ParseTwoDigits | src/App.jsx:15 | not app code: a reader of the two-digit form, the inverse for the round trip; a two-digit string reads back to a number below 100 |
| Text.TwoDigitsRoundTrip | src/App.jsx:15 | reading back the two digits of `n` gives `n` |
| Text.Join | src/App.jsx:92 | joining no names gives the empty string and joining one name gives that name |
| TimeGrid.ParseTimeKey | src/App.jsx:15 | not app code: a reader of the `"HH:MM"` key, the inverse for the round trip; a key that parses has five characters with `:` in the middle, and two-digit hour and minute |
| TimeGrid.TimeKeyRoundTrip | src/App.jsx:15 | the `"HH:MM"` key of an hour and minute parses back to that hour and minute |
| TimeGrid.GridKeysWellFormed | src/App.jsx:12-15 | every slot key is a zero-padded five-character `"HH:MM"` with hour 9 to 20 and minute 0 or 30, and 20:30 never appears |
| TimeGrid.SlotMinutes | src/App.jsx:12-14 | slot `i` starts `540 + 30 * i` minutes after midnight |
| TimeGrid.GridShape | src/App.jsx:10-25 | the grid has 23 slots, the first is `"09:00"`, the last `"20:00"`, and each starts 30 minutes after the one before |
| TimeGrid.GridLabels | src/App.jsx:16-20 | the en-US labels read "9:00 AM" for the first slot, "12:00 PM" at noon and "8:00 PM" for the last |
| TimeGrid.GridStrictlyIncreasing | src/App.jsx:10-25 | slot times strictly increase, so no key occurs twice |
| TimeGrid.SlotAtClock | src/App.jsx:12-14 | the slot for a grid hour and minute sits at index `2 * (hour - 9) + minute / 30` |
| TimeGrid.GenerateTimeSlots | src/App.jsx:10-25 | the nested loops with the `break` at 20:30 build exactly the grid specification |
| Children.ToggleKey | src/App.jsx:49-55 | the flip marks the key exactly when it was unmarked; a marked key is present and an unmarked one absent; every other key is unchanged; no `false` is ever stored |
| Children.ToggleKeyTwice | src/App.jsx:49-55 | on a true-only object, flipping the same key twice gives the object back |
| Children.ToggleChildren | src/App.jsx:47-59 | the rebuild keeps the length, order, ids and names; records with another id are unchanged; records with the id have exactly the key flipped, present exactly when marked; true-only objects stay true-only |
| Children.ToggleChildrenTwice | src/App.jsx:47-59 | toggling the same key for the same id twice restores the whole list |
| Children.FindById | src/App.jsx:102 | `find` by id succeeds exactly when some record has the id, and then returns the first such record |
| Children.FindByIdAppend | src/App.jsx:102 | appending a record does not change which record an existing id finds |
| Children.AppendAvailable | src/App.jsx:32-37 | appending the new record keeps every availability object true-only, and its id then finds a record |
| Children.FindByIdFresh | src/App.jsx:102 | a record appended under an id no earlier record has is the one that id finds |
| Aggregation.AvailableChildren | src/App.jsx:62-65 | a child is in the result exactly when it is in the list and has the cell marked; each record with the cell marked is kept as often as it occurs in the list and no other is kept, so the length is the number of available records |
| Aggregation.AvailableIsSubsequence | src/App.jsx:64 | the available children come in list order |
| Aggregation.AvailableAppend | src/App.jsx:64 | filtering distributes over concatenation of lists |
| Aggregation.NewChildInNoCell | src/App.jsx:35-37 | a newly added child is available in no cell: every cell keeps exactly the children it had |
| Aggregation.Names | src/App.jsx:92 | the names are those of the children, one per child, in order |
| Aggregation.ToggleKeepsOtherCells | src/App.jsx:44-65 | toggling one cell leaves the names of the children available in every other cell unchanged |
| Aggregation.SlotColor | src/App.jsx:67-70 | the colour is green or grey, and green exactly when some child has the cell marked |
| Aggregation.DayTalliesSound | src/App.jsx:85-94 | each entry collected for a day is the non-empty entry of one of its slots |
| Aggregation.DayTalliesComplete | src/App.jsx:85-94 | every non-empty slot of a day has its entry collected |
| Aggregation.WeekTalliesSound | src/App.jsx:84-96 | each collected entry is the non-empty entry of some (day, slot) cell |
| Aggregation.WeekTalliesComplete | src/App.jsx:84-96 | every non-empty cell of the week has its entry collected |
| Aggregation.InsertByCountSorted | src/App.jsx:97 | inserting into a list sorted by count (largest first) keeps it sorted |
| Aggregation.InsertByCountPermutes | src/App.jsx:97 | insertion adds exactly the one entry |
| Aggregation.InsertByCountStable | src/App.jsx:97 | insertion places the entry ahead of the entries with its count, keeping their order |
| Aggregation.SortByCountSorted | src/App.jsx:97 | the sort orders by count, largest first, and is a permutation of its input |
| Aggregation.SortByCountStable | src/App.jsx:97 | the sort is stable: entries sharing a count keep their order |
| Aggregation.Take | src/App.jsx:97 | `slice(0, n)` is a prefix of the list: the whole list when it has at most `n` entries, and exactly its first `n` entries otherwise |
| Aggregation.WithCountPrefix | src/App.jsx:97 | the entries with a given count in a prefix come first among those in the whole list |
| Aggregation.TopOfSorted | src/App.jsx:97 | the five kept entries are candidates, sorted, stable among equal counts, and no dropped candidate has a larger count than the last kept |
| Aggregation.TopIsFromSorted | src/App.jsx:97 | every kept entry is a candidate and every candidate is in the sorted list |
| Aggregation.TopIsStable | src/App.jsx:97 | kept entries with equal counts keep the candidates' order |
| Aggregation.TopKeepsLargest | src/App.jsx:97 | from a list sorted by count, every entry dropped has at most the count of the fifth entry kept |
| Aggregation.BestTimesSpec | src/App.jsx:82-98 | at most five entries; each has count at least 1 and is the true entry of a cell of the week; counts never increase; equal counts keep day-then-slot order; no non-empty cell left out has a larger count than the last entry |
| Aggregation.PushDayCounts | src/App.jsx:85-95 | the inner loop appends exactly the day's non-empty entries, in slot order |
| Aggregation.GetBestTimes | src/App.jsx:82-98 | the method returns exactly `BestTimes` |
| Scheduler.App.constructor | src/App.jsx:6-7 | the screen starts with no children and no selection |
| Scheduler.App.SyncCurrent | src/App.jsx:100-105 | while something is selected and the list is non-empty, the selection becomes the first record with the same id, when there is one; otherwise it is unchanged |
| Scheduler.App.AddChild | src/App.jsx:30-42 | a name that trims to nothing changes nothing; otherwise exactly one record is appended, with the trimmed name, the id `now` and no availability, and the selection is what the re-sync finds for `now`, which is the new record when `now` was unused |
| Scheduler.App.ToggleSlot | src/App.jsx:44-60 | with no selection nothing changes; otherwise the list becomes the rebuild that flips the cell's key for the selected id, and the selection is re-read from it |
| Scheduler.App.SwitchChild | src/App.jsx:78-80 | the given record becomes the selection, which stays valid exactly when the record is in the list |
| Scheduler.App.IsCurrentChildAvailable | src/App.jsx:72-76 | false with no selection; otherwise true exactly when the selected child is among the children available in the cell |
| Scheduler.ToggleSlotTwiceRestores | src/App.jsx:44-60 | toggling the same cell twice gives back the children list, with the selection re-read by id |

## Left out

- The JSX rendering, Tailwind class strings other than the two cell colours, and the `lucide-react` icons: presentation with no logic.
- React's state setters and effect scheduling: the state is two plain fields updated in order, and the effect runs synchronously after each change of `children`.
- The text-input state `childName` and `showNameInput`, and their reset in `addChild`: UI state only. The name is a parameter of `AddChild`.
- `Date.now()`: the id is the parameter `now`, so reading the clock is not modelled. When `now` is already used by an earlier record, the model selects the first record with that id, not the new one. This is what the app does, since the re-sync looks the id up.
- `toLocaleTimeString`: the label is modelled as the en-US 12-hour form with a plain space before AM/PM. Some locale data puts a narrow no-break space (U+202F) there; that variation is not modelled.
- The JavaScript sort's algorithm: the model uses a stable insertion sort. Since ES2019 the language requires `sort` to be stable, and a stable sort by one key has only one result, so any conforming sort gives the same list.
- `isCurrentChildAvailable` returns `undefined` for an unmarked key. The model returns its truthiness, `false`.
- Text.Join: only the empty and one-name cases are stated. The names string is otherwise only displayed.
