# To-do list core, modelled in Dafny

This project models the two pieces of logic in a small React Native to-do app.

1. **The to-do slice reducer** (`src/redux/slices/todoSlice.ts`). The state is one ordered list `items` of `TodoItem` records. Four reducers change it:
   - `addTodo` pushes a new record and re-sorts.
   - `updateTodo` overwrites the first record with the payload's id and re-sorts.
   - `deleteTodo` filters out every record with the id.
   - `toggleComplete` flips `completed` on the first record with the id.

   The re-sort ranks HIGH = 0, MEDIUM = 1, LOW = 2. `Array.prototype.sort` is stable, so the re-sort is a stable sort on that rank.
2. **The presentation rules** (`src/utils/index.ts`):
   - colour, short label and long label for each priority;
   - the relative due-date label "Quá hạn" / "Hôm nay" / "Ngày mai" / "Còn N ngày" (overdue / today / tomorrow / N days left).

Modules, one per concern:

- `Types` (`types.dfy`): the `Priority` enum and the `TodoItem` record.
- `Wrappers`: `Option`.
- `Decimal`: integer-to-string conversion, used by `Date.now().toString()` and by the template literal.
- `PriorityOrder`: the comparator, the stable sort specified as a function, its properties, and the insertion-sort method proved equal to it.
- `TodoSlice`:
  - specification functions for each reducer, with their lemmas;
  - the whole reducer over sequences of dispatched actions;
  - the class `TodoStore`, whose field `items` the reducer methods update in place.
- `Utils`: the presentation rules.

Environment inputs are parameters:

- `Date.now()` becomes `now: nat`.
- `new Date(x).toISOString()` becomes `toIso: string -> Option<string>`. `None` stands for the RangeError it throws on an invalid date. A throwing reducer leaves the state unchanged: `addTodo` throws before it pushes, and `updateTodo` throws before it assigns.
- In `getDueDateText`, the current time is `now` and the due date is a millisecond timestamp `due`. Both are read in UTC:
  - The calendar day is `t / 86400000`. Dafny's division rounds down here.
  - `dayjs(...).isAfter(..., 'day')` tests whether `due` lies before the start of the current calendar day.
  - `diff(..., 'day')` is the elapsed time in milliseconds divided by 86400000 and truncated toward zero.

Where the intended design and the code differ, the model follows the code:

- Ids are not guaranteed unique. Two adds in the same millisecond get the same id (`SameInstantAddsShareId`). The reducers still treat duplicates consistently: delete removes every match; update and toggle touch only the first.
- `updateTodo` with an unknown id does not leave the list untouched: it still re-sorts it. For an already sorted list the result is identical (`UpdatedMissing`).
- `updateTodo` normalises the due date only after it has found a match. An invalid due date with an unknown id therefore does not throw.
- The due-date label is built from truncated elapsed days, not from calendar days. For that reason, at 23:00 a task due at 01:00 the next day shows "Hôm nay" (see Findings).

## Model

| member | source | states |
|---|---|---|
| `PriorityOrder.RankOrder` | src/redux/slices/todoSlice.ts:32-36 | The comparator's table ranks HIGH 0 < MEDIUM 1 < LOW 2, and no two priorities share a rank |
| `PriorityOrder.Compare` | src/redux/slices/todoSlice.ts:37 | The sort callback is negative exactly when the first item ranks before the second, and zero exactly for equal priorities |
| `PriorityOrder.InsertSorted` | src/redux/slices/todoSlice.ts:31-38 | One insertion step keeps a rank-sorted list sorted |
| `PriorityOrder.InsertStable` | src/redux/slices/todoSlice.ts:31-38 | One insertion step appends the item to the end of its own priority class and changes no other class |
| `PriorityOrder.Sort` | src/redux/slices/todoSlice.ts:31-38 | The re-sort keeps the length, is a permutation (same multiset) and is ordered by non-decreasing rank |
| `PriorityOrder.SortStable` | src/redux/slices/todoSlice.ts:31-38 | The re-sort is stable: for every priority, the items of that priority keep their relative order |
| `PriorityOrder.SortIsBuckets` | src/redux/slices/todoSlice.ts:31-38 | Reference definition: the result is all HIGH items, then all MEDIUM, then all LOW, each group in input order |
| `PriorityOrder.SortUnique` | src/redux/slices/todoSlice.ts:31-38 | Any sorted list that keeps each priority class in input order is exactly the re-sort's result, so every stable sort gives the same answer |
| `PriorityOrder.SortIdempotent` | src/redux/slices/todoSlice.ts:50-57 | Re-sorting an already rank-sorted list returns it unchanged |
| `PriorityOrder.InsertAt` | src/redux/slices/todoSlice.ts:31-38 | An insertion step places the item just after the last item whose rank is not higher than its own |
| `PriorityOrder.InsertionSort` | src/redux/slices/todoSlice.ts:31-38 | The swapping insertion sort, driven by the comparator, computes exactly the stable sort |
| `PriorityOrder.SwapBack` | src/redux/slices/todoSlice.ts:31-38 | Swapping an item backwards past the items that compare greater inserts it into the sorted prefix and leaves the suffix alone |
| `TodoSlice.TodoStore.SortByPriority` | src/redux/slices/todoSlice.ts:31-38 | The in-place sort of `state.items` replaces the items with their stable rank sort |
| `TodoSlice.TodoStore.constructor` | src/redux/slices/todoSlice.ts:8-10 | The initial state has no items |
| `TodoSlice.FirstMatch` | src/redux/slices/todoSlice.ts:41-43 | findIndex/find semantics: -1 exactly when no item has the id, otherwise the lowest index whose item has the id |
| `TodoSlice.TodoStore.FindIndex` | src/redux/slices/todoSlice.ts:41-43 | The linear search returns the first index with the id, or -1 |
| `TodoSlice.NewItem` | src/redux/slices/todoSlice.ts:23-30 | The pushed record's id is a string of decimal digits that parses back to its createdAt, the clock value; title, priority and the normalised due date come from the payload, and it is not completed |
| `TodoSlice.TodoStore.AddTodo` | src/redux/slices/todoSlice.ts:15-39 | When the due date normalises, the items become the sorted old items plus the record with id `toString(now)`, the payload title and priority, createdAt `now`, the normalised due date and completed false; when normalising throws, nothing changes. The new state is what `Reduce` computes for the Add action |
| `TodoSlice.AddedProperties` | src/redux/slices/todoSlice.ts:23-38 | addTodo adds exactly one item: length +1, multiset plus the record, rank-sorted, and the record goes after every existing item of its priority while the other classes are unchanged |
| `TodoSlice.AddedToSorted` | src/redux/slices/todoSlice.ts:23-38 | On a sorted list, addTodo inserts the record just after the last item whose rank is not higher than its own and moves nothing else |
| `TodoSlice.TodoStore.UpdateTodo` | src/redux/slices/todoSlice.ts:40-58 | With no match, the items are only re-sorted and no error can occur. With a match, the first match is replaced by the payload with its normalised due date and the list is re-sorted; if normalising throws, nothing changes. The new state is what `Reduce` computes for the Update action |
| `TodoSlice.UpdatedFound` | src/redux/slices/todoSlice.ts:41-57 | With a match, the length is unchanged, the multiset loses the first matching item and gains the payload with its normalised due date, the result is sorted, and each priority class keeps its order from after the replacement |
| `TodoSlice.UpdatedMissing` | src/redux/slices/todoSlice.ts:44-57 | With no match, the result is a permutation of the old items, identical to them when they were already sorted |
| `TodoSlice.Without` | src/redux/slices/todoSlice.ts:60 | The filter keeps exactly the items whose id differs and never lengthens the list |
| `TodoSlice.TodoStore.DeleteTodo` | src/redux/slices/todoSlice.ts:59-61 | deleteTodo replaces the items with the filtered list |
| `TodoSlice.WithoutCounts` | src/redux/slices/todoSlice.ts:60 | Every item with the id is removed; every other item keeps its multiplicity |
| `TodoSlice.WithoutInOrder` | src/redux/slices/todoSlice.ts:60 | The kept items stay in their relative order: the result is a subsequence of the old list |
| `TodoSlice.WithoutIdempotent` | src/redux/slices/todoSlice.ts:60 | Deleting the same id twice equals deleting it once |
| `TodoSlice.WithoutMissing` | src/redux/slices/todoSlice.ts:60 | Deleting an id no item has changes nothing |
| `TodoSlice.WithoutSorted` | src/redux/slices/todoSlice.ts:60 | Deleting does not sort, yet it keeps a rank-sorted list sorted |
| `TodoSlice.TodoStore.ToggleComplete` | src/redux/slices/todoSlice.ts:62-67 | toggleComplete replaces the items with the list in which the first match has its flag flipped |
| `TodoSlice.ToggledEffect` | src/redux/slices/todoSlice.ts:62-67 | Toggling keeps the length, leaves every field except `completed` unchanged on every item, and changes `completed` exactly at the first match (nowhere when the id is missing) |
| `TodoSlice.ToggledTwice` | src/redux/slices/todoSlice.ts:62-67 | Toggling the same id twice restores the list |
| `TodoSlice.ToggledSorted` | src/redux/slices/todoSlice.ts:62-67 | Toggling keeps a sorted list sorted |
| `TodoSlice.Reduce` | src/redux/slices/todoSlice.ts:14-68 | One dispatch fails exactly when addTodo's due date does not normalise, or when updateTodo found a match and its due date does not normalise (an unknown id never throws); otherwise addTodo adds one item, updateTodo and toggleComplete keep the length and deleteTodo never lengthens the list |
| `TodoSlice.Run` | src/redux/slices/todoSlice.ts:14-68 | Dispatching a sequence of actions in order, where a throwing dispatch leaves the items as they were, grows the list by at most one item per action |
| `TodoSlice.TodoStore.Dispatch` | src/redux/slices/todoSlice.ts:14-68 | A dispatch to the store leaves exactly the items `Reduce` computes, or leaves them unchanged when it throws; a sorted store stays sorted |
| `TodoSlice.ReduceSorted` | src/redux/slices/todoSlice.ts:14-68 | Every one of the four actions maps a sorted list to a sorted list |
| `TodoSlice.RunSorted` | src/redux/slices/todoSlice.ts:8-68 | Starting from a sorted list (the empty initial state among them), any sequence of dispatches leaves the items sorted by rank, including dispatches that throw |
| `TodoSlice.SameInstantAddsShareId` | src/redux/slices/todoSlice.ts:24 | Two adds that read the same clock value produce two distinct positions holding the same id |
| `Decimal.NatToString` | src/redux/slices/todoSlice.ts:24 | `toString` of the clock gives a non-empty string of decimal digits with no leading zero |
| `Decimal.ParseNatToString` | src/redux/slices/todoSlice.ts:24 | Parsing the decimal rendering of a number gives back that number |
| `Decimal.NatToStringInjective` | src/redux/slices/todoSlice.ts:24 | Distinct clock values give distinct ids |
| `Decimal.IntToString` | src/utils/index.ts:51 | The template literal renders an integer with a leading minus sign exactly when it is negative |
| `Utils.PriorityColor` | src/utils/index.ts:4-13 | Every priority gets a colour token of the form #RRGGBB (#4CAF50, #FFA000, #757575) |
| `Utils.PriorityColorInjective` | src/utils/index.ts:4-13 | The three colours are pairwise distinct |
| `Utils.PriorityShortLabelInjective` | src/utils/index.ts:15-24 | `getPriorityTextButton` (`PriorityShortLabel`) gives HIGH, MEDIUM and LOW the button labels 'Cao', 'Trung bình' and 'Thấp', and no two priorities share a label |
| `Utils.PriorityLabel` | src/utils/index.ts:26-35 | Every long label is "Ưu tiên " followed by a level name |
| `Utils.PriorityLabelInjective` | src/utils/index.ts:26-35 | The three long labels are pairwise distinct |
| `Utils.StartOfDay` | src/utils/index.ts:42 | The start of the day of t is at most t and less than one day before it |
| `Utils.IsAfterDay` | src/utils/index.ts:42 | `isAfter(dueDate, 'day')`, the test whether the due time lies before the start of the current day, holds exactly when the current calendar day is after the due calendar day |
| `Utils.DiffDays` | src/utils/index.ts:40 | The day difference is the elapsed time in whole days, truncated toward zero for both signs; it is non-negative exactly when due is less than one day before now |
| `Utils.DueDateText` | src/utils/index.ts:37-52 | When the current day is after the due day the label is 'Quá hạn', whatever the difference |
| `Utils.NotOverdueDiff` | src/utils/index.ts:40-44 | When not overdue, the difference is non-negative and equals the calendar-day difference or one less |
| `Utils.DueDateTextCases` | src/utils/index.ts:37-52 | The label takes exactly one of four forms: 'Quá hạn' iff overdue; 'Hôm nay' iff not overdue and the difference is 0; 'Ngày mai' iff not overdue and it is 1; 'Còn N ngày' iff not overdue and the difference is N, with N at least 2 |
| `Utils.DueDateTextExamples` | src/utils/index.ts:37-52 | Two days ahead reads 'Còn 2 ngày', one day ago reads 'Quá hạn', and the same calendar day reads 'Hôm nay' |
| `Utils.NextDayShownAsToday` | src/utils/index.ts:40-47 | As written, at 23:00 a task due at 01:00 the next calendar day is labelled 'Hôm nay' |
| `Utils.CalendarDueDateTextCases` | src/utils/index.ts:37-52 | Corrected label: 'Hôm nay', 'Ngày mai' and 'Còn N ngày' exactly for a due calendar day 0, 1 and N ≥ 2 days ahead, 'Quá hạn' exactly when overdue |
| `Utils.CalendarAgreesLaterInDay` | src/utils/index.ts:37-52 | The corrected label and the label as written agree whenever the due time of day is not earlier than the current time of day |

## Findings

| source | as written | input that shows it | evidently intended | confidence | as-written member | corrected member |
|---|---|---|---|---|---|---|
| src/utils/index.ts:40-50 | The today/tomorrow/N-days branches test `diff`, the elapsed time truncated to whole days. The overdue test uses calendar days. | At 23:00 (UTC) with the task due at 01:00 the next day, `diff` is 0 and the label is 'Hôm nay' (today) | Compare calendar days, so the label would be 'Ngày mai' (tomorrow) | medium, not executed | `Utils.NextDayShownAsToday` | `Utils.CalendarDueDateTextCases` |

## Left out

- Screens, components, modals, animations and the date picker (`src/screens/Home.tsx`, `src/components/*`): view and animation code with no state logic of the reducer's kind.
- Store wiring (`src/redux/store.ts`, `src/Application.tsx`): Redux Toolkit and react-redux are libraries outside this model. The store is the class `TodoStore`, and each dispatch is one method call.
- `toggleSelected`, `resetSelected`, `markComplete`, `markIncomplete`: the view imports them, but the slice does not define them. They are not modelled, and neither is the `selected` flag, which `TodoItem` does not declare.
- The submit guard `title.trim() && dueDate` in `TodoForm.tsx`: it runs in the caller. The reducer never validates, so `AddTodo` has no precondition.
- `Date.now()` is read twice in `addTodo` (id and createdAt). The model uses one reading `now`; two readings in one synchronous expression could in principle differ by a millisecond.
- `Date.now()` is taken as a non-negative integer below 10^21, where `toString` prints plain decimal digits.
- The parsing and formatting inside `toISOString` and `dayjs`: left abstract as parameters. `getDueDateText` receives the due timestamp rather than the ISO string.
- Time zones: dayjs uses the device's local time, and the model uses UTC. That equals local time with a fixed zero offset, and daylight-saving changes are not modelled.
- Immer draft aliasing: the reducers are modelled on the value of `items`. `SortByPriority` sorts a copy of the sequence and assigns it back. This is observably the same as the in-place sort, because nothing else holds the draft.
- `Array.prototype.sort` uses an engine-specific algorithm. ECMAScript requires it to be stable. The model uses insertion sort, and `SortUnique` shows that every stable sort gives the same result.
