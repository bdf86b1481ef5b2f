# Todo list state, verified

A Dafny model of the `App` component in `src/App.jsx` of a small React todo
list. The component holds three pieces of state: the list of todos, the text
in the input box, and whether the sticky header is collapsed. Its handlers
replace that state: add a todo, toggle one, delete one, collapse or expand
the header on scroll. It also computes, on every render, the progress
statistics and each completed todo's duration text.

Layout:

- `wrappers.dfy` (`Wrappers`): `Option`, for the completion time and the
  formatter's arguments, which may be absent.
- `jstext.dfy` (`JsText`): the JavaScript string behaviour the app relies on.
  That is `String.prototype.trim` with ECMAScript's whitespace set, how a
  template literal renders an integer, and the colon masking of end times.
- `todos.dfy` (`Todos`): the todo record and the new lists that the three list
  handlers compute, plus the statistics.
- `duration.dfy` (`Duration`): `formatDuration`, with `Math.floor` and
  JavaScript's sign-of-dividend `%` written out.
- `header.dfy` (`Header`): the scroll hysteresis updater.
- `app.dfy` (`TodoApp`): class `App`, one field per `useState` slot, one
  method per handler. `Valid()` is the record invariant "a completion time is
  present exactly when the todo is completed". The constructor establishes it
  and every handler keeps it.

Inputs the browser supplies become parameters. `Date.now()` becomes the `id`
argument, `new Date()` becomes `now` (integer milliseconds), and
`window.scrollY` becomes `scrollY` (a `real`, since browsers report
fractional offsets). `AddTodo` returns `accepted = false` where the source
shows its alert.

Facts about the code worth stating, because a reader might expect otherwise:

- A new todo is appended at the end of the list. There is no `order` field
  and nothing places new todos first.
- Toggling twice does not always give back the same record. An open todo
  comes back exactly. A completed todo comes back with the second toggle's
  time as its `completedAt` (`ToggleTwice`).
- `src/App.jsx` has no remote store, no live subscription and no drag
  reordering.

## Model

| member | source | states |
|---|---|---|
| `JsText.TrimStart` | src/App.jsx:24 | removes exactly the longest all-whitespace prefix: what is dropped is all space and what is kept does not start with space |
| `JsText.TrimEnd` | src/App.jsx:24 | removes exactly the longest all-whitespace suffix |
| `JsText.LeadingSpaces` | src/App.jsx:24 | the number of characters trim drops at the front: all of them space, and the next one is not |
| `JsText.Trim` | src/App.jsx:24 | the result is the slice of the input after its leading space and before its trailing space, and neither starts nor ends with space |
| `JsText.IsJsSpace` | src/App.jsx:24 | the ECMAScript WhiteSpace and LineTerminator characters `trim` removes; none of them is a digit or a minus sign, and space, tab, newline and carriage return are among them |
| `JsText.IsBlank` | src/App.jsx:24 | the `addTodo` guard `inputValue.trim() === ''` holds exactly when every character is whitespace |
| `JsText.BlankIffAllSpace` | src/App.jsx:24 | `inputValue.trim() === ''` holds exactly when every character is ECMAScript whitespace |
| `JsText.DigitChar` | src/App.jsx:62 | a digit below ten maps to the character with that digit value |
| `JsText.DigitValue` | src/App.jsx:62 | a digit character maps back to its value, inverse of `DigitChar` |
| `JsText.NatToString` | src/App.jsx:62 | decimal rendering of a natural number: at least one digit, all digits, no leading zero |
| `JsText.IntToString` | src/App.jsx:65 | `${n}` of an integer: non-empty, a leading minus sign exactly for negative numbers, and otherwise only digits |
| `JsText.NatRoundTrip` | src/App.jsx:62 | reading back the decimal digits of a natural number gives the number |
| `JsText.IntRoundTrip` | src/App.jsx:65 | reading back the rendering of any integer gives the integer |
| `JsText.MaskColons` | src/App.jsx:84 | `replace(/:/g, '.')`: same length, no colon left, every colon turned into a dot, every other character kept |
| `JsText.FormatDateTime` | src/App.jsx:69-87 | absent date gives the empty string; a start time is shown as localized; an end time is the localized text with every colon turned into a dot and every other character kept |
| `Todos.NewTodo` | src/App.jsx:28-33 | the new record carries the given id, text and creation time, is not completed and has its stamp in step |
| `Todos.Appended` | src/App.jsx:34 | the old list unchanged and in order, plus exactly one record at the end with the untrimmed text, not completed, no completion time; keeps the stamp invariant |
| `Todos.Flip` | src/App.jsx:41-46 | the toggled record keeps id, text and creation time, has `completed` negated, and has the toggle time as `completedAt` exactly when now completed, absent otherwise |
| `Todos.Toggled` | src/App.jsx:38-50 | same length and order; every todo with another id unchanged; every matching todo keeps id, text and creation time, has `completed` negated and a completion time exactly when now completed, set to the toggle time; keeps the stamp invariant |
| `Todos.ToggleTwice` | src/App.jsx:41-45 | toggling an id twice restores every `completed` flag; open todos come back exactly, completed ones with the second toggle's time |
| `Todos.ToggleCounts` | src/App.jsx:39-49 | after a toggle the completed count is the old one minus the matching completed todos plus the matching open ones |
| `Todos.ToggleUniqueCount` | src/App.jsx:39-49 | with a unique id the completed count moves by exactly one, down if the todo was completed and up otherwise |
| `Todos.CompletedWithIdOfUnique` | src/App.jsx:39-49 | with a unique id the number of matching completed todos is that todo's flag |
| `Todos.CountId` | src/App.jsx:90 | the number of todos carrying an id is at most the length, and zero exactly when none carries it |
| `Todos.Removed` | src/App.jsx:89-91 | no todo with the id remains; the result is shorter by exactly the number of todos that carry the id; keeps the stamp invariant |
| `Todos.RemovedMembers` | src/App.jsx:90 | a todo is in the result exactly when it is in the list and has another id |
| `Todos.RemovedConcat` | src/App.jsx:90 | deleting distributes over concatenation, so survivors keep their relative order |
| `Todos.RemovedAbsent` | src/App.jsx:90 | deleting an id no todo carries leaves the list unchanged |
| `Todos.RemovedIdempotent` | src/App.jsx:90 | deleting the same id twice is deleting it once |
| `Todos.RemoveAfterAppend` | src/App.jsx:34 | adding a todo with a different id and then deleting an id equals deleting first and adding after |
| `Todos.CountCompleted` | src/App.jsx:100 | the completed count lies between 0 and the total, is 0 exactly when nothing is completed and equals the total exactly when everything is |
| `Todos.CountCompletedWithId` | src/App.jsx:100 | the matching completed todos are at most the matching ones and at most the completed ones |
| `Todos.CountCompletedConcat` | src/App.jsx:100 | the completed count of a concatenation is the sum of the two counts |
| `Todos.AppendStats` | src/App.jsx:99-100 | adding a todo raises the total by one and leaves the completed count unchanged |
| `Todos.RemovedStats` | src/App.jsx:100 | deleting lowers the completed count by exactly the matching completed todos |
| `Todos.RoundedPercent` | src/App.jsx:101 | 0 for an empty list; otherwise the round-half-up of 100·completed/total, bracketed as 2·t·r ≤ 200·c + t < 2·t·(r+1); at most 100 when completed ≤ total |
| `Todos.RoundedBounds` | src/App.jsx:101 | the rounded quotient lies in the round-half-up bracket and is at most 100 when completed ≤ total |
| `Todos.RoundedPercentUnique` | src/App.jsx:101 | any integer inside that bracket is the computed percentage, so the bracket pins the rounding |
| `Todos.Percentage` | src/App.jsx:101 | the shown percentage lies in [0,100] and is 0 for an empty list |
| `Todos.TwoOfThree` | src/App.jsx:101 | two of three completed shows 67 |
| `Duration.FloorDiv` | src/App.jsx:55-58 | `Math.floor(a / b)` is the integer q with b·q ≤ a < b·q + b |
| `Duration.TruncDiv` | src/App.jsx:61 | the quotient rounded toward zero: the floor for a non-negative dividend and the ceiling for a negative one |
| `Duration.ElapsedSeconds` | src/App.jsx:54-55 | `diffSec` is the whole number of seconds in the elapsed milliseconds, rounded down |
| `Duration.JsRem` | src/App.jsx:61 | JavaScript `%`: a = b·trunc(a/b) + r, with r in [0,b) for a non-negative dividend and in (-b,0] for a negative one, which fixes r |
| `Duration.FormatDuration` | src/App.jsx:52-67 | blank exactly when either argument is absent; the day form exactly when the elapsed whole seconds reach 86400 |
| `Duration.Render` | src/App.jsx:62-65 | empty exactly for the blank result; the day form ends in 분 and the sub-day form in 초, so the two never coincide |
| `Duration.RenderInjective` | src/App.jsx:62-65 | two results that render to the same text are equal, so the text shows both fields and loses no value |
| `Duration.FieldsFromText` | src/App.jsx:62-65 | the two integers of `${x}<marker> ${y}<unit>` are determined by the text |
| `Duration.IntToStringInjective` | src/App.jsx:62-65 | different integers render differently |
| `Duration.TextFields` | src/App.jsx:62-65 | the two parts of `a<marker> b<unit>` are determined by the text when `a` holds no marker |
| `Duration.SplitAtMarker` | src/App.jsx:62-65 | splitting a text at the first marker is unambiguous |
| `Duration.FloorDivFloorDiv` | src/App.jsx:55-58 | flooring twice by b and c is flooring once by b·c |
| `Duration.UniqueFloor` | src/App.jsx:55 | the floor quotient is the only integer q with d·q ≤ a < d·q + d |
| `Duration.Chain` | src/App.jsx:55-58 | the minute, hour and day counts are the whole minutes, hours and days in the elapsed milliseconds |
| `Duration.DayForm` | src/App.jsx:60-62 | from one day up: the day field is the whole elapsed days, the minute field the minutes past the last whole hour in [0,59], and an hour count in [0,23] is dropped between them |
| `Duration.SubDayForm` | src/App.jsx:63-65 | under one day and not negative: minutes in [0,1439], seconds in [0,59], and 60·minutes + seconds is the elapsed whole seconds |
| `Duration.NegativeForm` | src/App.jsx:63-65 | a completion before creation gives negative minutes and seconds in (-60,0] that differ from the elapsed whole seconds by a multiple of 60, as JavaScript's `%` does |
| `Duration.FortyFiveSeconds` | src/App.jsx:63-65 | 45 seconds gives "0분 45초" |
| `Duration.TwentyFiveHours` | src/App.jsx:60-62 | 25 hours gives "1일 0분" |
| `Header.NextScrolled` | src/App.jsx:11-17 | from expanded it collapses exactly when scrollY > 120; from collapsed it expands exactly when scrollY < 20; in [20,120] it never changes |
| `Header.BandKeepsState` | src/App.jsx:11-17 | any run of scroll positions inside [20,120] leaves the state as it was |
| `Header.StaysCollapsed` | src/App.jsx:15 | once collapsed, it stays collapsed through any run of positions at or above 20 |
| `Header.StaysExpanded` | src/App.jsx:14 | once expanded, it stays expanded through any run of positions at or below 120 |
| `Header.Idempotent` | src/App.jsx:11-17 | the same position reported twice acts as once |
| `TodoApp.App.constructor` | src/App.jsx:5-7 | starts with no todos, empty input, header expanded, invariant holding |
| `TodoApp.App.SetInputValue` | src/App.jsx:135 | the input becomes the typed value; todos and header state unchanged |
| `TodoApp.App.AddTodo` | src/App.jsx:23-36 | rejected exactly when the input is all whitespace, and then todos and input are unchanged; otherwise one todo with the untrimmed input is appended and the input is cleared; invariant kept |
| `TodoApp.App.HandleKeyPress` | src/App.jsx:93-97 | Enter behaves as `AddTodo`; any other key changes nothing |
| `TodoApp.App.ToggleTodo` | src/App.jsx:38-50 | the list becomes `Toggled` of the old one: same length, other ids unchanged, matching flags negated; input and header unchanged; invariant kept |
| `TodoApp.App.DeleteTodo` | src/App.jsx:89-91 | the list becomes `Removed` of the old one: exactly the todos with another id remain; input and header unchanged; invariant kept |
| `TodoApp.App.HandleScroll` | src/App.jsx:10-18 | the header state becomes `NextScrolled` of the old one; todos and input unchanged |
| `TodoApp.App.Stats` | src/App.jsx:99-101 | total is the list length, completed the completed count with 0 ≤ completed ≤ total, and the percentage is 0 for an empty list and otherwise the round-half-up of 100·completed/total |
| `TodoApp.App.DurationLine` | src/App.jsx:162-166 | an open todo shows no duration; a completed one shows a non-empty duration |

## Left out

- `Todos.RoundedPercent`: JavaScript computes `Math.round((c / t) * 100)` in doubles, which can land on the other side of a .5 tie. For example 29 of 200 shows 14 in a browser and 15 here. The model uses exact round-half-up.
- `Duration.FloorDiv`: `Math.floor(diffMs / 1000)` is computed in doubles. It equals the exact floor for the magnitudes `Date` values can take, and the model uses the exact floor.
- `JsText.FormatDateTime`: `toLocaleString('ko-KR', …)` and the regular-expression rewrite of its date part are locale-dependent foreign behaviour. Their output is taken as the `localized` parameter, and only the absent-date case and the colon masking of end times are modelled.
- `alert`, `addEventListener`/`removeEventListener` and reading `window.scrollY` are browser side effects. The alert is the `accepted = false` result and the scroll position is a parameter.
- `Todos.Toggled`: the source calls `new Date()` once per matching todo inside the `map` callback, so todos that share an id can get stamps a millisecond apart. The model gives all of them the same `now`.
- The JSX rendering is left out, apart from which duration line a todo shows.
- React's batching of state updates is left out. Each handler is modelled as one atomic replacement of the state it sets.
- Ids come from `Date.now()` and are not unique. The model does not assume they are. Toggle and delete act on every todo with the id, and `ToggleUniqueCount` states its uniqueness premise explicitly.
- `src/SortableTodoItem.jsx` is presentation over the drag-and-drop library's `useSortable` and holds no state, so it is not part of this model.
- `src/firebase.js` is SDK initialisation and configuration, so it is not part of this model.
- Reordering, persisted `order` values and remote sync are not in the code shown, so there is nothing to model them against.
