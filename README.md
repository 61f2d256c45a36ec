# Uplift hobby and study screens — a Dafny model

This project models the local state logic of three screens of the Uplift wellness
app (a React Native app):

- **Hobby session timer** (`app/features/hobbies/hobbies-timer.js`). It has a
  setup → running (active or paused) → finished → setup state machine and a
  seconds countdown. It has two clock formatters, a progress ratio, and the
  mapping from the hobby names in the route parameters to numbered hobby records.
- **Weekly hobby tracker** (`app/features/hobbies/hobbies-tracker.js`). It holds a
  hobby × seven-day grid of check marks and a journal of notes keyed by
  `"<hobby id>-<day>"`. Its handlers toggle one cell, mark today, reset the week,
  open and save a note, and compute the weekly statistics.
- **Academic subject list** (`app/features/academic/academic.js`). It holds a list
  of subjects with an add form and an edit form. Its handlers increment progress
  (capped at 100), delete, start and save an edit, and refresh the list. A row of
  five day dots shows how far a subject has progressed.

Layout:

| file | module | contents |
|---|---|---|
| `wrappers.dfy` | `Wrappers` | `Option` |
| `text.dfy` | `Text` | `toString` of whole numbers, `padStart(2, '0')`, `trim()`, and `ReadClock`, a reader for the `"<lead>:<dd>"` clocks that the formatters are proved against |
| `hobbies.dfy` | `Hobbies` | `getHobbiesFromParams` (both hobby screens carry the same copy) |
| `hobbies_timer.dfy` | `HobbiesTimer` | formatters, `getProgress`, and class `SessionTimer` |
| `hobbies_tracker.dfy` | `HobbiesTracker` | the grid as `map<nat, map<string, bool>>`, counting functions and lemmas, and class `WeeklyTracker` |
| `academic.dfy` | `Academic` | progress clamp, day dots, filtering, and class `SubjectBoard` |

Each screen's React state is a class. Each mutable field is one `useState` value;
the `hobbies` constant of each screen stands for `userHobbies`, which is recomputed
from the route parameters on every render. Each handler is one method; a few further methods (`RunUninterrupted`, `OpenThenSave`,
`SaveThenOpen`) chain handlers together to state what a sequence of them does.
The nested `forEach` passes and the per-element `map`/`filter` over the screens'
state are `while` loops with invariants; `getHobbiesFromParams`' `map` over the
parsed names, a pure function, is a sequence comprehension. Each loop method is
proved against a specification function (`ClearWeek`, `Completed`, `WithDayDone`,
`Without`, `WithId`). The lemmas beside those functions state the properties
(counts, bounds, idempotence, order).

Effects become parameters:
- The timer's one-second `setInterval` is the `Tick` method. It may only be called
  while `isTimerActive`, because an interval exists exactly then.
- `new Date().getDay()` is the `weekday` argument of `MarkTodayComplete`.
- The result of `JSON.parse` on the route parameters is an `Option<seq<string>>`.
- The outcome of each post and delete request is a `requestOk` flag. The PUTs of
  `IncrementProgress` and `SaveEdit` go through `updateSubject`, which swallows its
  own errors (app/features/academic/academic.js:68-77), so they have no flag. A
  fetched payload is a `FetchResult`.

## Model

| member | source | states |
|---|---|---|
| `Hobbies.HobbiesFromParams` | app/features/hobbies/hobbies-timer.js:22-41 | absent or unparsable input gives the fixed Reading/Painting/Crafting list; n names give n records, record i named `names[i]` with id = priority = i+1 |
| `Hobbies.HobbiesFromParamsNumbered` | app/features/hobbies/hobbies-tracker.js:20-40 | the list is numbered 1, 2, 3, … so ids are distinct, and the names are recovered unchanged |
| `Text.NatToString` | app/features/hobbies/hobbies-timer.js:78 | `n.toString()` is a non-empty string of decimal digits, one digit exactly when n < 10, starting with '0' exactly when n is 0 (no leading zeros) |
| `Text.NatToStringOfDigits` | app/features/hobbies/hobbies-timer.js:78 | every digit string without a leading zero is the rendering of its own value, so the rendering is the only such string for its number |
| `Text.DigitsValueOfNatToString` | app/features/hobbies/hobbies-timer.js:78 | reading the decimal rendering back gives the number |
| `Text.NatToStringInjective` | app/features/hobbies/hobbies-tracker.js:105 | distinct numbers render differently |
| `Text.PadStart2` | app/features/hobbies/hobbies-timer.js:78 | `padStart(2, '0')` leaves strings of two or more characters alone and left-fills shorter ones with '0' to length 2 |
| `Text.TwoDigits` | app/features/hobbies/hobbies-timer.js:86-87 | a number below 100 padded to two digits is two digits that read back as the number |
| `Text.ReadClockOfPrinted` | app/features/hobbies/hobbies-timer.js:84-88 | `"<lead>:<dd>"` printed from two numbers reads back as exactly those numbers |
| `Text.ClockTextDetermined` | app/features/hobbies/hobbies-timer.js:74-88 | two clock strings whose leads have no leading zero and that read back the same are the same string, so a formatter's reading plus its unpadded lead fixes its text |
| `Text.Trim` | app/features/academic/academic.js:52 | `trim()` gives a contiguous slice `s[i..j]` of the input with only white space before i and after j; it is empty exactly when the input is all white space, and otherwise neither starts nor ends with white space (so the cut is maximal) |
| `HobbiesTimer.OfferedMinutesRange` | app/features/hobbies/hobbies-timer.js:44-66 | the picker offers 15/30/45/60/90/120 minutes, the default 30 is among them |
| `HobbiesTimer.FormatTime` | app/features/hobbies/hobbies-timer.js:74-81 | from 60 minutes on, the text reads back as hours and minutes adding up to the input; below 60 it reads back as the minutes and 00; the lead has no leading zero |
| `HobbiesTimer.FormatTimeDistinguishesOffered` | app/features/hobbies/hobbies-timer.js:74-81 | no two offered durations get the same start-button label |
| `HobbiesTimer.FormatCountdown` | app/features/hobbies/hobbies-timer.js:84-88 | the text reads back as minutes and a seconds field below 60 with `m*60 + ss` equal to the input; the minutes have no leading zero |
| `HobbiesTimer.SessionProgress` | app/features/hobbies/hobbies-timer.js:171-176 | 0 outside a running session or for length 0; otherwise within [0, 100] while the countdown is within the session, 0 at the start and 100 at the end |
| `HobbiesTimer.ProgressIsElapsedShare` | app/features/hobbies/hobbies-timer.js:171-176 | while running, progress × total seconds equals elapsed seconds × 100, and each second of countdown adds exactly `100 / total` |
| `HobbiesTimer.ProgressGrowsAsTimeRuns` | app/features/hobbies/hobbies-timer.js:171-176 | while running, less time remaining means strictly more progress |
| `HobbiesTimer.SessionTimer.constructor` | app/features/hobbies/hobbies-timer.js:61-69 | initial state: first hobby selected, 30 minutes, inactive, 0 remaining, setup |
| `HobbiesTimer.SessionTimer.SelectHobby` | app/features/hobbies/hobbies-timer.js:196-214 | on the setup screen, the tapped one of the parsed hobbies becomes the selection |
| `HobbiesTimer.SessionTimer.SelectDuration` | app/features/hobbies/hobbies-timer.js:256 | the tapped duration becomes the selection; the timer invariant is kept |
| `HobbiesTimer.SessionTimer.Start` | app/features/hobbies/hobbies-timer.js:91-94 | from the setup screen with a hobby selected: remaining becomes the selected minutes × 60, within [900, 7200]; active; running |
| `HobbiesTimer.SessionTimer.Pause` | app/features/hobbies/hobbies-timer.js:108-113 | only clears the active flag; remaining and mode are untouched |
| `HobbiesTimer.SessionTimer.Resume` | app/features/hobbies/hobbies-timer.js:116-118 | only sets the active flag; remaining and mode are untouched |
| `HobbiesTimer.SessionTimer.Complete` | app/features/hobbies/hobbies-timer.js:130-135 | inactive and finished |
| `HobbiesTimer.SessionTimer.Tick` | app/features/hobbies/hobbies-timer.js:96-103 | at 1 second or less: remaining 0, finished, inactive; otherwise exactly one second less, still running and active; never negative |
| `HobbiesTimer.SessionTimer.Acknowledge` | app/features/hobbies/hobbies-timer.js:143-146 | the alert's button takes finished back to setup |
| `HobbiesTimer.SessionTimer.Reset` | app/features/hobbies/hobbies-timer.js:152-159 | from any state: inactive, remaining 0, setup |
| `HobbiesTimer.SessionTimer.RunUninterrupted` | app/features/hobbies/hobbies-timer.js:96-104 | an uninterrupted interval finishes the session after exactly the remaining number of seconds (one tick if at most 1 was left) |
| `HobbiesTracker.DaysOfWeekShape` | app/features/hobbies/hobbies-tracker.js:42 | seven distinct three-letter day names |
| `HobbiesTracker.TodayKey` | app/features/hobbies/hobbies-tracker.js:253-254 | weekday w names day `(w + 6) mod 7` of the Monday-first week |
| `HobbiesTracker.TodayKeyBijective` | app/features/hobbies/hobbies-tracker.js:253-254 | Sunday (0) gives "Sun", Monday gives "Mon", distinct weekdays give distinct days, and every day is some weekday's |
| `HobbiesTracker.JournalKeyInjective` | app/features/hobbies/hobbies-tracker.js:105 | two (hobby id, day) pairs never share a journal key |
| `HobbiesTracker.SavedNoteShown` | app/features/hobbies/hobbies-tracker.js:104-126 | after a note is stored under a cell's key, that cell shows exactly the stored text and every other cell shows its old note |
| `HobbiesTracker.CompletedBounded` | app/features/hobbies/hobbies-tracker.js:129-147 | completed sessions never exceed 7 × number of hobbies |
| `HobbiesTracker.RoundedPercent` | app/features/hobbies/hobbies-tracker.js:145 | 0 for an empty week, at most 100 when done ≤ total, and otherwise the whole number nearest 100·done/total (halves up) |
| `HobbiesTracker.RoundedPercentNearest` | app/features/hobbies/hobbies-tracker.js:145 | the integer formula `(200·done + total) / (2·total)` is that nearest whole number |
| `HobbiesTracker.ClearWeekEmpty` | app/features/hobbies/hobbies-tracker.js:58-67 | the fresh grid has a row for every hobby and every day, all unchecked, and counts 0 completed |
| `HobbiesTracker.Toggled` | app/features/hobbies/hobbies-tracker.js:93-101 | exactly cell (id, day) is negated; every other cell and every key set stay |
| `HobbiesTracker.ToggleTwice` | app/features/hobbies/hobbies-tracker.js:93-101 | toggling the same cell twice restores the grid |
| `HobbiesTracker.ToggleCount` | app/features/hobbies/hobbies-tracker.js:93-101 | a toggle changes the completed count by exactly −1 (cell was checked) or +1 (it was not) |
| `HobbiesTracker.WithDayDone` | app/features/hobbies/hobbies-tracker.js:256-265 | the day is checked in every row; every other day and every row key stay |
| `HobbiesTracker.MarkDayIdempotent` | app/features/hobbies/hobbies-tracker.js:256-265 | marking the same day twice equals marking it once |
| `HobbiesTracker.MarkDayCount` | app/features/hobbies/hobbies-tracker.js:256-265 | marking adds one completed session per hobby that had the day unchecked, so the count never drops |
| `HobbiesTracker.EmptyWeek` | app/features/hobbies/hobbies-tracker.js:284-293 | the nested pass over hobbies and days builds exactly the fresh grid |
| `HobbiesTracker.WeeklyTracker.constructor` | app/features/hobbies/hobbies-tracker.js:52-74 | hobbies from the parameters, fresh grid, no notes, sheet hidden, nothing selected |
| `HobbiesTracker.WeeklyTracker.ToggleHobbyDay` | app/features/hobbies/hobbies-tracker.js:93-101 | the grid becomes `Toggled` of the old grid; one row per hobby with seven days is kept |
| `HobbiesTracker.WeeklyTracker.MarkTodayComplete` | app/features/hobbies/hobbies-tracker.js:251-266 | the grid becomes `WithDayDone` of the old grid for today's day name |
| `HobbiesTracker.WeeklyTracker.ResetWeek` | app/features/hobbies/hobbies-tracker.js:283-295 | the grid is the fresh grid and the journal is empty |
| `HobbiesTracker.WeeklyTracker.WeeklyStats` | app/features/hobbies/hobbies-tracker.js:129-147 | completed = number of checked cells, total = 7 × hobbies, completed ≤ total, rate = rounded percentage within [0, 100], 0 for no hobbies |
| `HobbiesTracker.WeeklyTracker.OpenJournal` | app/features/hobbies/hobbies-tracker.js:104-110 | selects the hobby and day, loads the stored note or '', shows the sheet |
| `HobbiesTracker.WeeklyTracker.EditJournalText` | app/features/hobbies/hobbies-tracker.js:343-344 | typing replaces the current text |
| `HobbiesTracker.WeeklyTracker.CloseJournal` | app/features/hobbies/hobbies-tracker.js:315 | only hides the sheet |
| `HobbiesTracker.WeeklyTracker.SaveJournalEntry` | app/features/hobbies/hobbies-tracker.js:113-126 | without a selected hobby or with no day or the empty day (both falsy for the guard), nothing changes; otherwise the text is stored under that cell's key, other keys stay, and selection, text and sheet are cleared |
| `HobbiesTracker.WeeklyTracker.OpenThenSave` | app/features/hobbies/hobbies-tracker.js:104-126 | opening and saving without typing leaves the note of every key as it was; the sheet closes and the selection clears unless the day is empty |
| `HobbiesTracker.WeeklyTracker.SaveThenOpen` | app/features/hobbies/hobbies-tracker.js:104-126 | saving the open sheet and opening a cell shows the saved text for the saved cell and the previous note for any other; without a selection (or with the empty day) nothing is stored |
| `Academic.ClampedProgress` | app/features/academic/academic.js:83 | the minimum of progress + step and 100: at most both, and equal to one of them |
| `Academic.ClampedProgressMonotone` | app/features/academic/academic.js:79-90 | a progress in [0, 100] stays there under a non-negative step and never decreases |
| `Academic.StepTimesClosedForm` | app/features/academic/academic.js:79-83 | n default steps (10) from a valid progress give `min(progress + 10n, 100)` |
| `Academic.TenStepsReachFull` | app/features/academic/academic.js:79-83 | ten default taps fill any valid progress to 100, and nine taps from 0 do not |
| `Academic.CeilTwentieths` | app/features/academic/academic.js:192 | `Math.ceil(progress / 20)`: the r with 20(r−1) < progress ≤ 20r |
| `Academic.FilledAmongIsClippedCeil` | app/features/academic/academic.js:182-195 | among the first k dots, the filled ones number `ceil(progress/20)` clipped to [0, k] |
| `Academic.FilledDotsOfValidProgress` | app/features/academic/academic.js:182-195 | for progress in [0, 100], exactly `ceil(progress/20)` ≤ 5 dots are filled, and they are the leading ones |
| `Academic.DotTapFillsOneMore` | app/features/academic/academic.js:185 | tapping a dot (+20) fills exactly one more dot until all five are filled |
| `Academic.WithoutMembers` | app/features/academic/academic.js:101 | exactly the subjects whose id differs from the target remain |
| `Academic.WithoutSplits` | app/features/academic/academic.js:101 | removal distributes over concatenation, so the relative order of the rest is kept |
| `Academic.FirstWithId` | app/features/academic/academic.js:118 | `find`: the first position with that id, or none if no subject has it |
| `Academic.SubjectBoard.constructor` | app/features/academic/academic.js:15-20 | empty list, empty name, "Easy", not editing |
| `Academic.SubjectBoard.ReceiveSubjects` | app/features/academic/academic.js:39-49 | an array payload replaces the list; any other payload empties it; a failed request leaves it |
| `Academic.SubjectBoard.AddSubject` | app/features/academic/academic.js:51-66 | a blank trimmed name sends nothing and changes nothing; otherwise {trimmed name, difficulty, progress 0} is posted and, on success, the form resets to '' and "Easy" |
| `Academic.SubjectBoard.IncrementProgress` | app/features/academic/academic.js:79-90 | matching subjects get `min(progress + step, 100)`; others, length and order stay; the records sent are the updated matches; a valid progress stays valid and never drops for step ≥ 0 |
| `Academic.SubjectBoard.DeleteSubject` | app/features/academic/academic.js:92-108 | on success the list becomes `Without(old list, id)`; on failure it is unchanged |
| `Academic.SubjectBoard.StartEditing` | app/features/academic/academic.js:110-114 | the edit form takes the subject's id, name and difficulty |
| `Academic.SubjectBoard.CancelEditing` | app/features/academic/academic.js:150 | leaves edit mode only |
| `Academic.SubjectBoard.SaveEdit` | app/features/academic/academic.js:116-128 | a blank trimmed name sends nothing and changes nothing; otherwise the first subject with the id is sent with only name (trimmed) and difficulty replaced, id and progress kept, and the form resets to none, '' and "Easy" |

## Left out

- The profile questionnaire, its multiselect rule and the calorie and water calculator: their source files are not part of this model.
- `getCurrentWeekDates` and `new Date()` (app/features/hobbies/hobbies-tracker.js:77-90, 253): these read the system clock. The weekday is an argument, and only its mapping to a day name is modelled.
- `setInterval`, `clearInterval` and the interval reference, and the unmount cleanup (app/features/hobbies/hobbies-timer.js:96-104, 118-126, 162-168): these are the clock. `Tick` stands for one firing. The model assumes at most one interval, which the screen guarantees because Start is only on the setup screen and Resume only replaces a cleared interval.
- `Vibration.vibrate`, `Alert.alert` (app/features/hobbies/hobbies-timer.js:138-148; the delete and reset confirmations) and the plain `alert` calls (the blank-name refusals at app/features/academic/academic.js:52 and :117, the delete failure at :104): these are device I/O. The confirmed branch of each dialog is modelled (`Acknowledge`, `DeleteSubject`, `ResetWeek`).
- `JSON.parse` of the route parameters: library parsing. The parsed hobby list is an input (`None` for an absent or unparsable value, which `getHobbiesFromParams` catches).
- The `schedule` parameter (app/features/hobbies/hobbies-timer.js:62, app/features/hobbies/hobbies-tracker.js:55): the timer only displays it and the tracker parses it without using it. Both call `JSON.parse` on it without a guard, so a malformed value throws while rendering; that failure is not modelled.
- An empty hobby list (`parsed == Some([])`): the timer's initial selection is then `undefined` (app/features/hobbies/hobbies-timer.js:65) and the setup screen throws when it reads the selected hobby's name (:296). The model keeps `selectedHobby == None` and does not model the crash; `Start` requires a selected hobby, as the button only renders with one. No screen in the app passes a `hobbies` parameter: the hobbies home screen opens the tracker without parameters (app/(tabs)/hobbies/hobbies-home.js:242) and its cards open per-hobby routes (:222), and nothing opens the timer, so in the app both screens always take the fallback list (`parsed == None`). `Some([])` could come only from a caller outside this app.
- axios and AsyncStorage calls, `app/api/subjectsApi.js` and `app/api/habitsApi.js`: these are network and storage. The success of a post or a delete is a flag (the PUTs' errors are caught inside `updateSubject`), and the subjects a fetch returns are a `FetchResult`. The backend's own behaviour (id assignment, what a later fetch returns after an add or an edit) is not modelled. `AddSubject` and `SaveEdit` return the body they send.
- Navigation, theme, layout and rendering (app/App.js, app/index.js, the StyleSheets and JSX, the colour palettes): these hold no state logic.
- `HobbiesTimer.SessionProgress`: computed on exact reals, not IEEE doubles.
- `HobbiesTracker.RoundedPercent`: exact rounding of the rational `100·done/total`. The source rounds a floating-point quotient, which can fall on the other side of a half from 40 hobbies (280 cells) on: for 161 of 280 cells the IEEE double `161/280*100` is 57.49999999999999, which `Math.round` takes to 57, where the exact value 57.5 rounds to 58.
- `Academic.SubjectBoard.IncrementProgress`: progress is a whole number. Whatever other JSON value the backend might store there is not modelled.
- `Text.IsSpace`: covers the ECMAScript white-space and line-terminator characters that `trim()` removes. Strings are sequences of code points rather than UTF-16 units.
