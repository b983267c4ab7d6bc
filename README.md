# Microwave reservation queue — a Dafny model

This project models the core of a web front end that runs a queue for one shared
microwave oven. People register with a name and a usage time of 1, 3 or 5 minutes.
The store adds one buffer minute to the slot and keeps the reservations in an ordered
list. Each reservation is *waiting*, *using* or *completed*. The first waiting person
is promoted when the oven becomes free. The daily service starts at 12:15: a first
start before then is scheduled for 12:15.

The model has these parts:

- **`Reservations`** (`reservations.dfy`): the list of reservations as values, and a
  specification function for every store operation:
  - appending a record;
  - promoting the first waiting record, with the 12:15 rule for the first start;
  - completing the current record, then starting the next one;
  - dropping completed records;
  - the estimated start time of a queue position.

  It also holds the lemmas about these operations: first in, first out; at most one
  record in use; status only moves forward; clearing is idempotent; how the estimate
  behaves as the position grows.
- **`Store`** (`store.dfy`): class `ReservationStore`. The source keeps the list in the
  browser's `localStorage`: every method re-reads it there and writes it back when it
  changes it (reservationStore.ts:40-49). The model holds the list in a field instead.
  Its methods replace the list, and each states its new list through the functions of
  `Reservations`. The query methods state what they return. The
  estimate is computed with the source's loop, proved against `Reservations.EstimatedTime`.
- **`Display`** (`display.dfy`): the logic of the display page:
  - the "service has started" (12:15) test;
  - the "registration open" (8:30–17:30) test;
  - the table of estimated start times, a loop proved against a prefix sum;
  - the remaining-seconds readout;
  - the guard for the automatic start, with what it yields if the server's start behaves
    like the store's promotion (the server's code is not part of this model).
- **`Register`** (`register.dfy`): the logic of the registration page:
  - the acceptance-hour window;
  - the day's `YYYY-MM-DD` access token and the comparison of the URL token with it;
  - which view the page shows;
  - `trim` with the ECMAScript set of white-space characters;
  - the validation in `handleSubmit`, and the disabled state of the submit button;
  - the offered durations.
- **`Countdown`** (`countdown.dfy`): the countdown hook. It clamps the remaining time at
  zero, splits it into minutes and seconds, sets `isFinished` and formats `mm:ss`.
- **`Text`**, **`Clock`** and **`Wrappers`** hold the supporting pieces:
  - `String(n)` and `padStart(2, "0")` on numbers, with their round trip;
  - wall-clock instants in integer milliseconds (`setHours(h, m, 0, 0)` on a given day);
  - `Option`, and JavaScript truthiness of an optional number (`undefined` and `0` are
    both falsy).

Times are integers in milliseconds. "Now" is a parameter, and so is the instant of
12:15 today (`threshold` in the store, `dayStart` plus 12:15 in the display page).

Some behaviours of the code are easy to overlook. The model follows the code as written,
and lemmas show each of them:

- `startNextReservation` checks only that someone waits (reservationStore.ts:74), not
  that nobody is in use. It promotes the first waiting record even while another record
  is in use.
  - `Reservations.StartNextCanDoubleUsing` builds a list where this creates two
    records in use.
  - "At most one in use" therefore holds only because the callers arrange it:
    `completeCurrentReservation` completes the record in use before its delayed start
    (reservationStore.ts:101-108, `Reservations.CompleteKeepsSingleUsing`), and the
    display page asks for a start only when nobody is current (DisplayPage.tsx:182-187,
    `Display.AutoStartPromotesOne`).
- `getEstimatedTime` does not grow with the position in every case. Its position-1 branch
  (reservationStore.ts:137-148) returns 12:15 when nobody is in use and it is earlier.
  Its general branch raises the base to 12:15 only when someone waits
  (reservationStore.ts:154-162). So with an empty list before 12:15, position 1 is
  estimated at 12:15 but position 2 at "now" (`Reservations.EstimateDropsWhenEmpty`). The
  monotonicity lemma excludes exactly this case.
- The display's registration window runs from 8:30 to 17:30 (DisplayPage.tsx:30-40),
  while the text it shows when closed announces 8:30 ~ 12:30 (DisplayPage.tsx:240)
  (`Display.ReservationWindowBounds`).
- The registration page fixes `isAcceptanceTime` to true (RegisterPage.tsx:51), so its
  8:30–12:30 window function is never consulted. The form depends on the token alone
  (`Register.FormDependsOnlyOnToken`).

## Model

| member | source | states |
|---|---|---|
| Reservations.NewReservation | frontend/src/app/lib/reservationStore.ts:51-62 | the new record is waiting, has no start time, keeps the given id, name, duration and creation time, and has total duration = duration + 1 (the buffer minute) |
| Reservations.FirstWith | frontend/src/app/lib/reservationStore.ts:99 | `find` by status: None exactly when no record has the status; otherwise an index with that status, with no earlier record having it |
| Reservations.CountOfZero | frontend/src/app/lib/reservationStore.ts:122-124 | a status count is zero exactly when no record has the status, and exactly when `find` for it fails |
| Reservations.WithStatus | frontend/src/app/lib/reservationStore.ts:117-120 | the filtered list has as many records as the status count, and every one has the status |
| Reservations.WithoutStatus | frontend/src/app/lib/reservationStore.ts:183 | the filter `status !== s` keeps `|rs|` minus the count of `s` records, and none has status `s` |
| Reservations.WithStatusMembers | frontend/src/app/lib/reservationStore.ts:117-120 | a record is in the filtered list exactly when it is in the list with (or, for the negated filter, without) the status |
| Reservations.CurrentIsFirstUsing | frontend/src/app/lib/reservationStore.ts:112-115 | a current record exists exactly when some record is in use; it is in use and is in the list |
| Reservations.FindIndex | frontend/src/app/lib/reservationStore.ts:128 | `findIndex` by id: -1 exactly when no record has the id; otherwise the first index holding it |
| Reservations.FirstWithIsHead | frontend/src/app/lib/reservationStore.ts:71-75 | the first record found with a status is the head of the filtered list, and the filtered list is empty exactly when none is found |
| Reservations.WithStatusAppend | frontend/src/app/lib/reservationStore.ts:71 | filtering distributes over concatenation |
| Reservations.CountOfAppend | frontend/src/app/lib/reservationStore.ts:123 | counts add up over concatenation |
| Reservations.AppendJoinsQueueEnd | frontend/src/app/lib/reservationStore.ts:64 | a pushed waiting record becomes the last of the waiting list, which is otherwise unchanged; the waiting count grows by one; the in-use count and the current record stay the same; a fresh id gets position = new waiting count |
| Reservations.StartNextWithoutWaiting | frontend/src/app/lib/reservationStore.ts:74 | with nobody waiting, the promotion leaves the list unchanged |
| Reservations.StartNextPromotesFirstWaiting | frontend/src/app/lib/reservationStore.ts:69-95 | only the first waiting record changes. It becomes in use, and its start time is the threshold when nobody is in use and now < threshold, otherwise now |
| Reservations.StartNextFromIdle | frontend/src/app/lib/reservationStore.ts:72-75 | from a list with nobody in use, the promotion leaves exactly one record in use if someone waited, one fewer waiting, and the completed count unchanged |
| Reservations.StartNextAddsUsing | frontend/src/app/lib/reservationStore.ts:74-75 | with someone waiting, the promotion adds one to the in-use count, whatever it was |
| Reservations.StartNextCanDoubleUsing | frontend/src/app/lib/reservationStore.ts:72-75 | a concrete list with one record in use and one waiting ends with two records in use: the code does not refuse to promote |
| Reservations.CompleteFinishesCurrent | frontend/src/app/lib/reservationStore.ts:97-103 | completing is a no-op with nobody in use; otherwise only the first in-use record changes, to completed |
| Reservations.CompleteCounts | frontend/src/app/lib/reservationStore.ts:101-102 | completing moves one record from the in-use count to the completed count and keeps the waiting count |
| Reservations.CompleteThenAdvance | frontend/src/app/lib/reservationStore.ts:97-110 | with one record in use and someone waiting, completion and the start that follows leave exactly one in use, one fewer waiting and one more completed |
| Reservations.CompleteKeepsSingleUsing | frontend/src/app/lib/reservationStore.ts:97-110 | at most one record in use before completion and the following start means at most one after |
| Reservations.StatusOnlyMovesForward | frontend/src/app/lib/reservationStore.ts:69-110 | promotion and completion move each record's status at most one step along waiting → using → completed, never back; completed records are never touched |
| Reservations.ClearCompletedKeepsQueue | frontend/src/app/lib/reservationStore.ts:181-185 | after dropping completed records the waiting list and the in-use records are the same lists as before, in order, with no completed record left |
| Reservations.WithoutStatusAppend | frontend/src/app/lib/reservationStore.ts:183 | dropping the completed records distributes over concatenation: the survivors of any prefix come before the survivors of the rest, so the remaining records keep their original relative order |
| Reservations.ClearCompletedMultiset | frontend/src/app/lib/reservationStore.ts:183 | each record that is not completed keeps its multiplicity and each completed one is gone |
| Reservations.ClearCompletedIdempotent | frontend/src/app/lib/reservationStore.ts:181-185 | clearing twice equals clearing once |
| Reservations.PriorTotalStep | frontend/src/app/lib/reservationStore.ts:172-176 | one more loop round adds the next waiting record's total duration if there is one, else nothing |
| Reservations.PriorTotalMonotone | frontend/src/app/lib/reservationStore.ts:172-176 | with non-negative durations the sum over the records ahead never decreases in the position |
| Reservations.PriorTotalPlateau | frontend/src/app/lib/reservationStore.ts:172-176 | past the end of the waiting list the sum stops growing |
| Reservations.EstimateFirstWhenIdle | frontend/src/app/lib/reservationStore.ts:137-148 | with nobody in use, position 1 is estimated at max(now, threshold) |
| Reservations.EstimateMonotone | frontend/src/app/lib/reservationStore.ts:150-178 | with non-negative durations, the estimate is non-decreasing in the position, except when nobody is in use, nobody waits and now < threshold |
| Reservations.EstimatedTimeMonotone | frontend/src/app/lib/reservationStore.ts:132-179 | the same monotonicity for the estimate computed from the stored list |
| Reservations.EstimatePlateau | frontend/src/app/lib/reservationStore.ts:172-178 | once position − 1 reaches the waiting count the estimate no longer changes (outside the position-1 special case) |
| Reservations.EstimateDropsWhenEmpty | frontend/src/app/lib/reservationStore.ts:137-162 | on an empty list before the threshold, position 2 is estimated earlier than position 1 |
| Reservations.EstimateExample | frontend/src/app/lib/reservationStore.ts:150-178 | durations 1, 3 and 5 behind a used-up current slot: positions 1, 2 and 3 start at now, now + 2 min and now + 6 min |
| Store.ReservationStore.constructor | frontend/src/app/lib/reservationStore.ts:40-44 | a store with nothing stored reads as the empty list |
| Store.ReservationStore.AddReservation | frontend/src/app/lib/reservationStore.ts:51-67 | returns the new record; the list becomes the old list plus that record; it joins the end of the waiting list; at most one in use is preserved |
| Store.ReservationStore.StartNextReservation | frontend/src/app/lib/reservationStore.ts:69-95 | the list becomes the promotion of the old list; from nobody in use, at most one record is in use afterwards |
| Store.ReservationStore.CompleteCurrentReservation | frontend/src/app/lib/reservationStore.ts:97-110 | the list becomes the completion of the old list followed by the promotion (when someone was in use); at most one in use is preserved |
| Store.ReservationStore.GetCurrentReservation | frontend/src/app/lib/reservationStore.ts:112-115 | returns the first in-use record, absent exactly when nobody is in use; if present it is in use and from the list |
| Store.ReservationStore.GetWaitingReservations | frontend/src/app/lib/reservationStore.ts:117-120 | returns the waiting records in list order; a record is returned exactly when it is stored and waiting |
| Store.ReservationStore.GetWaitingCount | frontend/src/app/lib/reservationStore.ts:122-124 | returns the number of waiting records; zero exactly when nobody waits |
| Store.ReservationStore.GetPositionById | frontend/src/app/lib/reservationStore.ts:126-130 | returns the 1-based index of the first waiting record with the id, or 0 exactly when no waiting record has it |
| Store.ReservationStore.GetEstimatedTime | frontend/src/app/lib/reservationStore.ts:132-179 | the loop's result is the estimate: max(now, threshold) for position 1 when idle, else base + clamped remaining slot + total durations of the waiting records ahead |
| Store.ReservationStore.ClearCompleted | frontend/src/app/lib/reservationStore.ts:181-185 | the list becomes the old list without completed records, the survivors in their original relative order (`Reservations.WithoutStatusAppend`); the waiting list and the current record stay the same; at most one in use is preserved |
| Store.ReservationStore.Reset | frontend/src/app/lib/reservationStore.ts:187-189 | the list becomes empty: nobody waits and nobody is current |
| Display.StartedTimeByClock | frontend/src/app/pages/DisplayPage.tsx:23-28 | the service counts as started exactly from 12:15:00.000 of the day on |
| Display.ReservationTimeByClock | frontend/src/app/pages/DisplayPage.tsx:30-40 | registration counts as open from 8:30:00.000 up to and including 17:30:00.000, and at no other time of the day |
| Display.ReservationWindowBounds | frontend/src/app/pages/DisplayPage.tsx:30-40 | open at 8:30, 12:31 and 17:30; closed one ms before 8:30 and one ms after 17:30 |
| Display.DurationSumPrefixMonotone | frontend/src/app/pages/DisplayPage.tsx:70-75 | with non-negative durations, the accumulated minutes never decrease along the waiting list |
| Display.EstimatedTimes | frontend/src/app/pages/DisplayPage.tsx:53-77 | one time per waiting entry, in order. Entry i = base + the requested minutes of the entries ahead. The first entry = base. Consecutive entries differ by one requested duration. Times are non-decreasing when durations are non-negative |
| Display.RemainingSeconds | frontend/src/app/pages/DisplayPage.tsx:192-199 | the seconds shown are never negative; when positive they are the floor of (slot end − now)/1000; they are 0 exactly when less than a second is left |
| Display.AutoStartPromotesOne | frontend/src/app/pages/DisplayPage.tsx:182-187 | taking the server's start to behave like the store's promotion (`Reservations.StartNext`): when the guard fires (12:15 passed, nobody current, someone waiting), the promotion leaves exactly one record in use and one fewer waiting; the first waiting record starts now |
| Register.AcceptanceHoursByClock | frontend/src/app/pages/RegisterPage.tsx:12-22 | the window accepts exactly the clock readings from 8:30 to 12:30 inclusive |
| Register.AcceptanceHoursBoundaries | frontend/src/app/pages/RegisterPage.tsx:18-21 | 8:30 and 12:30 are accepted, 8:29 and 12:31 are not |
| Register.TokenShape | frontend/src/app/pages/RegisterPage.tsx:38-45 | for a real month and day the token is the year's digits, '-', two digits reading back as the month, '-', two digits reading back as the day |
| Register.DashedParts | frontend/src/app/pages/RegisterPage.tsx:38-43 | in `y-mm-dd` with two-character parts, each part sits at its fixed offset from the end of the year |
| Register.TokenInjective | frontend/src/app/pages/RegisterPage.tsx:38-45 | two days have the same token only if they are the same day |
| Register.AccessOnlyWithTodaysToken | frontend/src/app/pages/RegisterPage.tsx:32-48 | a missing URL token is refused, and so is the token of any other day |
| Register.TokenExample | frontend/src/app/pages/RegisterPage.tsx:38-43 | 5 January 2025 gives "2025-01-05" |
| Register.FormDependsOnlyOnToken | frontend/src/app/pages/RegisterPage.tsx:48-110 | with the acceptance flag as set, the out-of-hours view never appears and the form is shown exactly when the URL token equals the expected one |
| Register.LeadingSpaces | frontend/src/app/pages/RegisterPage.tsx:55 | the leading run that `trim` removes: all white space, and the character after it is not |
| Register.TrailingSpaces | frontend/src/app/pages/RegisterPage.tsx:55 | the trailing run that `trim` removes: all white space, and the character before it is not |
| Register.TrimSpec | frontend/src/app/pages/RegisterPage.tsx:55-67 | the trimmed name is a contiguous piece of the name with only white space cut around it; it is empty exactly when the name is all white space; otherwise its first and last characters are not white space |
| Register.TrimIdempotent | frontend/src/app/pages/RegisterPage.tsx:55-67 | trimming twice equals trimming once |
| Register.SubmitMatchesButton | frontend/src/app/pages/RegisterPage.tsx:53-149 | the button is disabled exactly when submitting is refused; refusal happens exactly for no or zero duration or an all-white-space name; an accepted submission sends the chosen duration and a non-empty, already trimmed name |
| Register.OfferedDurationsAccepted | frontend/src/app/pages/RegisterPage.tsx:6-10 | the offered durations are exactly 1, 3 and 5; each passes the duration check, so it is accepted exactly when the name has a non-white-space character |
| Text.DecimalString | frontend/src/app/pages/RegisterPage.tsx:39-43 | `String(n)` is all digits, non-empty, one character exactly below 10, two exactly from 10 to 99, and has no leading zero |
| Text.PadStart2 | frontend/src/app/pages/RegisterPage.tsx:41-43 | `padStart(2, "0")` gives length max(2, \|s\|), ends with s and has only zeros in front |
| Text.DecimalRoundTrip | frontend/src/app/pages/RegisterPage.tsx:39 | reading back `String(n)` gives n |
| Text.LeadingZeroValue | frontend/src/app/pages/RegisterPage.tsx:41-43 | a leading '0' keeps a digit string's value |
| Text.TwoDigitRoundTrip | frontend/src/app/pages/RegisterPage.tsx:41-43 | below 100 the padded string has exactly two digits and reads back as the number |
| Countdown.RemainingClamped | frontend/src/app/hooks/useCountdown.ts:6-16 | without a start time nothing remains; while the slot runs, remaining + elapsed = slot length; afterwards nothing remains |
| Countdown.RemainingNonIncreasing | frontend/src/app/hooks/useCountdown.ts:12-16 | the remaining time never grows as the clock advances |
| Countdown.FinishedIff | frontend/src/app/hooks/useCountdown.ts:7-32 | `isFinished` holds exactly when there is no start time or the whole slot has elapsed |
| Countdown.SplitIsExact | frontend/src/app/hooks/useCountdown.ts:25-26 | seconds < 60, minutes·60 + seconds = the whole seconds remaining, and minutes is the floor of the remaining minutes |
| Countdown.FormattedShape | frontend/src/app/hooks/useCountdown.ts:33 | below 100 minutes the text has length 5, a ':' at index 2, and two digits on either side that read back as the minutes and the seconds |
| Countdown.LastSecondShowsZero | frontend/src/app/hooks/useCountdown.ts:25-33 | with less than a second left the countdown is not finished yet shows "00:00" |
| Countdown.StartReading | frontend/src/app/hooks/useCountdown.ts:12-33 | at the start of a three-minute slot, 180000 ms remain and the text reads "03:00" |

## Left out

- Persistence and notification (`localStorage`, `JSON.parse`/`JSON.stringify`,
  `BroadcastChannel`, the listener set, `subscribe`): browser plumbing. The store is the
  in-memory list, and `getReservations` is the field itself.
- Identifiers and creation times are parameters of `Store.ReservationStore.AddReservation`,
  not read from `Date.now()`. Uniqueness of ids is not assumed. The lemma about the
  position of a new record takes a fresh id as a hypothesis.
- The `setTimeout(…, 100)` in `completeCurrentReservation` is modelled as a sequential call
  to the promotion, at the `now` passed in. Anything that happens to the list during those
  100 ms is outside the model.
- Each use of `Date.now()` or `new Date()` inside one operation is read as the same instant
  `now`. The source reads the clock several times, a few microseconds apart.
- Clock and calendar library calls: `Date`, `setHours`, `toLocaleString` with the Tokyo
  time zone, and `toLocaleDateString("sv-SE")` (the date the display page puts in its QR
  code). Instants, the 12:15 threshold, the start of the day and the year/month/day are
  integer inputs.
- `Reservations.RemainingMs`: the source computes the remaining slot in fractional minutes
  (floating point). The model works in whole milliseconds. That is exact whenever the float
  arithmetic is, and rounding is not modelled.
- `Countdown.Read`: it keeps the remaining time in whole milliseconds, not fractional
  seconds. `minutes` and `seconds` are the same floors, and sub-millisecond values and float
  rounding are not modelled.
- `Display.Entry`: the page's `status` and `createdAt` fields are not used by the modelled
  logic and are left out. `startTime` is the already-parsed instant. Parsing the ISO string
  is a library call, and an empty string is modelled as absent.
- `Register.IsSpace`: `trim` works on UTF-16 code units and the model's strings are
  sequences of Unicode scalar values. The two agree on all white-space characters, which
  lie in the Basic Multilingual Plane.
- `Register.TodayToken`: the year is a natural number. Negative years, whose `String` has a
  minus sign, are not modelled.
- All network I/O and everything that depends on it:
  - `fetch` to the server and the response handling;
  - the navigation after a successful registration;
  - `alert`, `prompt` and the reset password;
  - the three-second polling and races between browser tabs.

  The display page's automatic start sends a request to a server (DisplayPage.tsx:103-118),
  and the server's code is not part of this model. `Display.AutoStartPromotesOne` assumes
  the server's start endpoint behaves like `Reservations.StartNext` on the same list, and
  its conclusion rests on that assumption.
- Timers as such (`setInterval` ticks for the clock, the countdown and the remaining
  seconds). The model evaluates each reading at a given `now`.
- React rendering, hooks, state, routing and the QR code, including the JSX parts of the
  pages. The remaining modules of the front end (the completion page, the
  reservations hook, the routes) are not part of this model.
- `ReservationRepository.java`: an interface whose behaviour comes from its framework. It
  has no body to model.
