# My Trips session pipeline — a Dafny model

This project models the logic of the "My Trips" screen of the DriveGuard mobile client
(`frontend/screens/MySessions.js`). That screen fetches the user's driving sessions from the
backend, normalises their dates, sorts them, reverses them for display and renders one card
per session, with a derived `[hours, minutes]` duration for completed sessions.

The model is split into five modules, one per stage of the pipeline:

- `SessionRecords` (`session_records.dfy`): the session record, generic in the type of its
  two date fields (strings on the wire, millisecond instants after normalisation), and the
  `map` that normalises a response (`NormalizeAll`). Fields the screen does not name are
  carried along in `otherFields`, as the `...item` spread does.
- `SessionOrder` (`session_order.dfy`): the `.sort` comparator (`Compare`), an in-place
  insertion sort over an `array` driven by it (`SortInPlace`), and the in-place `reverse()`
  (`ReverseInPlace`). It proves that a sorted array, once reversed, is in the direct display
  order (`DisplayOrdered`: active sessions first, most recent start first, then the rest, most
  recent end first), and the converse. It also proves that without ties this order is unique,
  and works through the four-session example A, B, C, D.
- `SessionDuration` (`session_duration.dfy`): `getTimeDuration` written over exact rationals
  as the source computes it, proved equal to an integer closed form, with its bounds, its
  symmetry and its behaviour on whole minutes.
- `SessionCards` (`session_cards.dfy`): the props `renderItem` gives each card. The
  `duration` prop is gated on status `COMPLETED`.
- `MySessions` (`my_sessions.dfy`): the screen as a class. Its two state slots are
  `sessions` (an `array`, since `reverse()` mutates it in place) and `isLoading`.
  `GetSessions` is one run of `getSessions` against an abstract backend. `Render` is one
  render. `FocusAndRender` is a client: a fresh screen fetches once and renders once.

Where the code and the design description of the system disagree, the model follows the code:

- The minutes part of a duration ranges over 0..60, not 0..59. `Math.round` of a leftover of
  59.5 minutes or more gives 60, so 3,599,999 ms shows as `[0, 60]`
  (`TimeDurationSixtyMinutes`).
- The duration of a `COMPLETED` record is computed whatever its dates are; the code does not
  check that they parsed.
- After an error message or a caught exception the list is left as it was. On a freshly
  mounted screen that is the initial empty list, and once loading has cleared the screen shows
  it as an empty list (`FocusAndRender`), not as a distinct "no data" state.
- A caught exception (`fetch` or `response.json()` failing, or a missing `sessionData`) shows
  no toast: the code only logs it. The design shows it to the user like a `message` error. In
  the model only a message yields a toast (`GetSessions`, `FocusAndRender`).
- The sort-then-reverse double step is kept as the source has it. `SortedIffDisplayOrdered`
  proves that the lists it accepts are exactly those in the direct display order. It does not
  make the two produce the same list when records tie: the engine's stable sort followed by
  `reverse()` shows tied records in reverse input order, where a stable sort by the display
  order would keep them in input order (see the `SortInPlace` line under "## Left out").

Normalising the same record twice gives the same record, because `Normalize` is a function.

## Model

| member | source | states |
|---|---|---|
| `SessionRecords.Normalize` | frontend/screens/MySessions.js:46-51 | the `...item` spread keeps image, status, incident count and every other field; only the two dates are replaced, each by the parser applied to the wire date |
| `SessionRecords.NormalizeAll` | frontend/screens/MySessions.js:44-52 | one normalised record per wire record, at the same index; image, status, incident count and every other field unchanged; each date is the parser applied to the wire date |
| `SessionOrder.Compare` | frontend/screens/MySessions.js:53-61 | the result is negative exactly when `a` belongs strictly before `b` (non-active before active, earlier start among actives, earlier end among the rest) and positive exactly when `b` belongs strictly before `a` |
| `SessionOrder.CompareAntisymmetric` | frontend/screens/MySessions.js:53-61 | swapping the two arguments negates the comparator's result |
| `SessionOrder.CompareReflexive` | frontend/screens/MySessions.js:53-61 | a record compares equal to itself |
| `SessionOrder.LeTotal` | frontend/screens/MySessions.js:53-61 | of any two records, one may stand before the other |
| `SessionOrder.LeTransitive` | frontend/screens/MySessions.js:53-61 | "may stand before" under the comparator is transitive |
| `SessionOrder.CompareZero` | frontend/screens/MySessions.js:53-61 | two records rank equal only if both are active with the same start, or both non-active with the same end |
| `SessionOrder.SortInPlace` | frontend/screens/MySessions.js:53-61 | after the in-place sort the array is ascending under the comparator and is a permutation of what it held |
| `SessionOrder.InsertInto` | frontend/screens/MySessions.js:53-61 | one step of the in-place sort: with the first `i` records sorted, moving record `i` into place leaves the first `i + 1` sorted, the records after index `i` as they were and the array a permutation of what it held |
| `SessionOrder.Reversed` | frontend/screens/MySessions.js:107 | the reversal has the same length and holds element `n-1-k` at position `k` |
| `SessionOrder.ReverseInPlace` | frontend/screens/MySessions.js:107 | `reverse()` leaves the array holding the reversal of its old contents |
| `SessionOrder.ReversedPermutes` | frontend/screens/MySessions.js:107 | reversal adds and drops no record |
| `SessionOrder.ReversedInvolutive` | frontend/screens/MySessions.js:107 | reversing twice restores the original order, so consecutive renders, each reversing the state array, flip the displayed order |
| `SessionOrder.DisplayBeforeIsReversedLe` | frontend/screens/MySessions.js:53-61 | the direct display relation (active first, later start first, later end first) holds exactly when the comparator ranks the pair the other way round |
| `SessionOrder.SortedIffDisplayOrdered` | frontend/screens/MySessions.js:53-61 | a list is ascending under the comparator if and only if its reversal has all active sessions first, actives by non-increasing start and the rest by non-increasing end |
| `SessionOrder.SortedUnique` | frontend/screens/MySessions.js:53-61 | two sorted permutations of the same records are equal when no two different records tie, so the displayed order does not depend on the sorting algorithm |
| `SessionOrder.ExampleDisplayOrder` | frontend/screens/MySessions.js:53-61 | any sorted arrangement of A, B (active, started 10:00 and 9:00) and C, D (completed Monday and Tuesday) is displayed as A, B, D, C |
| `SessionDuration.ElapsedMs` | frontend/screens/MySessions.js:80 | the elapsed time is the absolute difference of the two instants |
| `SessionDuration.Round` | frontend/screens/MySessions.js:85 | `Math.round` gives the integer within half of its argument, halves rounded up |
| `SessionDuration.TimeDuration` | frontend/screens/MySessions.js:78-87 | the duration computed over rationals as the screen writes it equals `[d div 3600000, (d mod 3600000 + 30000) div 60000]` for the elapsed milliseconds `d` |
| `SessionDuration.TimeDurationBounds` | frontend/screens/MySessions.js:82-86 | the result has two entries, whole hours are non-negative and minutes lie in 0..60 |
| `SessionDuration.TimeDurationSymmetric` | frontend/screens/MySessions.js:80 | the duration does not depend on the order of its two instants |
| `SessionDuration.TimeDurationWholeMinutes` | frontend/screens/MySessions.js:79-86 | a difference of `m` whole minutes gives `[m div 60, m mod 60]` |
| `SessionDuration.TimeDurationExamples` | frontend/screens/MySessions.js:77-87 | 125, 90 and 59 minutes give `[2, 5]`, `[1, 30]` and `[0, 59]` |
| `SessionDuration.TimeDurationSixtyMinutes` | frontend/screens/MySessions.js:84-86 | one millisecond short of an hour gives `[0, 60]` |
| `SessionCards.DurationFor` | frontend/screens/MySessions.js:114-118 | a completed record gets its two-entry duration, every other record the empty sequence, and only completed records get a non-empty one |
| `SessionCards.CardFor` | frontend/screens/MySessions.js:111-126 | a card shows the session's image, start date, status and incident count, carries the session and the details route for navigation, and has a non-empty duration exactly when the session is completed |
| `SessionCards.Cards` | frontend/screens/MySessions.js:108-126 | one card per session, in list order, each built from its own session |
| `SessionCards.SessionsShown` | frontend/screens/MySessions.js:121-125 | the sessions the cards pass to navigation, one per card, in order |
| `SessionCards.CardsShowTheirSessions` | frontend/screens/MySessions.js:121-125 | the sessions behind the cards of a list are that list |
| `MySessions.SessionsRequest` | frontend/screens/MySessions.js:28-34 | a GET with a JSON content type to the base path followed by `api/getSessions`, carrying the stored token, absent or not, in the access-token header |
| `MySessions.Truthy` | frontend/screens/MySessions.js:37 | a message counts exactly when it is present and non-empty |
| `MySessions.ErrorToast` | frontend/screens/MySessions.js:38-42 | the toast is titled "Error", carries the server's message and has the error type |
| `MySessions.Handle` | frontend/screens/MySessions.js:37-68 | a truthy `message` means an error toast carrying it; otherwise a present `sessionData` means a new list; anything else (exception, missing data) is a caught failure |
| `MySessions.DisplayedResponse` | frontend/screens/MySessions.js:44-61 | the normalised records, sorted and reversed, have the response's length, are a permutation of its normalised records and are in display order |
| `MySessions.MySessionsScreen.constructor` | frontend/screens/MySessions.js:12-13 | the screen starts with an empty list and loading |
| `MySessions.MySessionsScreen.GetSessions` | frontend/screens/MySessions.js:25-69 | sends GET to the base path plus `api/getSessions` with the token; only a data response replaces `sessions`, wholesale, by a new sorted permutation of its normalised records; an error message shows one error toast; `isLoading` is false after every outcome |
| `MySessions.MySessionsScreen.Render` | frontend/screens/MySessions.js:102-107 | while loading nothing changes and the indicator shows; otherwise the state array is reversed in place and one card per session is shown |
| `MySessions.FocusAndRender` | frontend/screens/MySessions.js:71-107 | after one fetch and one render a data response is shown as a permutation of its records in display order, any other outcome as an empty list, and a toast appears exactly for an error message |

## Left out

- Reading the token (`AsyncStorage.getItem`) is I/O: the token is an input, absent when the read failed, and the fetch proceeds either way.
- `fetch` and `response.json()` are I/O: the backend is a function from the request to an outcome, either an exception or a parsed body. Only the `message` and `sessionData` fields of the body are modelled.
- `Toast.show` is a foreign call: the toast is returned as a value. `console.log` and `console.error` are not modelled.
- The `Date` constructor is a foreign call: it is the `parse` parameter from a date string to milliseconds. Invalid dates (NaN), such as the end date of an active session, are not modelled; the comparator and the duration never read an active session's end date.
- Floating point: `/`, `Math.floor` and `Math.round` are computed over exact rationals.
- React lifecycle: `useState`, `useEffect` with `useIsFocused`, and re-render scheduling. A focus is an explicit call of `GetSessions`, and a render is an explicit call of `Render`. That `Render` reverses the state on every render is modelled; when React renders is not.
- Overlapping fetches (a second focus before the first response) concern the event loop and are not modelled.
- `FlatList`, `SessionCard`, `LoadingIndicator`, the "My Trips" header, styles and theme colours are UI: a render yields a view value, with the cards' props and the details route.
- `frontend/context/MainContext.js` holds theme and gradient state, creates the stack navigator and fixes the constant base path `http://10.0.2.2:5000/`; only the base path concerns this screen. The base path is a parameter of `GetSessions`.
- SessionOrder.SortInPlace: does not state stability. The engine's sort keeps tied records in input order; the contract lets ties come out in any order. Without ties `SortedUnique` shows the result is the same either way.
