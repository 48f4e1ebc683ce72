# PAAB departure board — Dafny model of the label logic and the list refresh

PAAB is a small egui app that shows a list of train departures fetched from a
web service. The repository has two variants of the same app:

- `src/lib.rs`, the threaded app: a background thread fetches the list,
  sends each successful result down an unbounded FIFO channel, and sleeps
  15 s before the next fetch;
  every repaint takes at most one list off the channel without waiting.
  Each train is drawn as four labels. Its status line is the effective
  departure (green), or the estimated delay (orange), or "Drives on time".
- `src/main.rs`, the stand-alone binary: no thread. Each repaint fetches
  when at least `UPDATE_RATE` (1 s) has passed since the last refresh. Each
  train is drawn as eight plain labels with the timestamps shown verbatim.

This project models the decision logic of both. It covers the per-train
labels, the panics they can raise, and how the shown train list changes
from repaint to repaint. Everything is a pure function over immutable
datatypes:

- `wrappers.dfy` (`Wrappers`): `Option` and `Result`.
- `decimal.dfy` (`Decimal`): Rust's `str::parse::<i32>` and `Display for i32`.
  The delay string is read with the first and shown with the second.
  `ParseSpells` characterises exactly which strings parse, and to what.
- `utf8.dfy` (`Utf8`): Rust's `&s[lo..hi]` on UTF-8 byte offsets, including
  the char-boundary check that makes it panic.
- `trains.dfy` (`Trains`): the `Train` record, the `Panic` outcomes, and
  `RenderAll`, which draws a whole list and aborts at the first train that
  panics.
- `lib_labels.dfy` (`LibLabels`) and `lib_hub.dfy` (`LibHub`): `src/lib.rs`.
- `main_labels.dfy` (`MainLabels`) and `main_refresh.dfy` (`MainRefresh`):
  `src/main.rs`.

Inputs the model cannot compute are parameters:

- A fetch result is an `Option<seq<Train>>`: `None` stands for any transport
  or decode error.
- The channel is the queue of lists sent and not yet received.
- Time is a natural number of nanoseconds.
- A Rust panic (`unwrap` on a bad delay, a slice out of range) is an
  `Err(Panic)` result for the whole frame.

Behaviour of the code that a reader might not expect, which the model
reproduces:

- In `src/lib.rs` the status `match` binds `drives` with an irrefutable
  pattern at line 120. Its `outage` and catch-all arms never run, and
  `drives` never changes the labels (`LibLabels.DrivesIgnored`,
  `LibLabels.OutageShownOnTime`).
- The channel is FIFO. When two lists arrive between repaints, the older one
  is shown first and the newer one waits for the next repaint
  (`LibHub.OlderListShownFirst`).
- A negative delay is shown as a negative number of minutes
  (`LibLabels.DelayShown`).
- A malformed delay or timestamp panics, which ends the frame.
- Timestamps are cut at byte offsets, so a multi-byte character before them
  shifts every field (`LibLabels.AccentedTimestamp`).

## Model

| member | source | states |
|---|---|---|
| `Decimal.ParseI32` | src/lib.rs:122 | The delay parse as `i32`: a success is always in 32-bit range and never comes from the empty string. |
| `Decimal.ParseSpells` | src/lib.rs:122 | `parse::<i32>` succeeds with `n` exactly when `n` fits in 32 bits and the text is an optional sign, any leading zeros, then the digits of `n`. A minus is allowed only for `n <= 0`, and `"-0"` reads as 0. |
| `Decimal.ParsedIsSpelled` | src/main.rs:60 | Every string the parser accepts is a sign, zeros and the canonical digits of the value it returns. |
| `Decimal.SpelledIsParsed` | src/main.rs:60 | Every in-range spelling is accepted and read as the number it spells. |
| `Decimal.ShowNat` | src/main.rs:63 | Printed digits are non-empty, all ASCII digits, and have no leading zero except for 0 itself. |
| `Decimal.ShowInt` | src/lib.rs:127-130 | A printed delay starts with '-' exactly when it is negative and never with '+'. It is the sign followed by the shortest digits of the magnitude, with no padding zeros. |
| `Decimal.ParseShowInt` | src/main.rs:60-63 | Printing a 32-bit value and parsing the text gives the value back. |
| `Decimal.StripLeadingZeros` | src/lib.rs:122 | Every non-empty digit string is leading zeros followed by the canonical digits of its value. |
| `Decimal.CanonicalDigits` | src/lib.rs:122 | A digit string with no leading zero is exactly the printed form of its value. |
| `Utf8.BoundaryIndex` | src/lib.rs:103-106 | Finds the character index at a byte offset. It returns `None` exactly when the offset is not a char boundary. |
| `Utf8.Slice` | src/lib.rs:103-106 | `&s[lo..hi]` succeeds exactly when `lo <= hi` and both offsets are char boundaries. Then `hi` is within the string, the slice is `hi - lo` bytes long, and it is the characters that start at byte `lo` and end at byte `hi`. |
| `Utf8.BetweenUnique` | src/lib.rs:103-106 | Only one run of characters lies between two byte offsets, so the slice's contents are determined. |
| `Utf8.SliceAfterFirst` | src/lib.rs:103-106 | Slicing past the first character is slicing the rest of the string with both offsets moved back by that character's byte width. |
| `Utf8.AsciiSlice` | src/lib.rs:103-106 | On ASCII text a byte slice in range is the ordinary character subsequence. |
| `Utf8.SliceBetween` | src/lib.rs:103-106 | Boundaries in byte order are in character order, and the characters between them fill the bytes between them. |
| `Trains.RenderAll` | src/lib.rs:97-145 | A frame succeeds exactly when every train's labels do. Otherwise it fails with the panic of the first failing train. |
| `Trains.RenderAllLayout` | src/main.rs:53-80 | With a fixed number of labels per train, a frame is the trains' label blocks in list order. |
| `LibLabels.DayMonthTime` | src/lib.rs:101-107 | `DD.MM HH:MM` is built from byte ranges 8..10, 5..7, 11..13 and 14..16. It exists exactly when offsets 5, 7, 8, 10, 11, 13, 14 and 16 are char boundaries, never for timestamps under 16 bytes, and is always 11 bytes long. Its text is the characters at those byte ranges, in that order, joined by '.', ' ' and ':'. |
| `LibLabels.DayMonthTimeWideFirst` | src/lib.rs:101-107 | When the first character takes two bytes and the rest is ASCII, every field is read one character to the left of its ASCII position. |
| `LibLabels.AccentedTimestamp` | src/lib.rs:101-107 | "é23-12-25T10:30" is shown as "25.12 10:30". |
| `LibLabels.DayMonthTimeAscii` | src/lib.rs:101-107 | For an ASCII timestamp it panics exactly when the length is under 16. Otherwise it is `t[8..10].t[5..7] t[11..13]:t[14..16]`. |
| `LibLabels.PlannedDeparture` | src/lib.rs:101-107 | The planned-departure label, or a `BadTimestamp` panic exactly when the departure time cannot be sliced. |
| `LibLabels.PlannedDepartureAscii` | src/lib.rs:101-107 | For an ASCII departure time the label is "Planned departure: " and the four fixed ranges. It panics exactly when the time is shorter than 16 characters. |
| `LibLabels.RetardStatus` | src/lib.rs:119-135 | The status is "Drives on time" exactly when the delay is absent or parses to 0. It panics exactly when the delay is not an `i32`. It is orange exactly when the delay parses to a non-zero value. |
| `LibLabels.Status` | src/lib.rs:108-139 | An effective departure gives the green line "Effective departure: " + its `DD.MM HH:MM`, or a `BadTimestamp` panic for that timestamp when it cannot be sliced. Nothing else gives a green line. Without an effective departure, the delay decides. |
| `LibLabels.EffectiveDepartureDecides` | src/lib.rs:108-120 | With an effective departure, changing the delay or `drives` does not change the status line or its panic. |
| `LibLabels.Annotation` | src/lib.rs:140-143 | The annotation is the text of `Some(a)` and empty for `None`, so `None` and `Some("")` look the same. |
| `LibLabels.TrainLabels` | src/lib.rs:97-145 | Four labels: number and type, planned departure, status, annotation. The planned-departure panic takes precedence over a status panic. |
| `LibLabels.Frame` | src/lib.rs:95-147 | Four labels per train in list order. A failing frame carries the panic of the first train whose labels fail, and every train before it renders. |
| `LibLabels.EffectiveDepartureWins` | src/lib.rs:108-118 | With an ASCII effective departure of 16 or more characters, the status is "Effective departure: DD.MM HH:MM" in green. This holds whatever `drives` and the delay hold, even a delay that would not parse. |
| `LibLabels.OnTimeExactly` | src/lib.rs:119-134 | Without an effective departure, "Drives on time" is shown exactly when the delay is absent or spells 0 ("0", "-0", "+00", ...). |
| `LibLabels.DelayShown` | src/lib.rs:121-131 | A delay parsing to non-zero `n` is shown as "Estimated departure: n min retard" in orange, negative values with their '-'. The number shown parses back to the same value. |
| `LibLabels.UnparsableDelayPanics` | src/lib.rs:122 | Without an effective departure, a delay that spells no 32-bit integer panics. |
| `LibLabels.DrivesIgnored` | src/lib.rs:119-138 | Two trains that differ only in `drives` get identical labels. |
| `LibLabels.OutageShownOnTime` | src/lib.rs:119-137 | A train marked "outage" with no effective departure and no delay is shown as "Drives on time". |
| `LibHub.New` | src/lib.rs:156-166 | The initial list is the bootstrap fetch on success and empty on failure. There is no channel yet. |
| `LibHub.Setup` | src/lib.rs:62-65 | Setup installs a fresh, empty channel and keeps the shown list. |
| `LibHub.Publish` | src/lib.rs:69-73 | A successful fetch is queued behind everything already sent. A failed one sends nothing. |
| `LibHub.Tick` | src/lib.rs:87-94 | A repaint with a non-empty channel shows the oldest list and removes it. An empty or absent channel leaves everything unchanged. |
| `LibHub.StepIsFifo` | src/lib.rs:69-94 | For one event, the list it adopts followed by the remaining queue equals the old queue followed by the list it sends. |
| `LibHub.ChannelIsFifo` | src/lib.rs:62-94 | Over any run, the lists adopted followed by those still queued are the initial queue followed by every successful fetch, in send order. Nothing is lost, duplicated, invented or reordered. |
| `LibHub.ShownIsLastAdopted` | src/lib.rs:87-94 | The shown list is the initial one, or the last list a repaint adopted. |
| `LibHub.RepaintsDrainInOrder` | src/lib.rs:87-94 | With `k` repaints and nothing new sent, the first `k` queued lists are adopted, one per repaint in send order. The `k`-th is then shown. |
| `LibHub.FailuresKeepList` | src/lib.rs:69-73 | With an empty channel, a run in which every fetch fails changes nothing. |
| `LibHub.OlderListShownFirst` | src/lib.rs:62-94 | Two lists sent before one repaint: the older is shown and the newer stays queued. |
| `MainLabels.RetardText` | src/main.rs:58-67 | The delay label is "No retard" exactly when the delay is absent or parses to 0, and panics exactly when it is not an `i32`. Any other label is the parsed value printed by `Display for i32`, which re-parses to the same non-zero value. |
| `Trains.ShownOrEmpty` | src/main.rs:68-78 | The annotation and the effective departure are shown verbatim for `Some(x)` and as an empty label for `None`, so `None` and `Some("")` look the same. |
| `MainLabels.TrainLabels` | src/main.rs:53-79 | Eight labels: number, type, drives, departure time verbatim, delay, annotation, "Effective departure at: ", effective departure. Only the delay can panic. |
| `MainLabels.Frame` | src/main.rs:51-82 | Eight labels per train in list order. The frame panics exactly when some train's delay does not parse, and then with `BadRetard` of the first such delay. |
| `MainLabels.DepartureTimeUnchecked` | src/main.rs:57 | A departure time of any length is shown verbatim and never causes a panic. |
| `MainLabels.SameDelayReading` | src/main.rs:58-67 | The two variants read a delay the same way. "No retard" appears exactly when the library shows "Drives on time", and both panic on the same delays. Otherwise the library's line is "Estimated departure: " + the binary's label + " min retard". |
| `MainRefresh.New` | src/main.rs:91-96 | The timer starts now. The list is the bootstrap fetch on success and empty on failure. |
| `MainRefresh.Tick` | src/main.rs:42-49 | Less than `UPDATE_RATE` after the last refresh, nothing changes. Otherwise the timer resets to now, whether or not the fetch succeeds. A successful fetch replaces the list wholesale and a failed one keeps it. |
| `MainRefresh.Outcome` | src/main.rs:43 | A run of repaints gives a final state exactly when it satisfies `NeverBehind`, the run-level no-panic condition. |
| `MainRefresh.PanicsExactlyWhenBehind` | src/main.rs:43-44 | A run panics exactly when some repaint, reached without a panic, reads a clock earlier than the timer the repaints before it left. The clock may step back as long as it stays at or after the last refresh. |
| `MainRefresh.BehindStartPanics` | src/main.rs:43 | A run with any repaint whose clock reads earlier than the timer's start value panics. |
| `MainRefresh.Run` | src/main.rs:42-49 | The final state of a run that does not panic. The timer only moves forward and is never later than the last repaint's clock. |
| `MainRefresh.MonotoneClockNeverBehind` | src/main.rs:43 | A clock that never runs backwards from the timer's start never makes a repaint panic. |
| `MainRefresh.ClockMayStepBack` | src/main.rs:43 | Repaints at 1 s, 1.5 s and then 1.2 s after a start at 0 run without a panic although the clock stepped back. |
| `MainRefresh.FetchResults` | src/main.rs:45-48 | There are as many fetch results as fetch times. |
| `MainRefresh.FetchIndices` | src/main.rs:43-45 | The positions of the repaints that call the fetch, all within the run. |
| `MainRefresh.FetchIndicesIncrease` | src/main.rs:43-45 | Fetch positions are listed in strictly increasing order. |
| `MainRefresh.NeverBehindPrefix` | src/main.rs:43 | Every prefix of a run without a panic is itself without a panic. |
| `MainRefresh.FetchIndicesExact` | src/main.rs:43-45 | A repaint fetches exactly when at least `UPDATE_RATE` has passed since the timer the repaints before it left. Every prefix of a run without a panic is itself without a panic. |
| `MainRefresh.FetchesAt` | src/main.rs:43-48 | The `k`-th fetch time and the `k`-th fetch result both belong to the repaint at the `k`-th fetch index: its clock and what its fetch returned. |
| `MainRefresh.FetchesSpaced` | src/main.rs:43-44 | The first fetch comes at least one `UPDATE_RATE` after the timer was reset, and each later fetch at least one `UPDATE_RATE` after the previous one. |
| `MainRefresh.SpacedPairwise` | src/main.rs:43-44 | In a spaced sequence of fetch times, every time is at least `UPDATE_RATE` after its predecessor. |
| `MainRefresh.TimerIsLastFetch` | src/main.rs:43-44 | After a run, the timer holds the time of the last fetch, or its start value if no repaint fetched. |
| `MainRefresh.FetchCountBounded` | src/main.rs:43-49 | A run makes at most one fetch per `UPDATE_RATE` of elapsed time. |
| `MainRefresh.ShownIsFetched` | src/main.rs:43-48 | The shown list is the result of the last successful fetch call of the run, or the start-up list if none succeeded. Repaints that did not fetch play no part. |
| `MainRefresh.FailuresKeepList` | src/main.rs:45-48 | When every fetch in a run fails, the shown list stays what it was. |

## Left out

- egui layout, fonts (`configure_fonts`), `request_repaint` and the separator
  between trains are presentation. Colours are kept only as the `Tone` tag of a
  `LibLabels.Label`.
- HTTP fetching (`ureq`, `reqwasm`) and serde JSON decoding are foreign code.
  A fetch is an `Option<seq<Train>>` input.
- The polling thread's timing (`thread::sleep` of 15 s), `spawn_local` and
  the `gloo_timers` interval are concurrency. Only the consumer's sequential
  view of the channel is modelled: an interleaving of fetch and repaint events.
- The wasm build: it starts with an empty list (equivalent to
  `LibHub.New(None)`), and its fetch panics on a failed request.
- A failed `send` would panic in the thread. It cannot happen while the app
  holds the receiver.
- The wall clock (`Utc::now`, `SystemTime::now`) is passed in as a number.
  `MainRefresh.Tick` requires `updated <= now`, because `elapsed()` fails
  when the clock is behind the timer and the source's `expect` turns that
  into a panic. `MainRefresh.Outcome` gives `None` for a run where that
  happens, and the run lemmas assume no such repaint (`NeverBehind`).
- A repaint reads the clock once. The source reads it a second time at
  `src/main.rs:44` to reset the timer, a few instructions later. The model
  resets the timer to the first reading.
- The unused `app_tx` `sync_channel(1)`, `Msg::Refresh`, the `updated` field of
  the library app, and `TrainError` with its `todo!()` `Display` are never
  reached by the logic.
- The `Train` fields `train_id`, `destination`, `departure_station` and
  `normal_run_time` are decoded but never read.
- Labels drawn before a panic in the same frame are not modelled: the panic
  ends the app, so the frame is just `Err`.
