# Watchface display state, modelled in Dafny

A model of the Pebble watchface in `src/watchface.c`. The watchface shows the
time, the date, a battery gauge with a charging bolt, a Bluetooth-disconnected
icon, the day's step count and the weather (city, temperature, icon). Its state
lives in static globals, and the platform's event handlers update it. The
model turns those globals into the class `Watchface.WatchState`, with one
method per handler. The selections the handlers make are pure functions with
lemmas about them:

- the battery gauge geometry;
- the icon-code table;
- the all-or-nothing weather update;
- the 30-minute request cadence;
- the step label.

The C library routines the handlers call have their own modules. `CStrings`
covers reading a NUL-terminated buffer, `snprintf` with `%s` into a fixed
buffer, and `%d`. `TimeFormat` covers `strftime` with the ISO C99 conversions
`%A`, `%B`, `%e` and `%M` (section 7.23.3.5) and the GNU/BSD `%l`, in the "C"
locale.

Platform effects are recorded, not performed:

- `pulses` counts double-pulse vibrations;
- `outbox` lists the dictionaries sent;
- `dirty` holds the surfaces marked for repaint.

The clock reading, the health service's step total, the battery and
connection peeks and the received dictionary are all parameters.

Behaviours of the source worth noting:

- Every `bluetooth_callback(false)` vibrates, including the startup peek. The
  vibration is not limited to a connected-to-disconnected transition.
- `%l` and `%e` pad with a space. So 09:05 on Tuesday 2 January shows
  `" 9:05"` and `"Tuesday, January  2"` (lemma `MorningOfJanuarySecond`).
- The icon is re-resolved after every received message, complete or not.
- The step label's goal is the literal `10000`. It does not follow
  `step_goal`, although that variable is never changed either.

## Model

| member | source | states |
|---|---|---|
| `CStrings.CString` | src/watchface.c:291-299 | the C string read from a tuple is the prefix of its bytes before the first NUL, and holds no NUL |
| `CStrings.Snprintf` | src/watchface.c:291-299 | `snprintf(buf, size, "%s", s)` stores the first min(len, size-1) bytes of the C string s, a NUL-free prefix of it, so it always fits the size-byte buffer with its NUL |
| `CStrings.SnprintfIdempotent` | src/watchface.c:279-280 | copying a stored buffer into a buffer of the same size reproduces it, so repeating a copy changes nothing |
| `CStrings.SnprintfFits` | src/watchface.c:291-299 | a NUL-free string shorter than the buffer is copied whole |
| `CStrings.Digits` | src/watchface.c:188 | the digits of `%d` are decimal digits, at least one, with no leading zero |
| `CStrings.DigitsRoundTrip` | src/watchface.c:188 | reading the digits back gives the number |
| `CStrings.Decimal` | src/watchface.c:188 | `%d` is at least one byte, has no NUL, and starts with '-' exactly for a negative value; `DecimalRoundTrip` and `DecimalLength` give its value and length |
| `CStrings.DecimalRoundTrip` | src/watchface.c:188 | `%d` of any int, with its minus sign, reads back as that int |
| `CStrings.DigitsLength` | src/watchface.c:188 | a number has at most k digits exactly when it is below 10^k |
| `CStrings.DecimalLength` | src/watchface.c:188 | `%d` of n takes at most k bytes exactly when -10^(k-1) < n < 10^k |
| `TimeFormat.Hour12` | src/watchface.c:154 | the `%l` hour is in 1..12 and congruent to the 24-hour hour mod 12, so 0 and 12 both map to 12 |
| `TimeFormat.Expand` | src/watchface.c:153-158 | the bytes strftime writes for a format: conversions replaced, other bytes copied; no NUL appears unless the format has one, and the text is at least as long as the format; `ExpandConversion` and `ExpandText` state one step each |
| `TimeFormat.ExpandConversion` | src/watchface.c:153-158 | a `%` conversion expands to its text followed by the expansion of the rest of the format |
| `TimeFormat.ExpandText` | src/watchface.c:153-158 | any other byte is copied, followed by the expansion of the rest of the format |
| `TimeFormat.Strftime` | src/watchface.c:153-158 | strftime returns the expansion when it fits in size bytes with its NUL, and 0 (None) exactly when it does not; `ClockFits` and `DateFits` show the two calls always fit |
| `TimeFormat.ClockFits` | src/watchface.c:153-154 | `strftime(buf, 8, "%l:%M", t)` always succeeds with exactly five bytes |
| `TimeFormat.ClockRoundTrip` | src/watchface.c:154 | the clock text has a colon at index 2 and reads back as (12-hour hour, minute) |
| `TimeFormat.DateFits` | src/watchface.c:157-158 | `strftime(buf, 32, "%A, %B %e", t)` always succeeds with 14 to 23 bytes, so it is never truncated |
| `TimeFormat.DateRoundTrip` | src/watchface.c:158 | the date starts with the weekday name and ", ", and its space-padded last two characters read back as the day of the month |
| `TimeFormat.MorningOfJanuarySecond` | src/watchface.c:153-158 | 09:05 on Tuesday 2 January gives " 9:05" and "Tuesday, January  2" |
| `Watchface.BatteryGauge` | src/watchface.c:25-28 | the fill width is the C quotient percent/10, the number of whole tens for a charge that is not negative; `GaugeQuantised` places it inside the outline |
| `Watchface.GaugeQuantised` | src/watchface.c:25-28 | for 0..100 percent the fill is p/10 pixels (0 to 10, with 10·w <= p < 10·w+10), strictly inside the outline (128,1,14,9); the cap (142,3,1,5) sits on the outline's right edge |
| `Watchface.IconFor` | src/watchface.c:226-246 | the chain of `strcmp` tests: a selected resource is always the one whose code equals the string; `IconForInvertsIconCode` and `IconForUnknown` give both directions |
| `Watchface.ResolveIcon` | src/watchface.c:224-246 | the bitmap after load_icons changes only to the resource whose code is the stored string; `ResolveIconIdempotent` shows resolving twice changes nothing more |
| `Watchface.ResolveIconIdempotent` | src/watchface.c:224-246 | resolving the same code a second time keeps the bitmap |
| `Watchface.IconForInvertsIconCode` | src/watchface.c:226-246 | the strcmp chain selects resource i exactly for the code of i |
| `Watchface.IconForUnknown` | src/watchface.c:226-246 | a code selects nothing exactly when it is none of the ten codes |
| `Watchface.Receive` | src/watchface.c:283-302 | the weather state after a message: without all three keys the buffers keep their values; in every case the bitmap is re-resolved from the stored code, complete message or not; the lemmas below give the complete case, the bounds and idempotence |
| `Watchface.IncompleteResolves` | src/watchface.c:288-302 | a message missing a tuple changes only the bitmap, which becomes the resolution of the stored code |
| `Watchface.ReceiveAtomic` | src/watchface.c:283-300 | without all of keys 0, 1 and 2, city, temperature and icon all keep their values; with all three, each is its tuple's C string cut to at most 31 bytes |
| `Watchface.ReceiveSplitsCharacter` | src/watchface.c:291 | the cut counts bytes: a city of twenty two-byte "ö" (40 bytes, within the 96-byte inbox) keeps 31 bytes, ending in a lone UTF-8 lead byte |
| `Watchface.ReceiveBounded` | src/watchface.c:279-280 | after any message each weather buffer holds at most 31 bytes and no NUL, so it fits its 32-byte array with the terminating NUL |
| `Watchface.ReceiveSelectsIcon` | src/watchface.c:299-302 | for a complete message the bitmap is the one for the whole incoming code, or the previous bitmap if the code is unknown; the 31-byte cut never changes the choice |
| `Watchface.ReceiveIdempotent` | src/watchface.c:283-302 | a second identical message leaves the weather state as the first left it |
| `Watchface.IncompleteAfterReceive` | src/watchface.c:288-302 | after any message, an incomplete one changes nothing, although the icon is re-resolved |
| `Watchface.RequestsFor` | src/watchface.c:169-179 | a run of ticks sends at most one message per tick, and each is the dictionary {0: 0} |
| `Watchface.RequestsForConcat` | src/watchface.c:165-179 | the requests of consecutive runs of ticks concatenate, independent of what was sent before |
| `Watchface.RequestsOverTicks` | src/watchface.c:169 | n ticks from minute s send one request per multiple of 30 in s..s+n-1 |
| `Watchface.RequestsPerDay` | src/watchface.c:169 | 24 hours of minute ticks send exactly 48 requests, whatever minute they start at |
| `Watchface.HealthLabel` | src/watchface.c:188 | the label `snprintf` leaves in the 16-byte health buffer has at most 15 bytes and no NUL; `HealthLabelExact` and `HealthLabelShowsCount` say what of "<steps>/10000" it keeps |
| `Watchface.HealthLabelExact` | src/watchface.c:188 | the 16-byte label equals the whole "<steps>/10000" exactly when -10^8 < steps < 10^9 |
| `Watchface.HealthLabelShowsCount` | src/watchface.c:14 | for every 32-bit count the label has at most 15 bytes and starts with the whole count; only "/10000" can be cut |
| `Watchface.WatchState.constructor` | src/watchface.c:10-15 | the zero-initialised globals: empty buffers, no bitmap, percent 0, not charging, nothing sent |
| `Watchface.WatchState.UpdateTime` | src/watchface.c:147-163 | the time and date buffers hold the strftime texts of the clock reading |
| `Watchface.WatchState.Tick` | src/watchface.c:165-180 | refreshes the clock; appends exactly one {0: 0} request iff tm_min % 30 == 0, and nothing otherwise |
| `Watchface.WatchState.HealthHandler` | src/watchface.c:183-194 | only a movement update stores the step total, sets the label to HealthLabel and marks the progress line dirty; other events change nothing |
| `Watchface.WatchState.BluetoothCallback` | src/watchface.c:199-205 | the disconnected icon is hidden iff connected; the pulse count grows by one iff not connected, on every call |
| `Watchface.WatchState.BatteryHandler` | src/watchface.c:210-219 | stores the percent and charging = is_charging or is_plugged, and marks the gauge dirty |
| `Watchface.WatchState.BatteryUpdateProc` | src/watchface.c:20-32 | draws the gauge for the stored percent; the bolt is hidden iff not charging |
| `Watchface.WatchState.LoadIcons` | src/watchface.c:224-246 | the bitmap becomes the stored code's resource, or stays unchanged for an unknown code |
| `Watchface.WatchState.InboxReceived` | src/watchface.c:277-304 | the weather state becomes `Receive` of the old state and the message; from any state the handlers can reach (the bitmap already resolved from the stored code), a message missing a tuple changes nothing |
| `Watchface.WatchState.Init` | src/watchface.c:335-351 | the startup updates: clock shown, label for the step total, battery stored, icon hidden iff connected, and one pulse if the peek reports disconnected |

## Left out

- Window, layer, text-layer, font and bitmap creation, attachment and destruction (`main_window_load`, `main_window_unload`, the layer part of `load_icons`, `init`'s subscriptions, `deinit`, `main`): platform API calls with no logic of their own. `load_icons` creates a new bitmap layer on every call, and a new bitmap whenever the code is one of the ten, without freeing the old ones. The model keeps only which resource the current bitmap shows, so it does not capture these leaks.
- `health_update_proc`: the progress line's end point `step_count/step_goal*144` is computed in `double`. It has no clamp, so counts above 10000 draw past the 144-pixel width. Floating point is not modelled.
- `line_update_proc`: two fixed lines with no state.
- `inbox_dropped_callback`, `outbox_failed_callback`, `outbox_sent_callback` and `app_message_open`: they only log or configure the channel. Whether a send succeeds is platform I/O. The inbox is opened with 96 bytes, so the platform drops a larger dictionary before `inbox_received_callback` sees it; `InboxReceived` accepts messages of any size, which covers every message that does arrive. The outbox records every send attempt, including a failed `app_message_outbox_begin`.
- The clock source (`time`, `localtime`) and `health_service_sum_today`: their results are parameters. A tuple's value is modelled as a string, which is the type the companion app sends. Reading a non-string tuple through `->value->cstring` is not modelled.
- Every C `char` array is a sequence of bytes (`CStrings.byte`, a character below 256). The phone's texts are UTF-8, so one displayed character can be several bytes, and the 31-byte cut of a city or temperature can split one; the model keeps such a split as the bytes C keeps. How the font renders a stray byte is not modelled.
- `src/js/app.js`: network requests, geolocation and JSON parsing on the companion phone.
- `step_count` is a `double` in the source. It only ever holds a 32-bit step total, which converts to double and back exactly, so the model stores an int.
