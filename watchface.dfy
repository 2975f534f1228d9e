/** The watchface of src/watchface.c: the selections it computes from its
    display state (battery gauge, weather icon, weather update, request
    cadence, step label) and, in class WatchState, its static globals with
    one method per platform event handler. */
module Watchface {
  import opened Wrappers
  import opened CStrings
  import opened TimeFormat

  type uint8 = x: int | 0 <= x < 0x100
  type int32 = x: int | -0x8000_0000 <= x < 0x8000_0000

  // ---------------------------------------------------------------------
  // Battery gauge (battery_update_proc)

  datatype Rect = Rect(x: int, y: int, w: int, h: int)

  /** What battery_update_proc draws: the outline, the charge fill and the
      terminal cap. */
  datatype Gauge = Gauge(outline: Rect, fill: Rect, cap: Rect)

  /** C's `/` on int: the quotient truncated toward zero. */
  function CQuotient(a: int, b: int): int
    requires b > 0
  {
    if a >= 0 then a / b else -((-a) / b)
  }

  /** The gauge drawn for a charge: the fill is the charge divided by ten
      in C, which for a charge that is not negative is the number of whole
      tens in it. */
  function BatteryGauge(percent: int): (g: Gauge)
    ensures percent >= 0 ==> 10 * g.fill.w <= percent < 10 * g.fill.w + 10
  {
    Gauge(Rect(128, 1, 14, 9), Rect(130, 3, CQuotient(percent, 10), 5), Rect(142, 3, 1, 5))
  }

  /** For a charge of 0 to 100 percent the fill is one pixel per whole ten
      percent (0 to 10 pixels), lies strictly inside the outline, and the
      cap sits on the outline's right edge. */
  lemma GaugeQuantised(percent: int)
    requires 0 <= percent <= 100
    ensures var g := BatteryGauge(percent);
      && 0 <= g.fill.w <= 10
      && 10 * g.fill.w <= percent < 10 * g.fill.w + 10
      && g.outline.x < g.fill.x && g.fill.x + g.fill.w < g.outline.x + g.outline.w
      && g.outline.y < g.fill.y && g.fill.y + g.fill.h < g.outline.y + g.outline.h
      && g.cap.x == g.outline.x + g.outline.w && g.cap.y == g.fill.y && g.cap.h == g.fill.h
  {
  }

  // ---------------------------------------------------------------------
  // Weather icons (load_icons)

  /** The weather bitmap resources, one per icon code. */
  datatype WeatherIcon =
    | ClearSkyDay | ClearSkyNight | Rain | Snow | Sleet
    | Wind | Fog | Cloudy | PartlyCloudyDay | PartlyCloudyNight

  function IconCode(icon: WeatherIcon): string {
    match icon
    case ClearSkyDay => "clear-day"
    case ClearSkyNight => "clear-night"
    case Rain => "rain"
    case Snow => "snow"
    case Sleet => "sleet"
    case Wind => "wind"
    case Fog => "fog"
    case Cloudy => "cloudy"
    case PartlyCloudyDay => "partly-cloudy-day"
    case PartlyCloudyNight => "partly-cloudy-night"
  }

  /** The resource load_icons' chain of `strcmp` tests selects for a code,
      or None when no test matches. */
  function IconFor(code: string): (r: Option<WeatherIcon>)
    ensures r.Some? ==> IconCode(r.value) == code
  {
    if code == "clear-day" then Some(ClearSkyDay)
    else if code == "clear-night" then Some(ClearSkyNight)
    else if code == "rain" then Some(Rain)
    else if code == "snow" then Some(Snow)
    else if code == "sleet" then Some(Sleet)
    else if code == "wind" then Some(Wind)
    else if code == "fog" then Some(Fog)
    else if code == "cloudy" then Some(Cloudy)
    else if code == "partly-cloudy-day" then Some(PartlyCloudyDay)
    else if code == "partly-cloudy-night" then Some(PartlyCloudyNight)
    else None
  }

  /** Each code selects its own resource and nothing else does: the table
      is the inverse of IconCode. */
  lemma IconForInvertsIconCode(code: string, icon: WeatherIcon)
    ensures IconFor(code) == Some(icon) <==> code == IconCode(icon)
  {
  }

  /** A code outside the ten selects nothing. */
  lemma IconForUnknown(code: string)
    ensures IconFor(code) == None <==> forall icon: WeatherIcon :: code != IconCode(icon)
  {
    if IconFor(code) == None {
      forall icon: WeatherIcon ensures code != IconCode(icon) {
        IconForInvertsIconCode(code, icon);
      }
    } else {
      IconForInvertsIconCode(code, IconFor(code).value);
    }
  }

  /** The bitmap after load_icons: the selected resource, or the current
      bitmap left in place when the code is unknown. */
  function ResolveIcon(code: string, current: Option<WeatherIcon>): (r: Option<WeatherIcon>)
    ensures r != current ==> r.Some? && IconCode(r.value) == code
  {
    match IconFor(code)
    case Some(icon) => Some(icon)
    case None => current
  }

  // ---------------------------------------------------------------------
  // Inbound weather (inbox_received_callback)

  const KeyCity: int := 0
  const KeyTemp: int := 1
  const KeyIcon: int := 2

  /** Size of city_buf, temp_buf and icon_buf. */
  const WeatherBufferSize: nat := 32

  /** A received dictionary: the bytes of each tuple's C string, by key. */
  type Inbox = map<int, seq<byte>>

  /** The weather part of the display state: city_buf, temp_buf, icon_buf
      and the resource s_weather_bitmap was created from (None for NULL). */
  datatype Weather = Weather(city: seq<byte>, temp: seq<byte>, icon: seq<byte>, bitmap: Option<WeatherIcon>)

  /** What the 32-byte buffers can hold: at most 31 bytes without a NUL,
      leaving room for the terminating NUL. */
  predicate Bounded(w: Weather) {
    && |w.city| < WeatherBufferSize && '\0' !in w.city
    && |w.temp| < WeatherBufferSize && '\0' !in w.temp
    && |w.icon| < WeatherBufferSize && '\0' !in w.icon
  }

  predicate Complete(msg: Inbox) {
    KeyCity in msg && KeyTemp in msg && KeyIcon in msg
  }

  /** inbox_received_callback: the three buffers are overwritten only when
      all three tuples are present; the icon is resolved in every case. */
  function Receive(w: Weather, msg: Inbox): (r: Weather)
    ensures !Complete(msg) ==> r.city == w.city && r.temp == w.temp && r.icon == w.icon
    ensures r.bitmap == ResolveIcon(r.icon, w.bitmap)
  {
    var stored :=
      if Complete(msg) then
        Weather(Snprintf(WeatherBufferSize, msg[KeyCity]),
                Snprintf(WeatherBufferSize, msg[KeyTemp]),
                Snprintf(WeatherBufferSize, msg[KeyIcon]),
                w.bitmap)
      else w;
    stored.(bitmap := ResolveIcon(stored.icon, stored.bitmap))
  }

  /** The three fields change together or not at all; when they change,
      each holds its tuple's C string cut to at most 31 bytes. */
  lemma ReceiveAtomic(w: Weather, msg: Inbox)
    ensures var r := Receive(w, msg);
      && (!Complete(msg) ==> r.city == w.city && r.temp == w.temp && r.icon == w.icon)
      && (Complete(msg) ==>
            && |r.city| == Min(|CString(msg[KeyCity])|, 31) && r.city == CString(msg[KeyCity])[..|r.city|]
            && |r.temp| == Min(|CString(msg[KeyTemp])|, 31) && r.temp == CString(msg[KeyTemp])[..|r.temp|]
            && |r.icon| == Min(|CString(msg[KeyIcon])|, 31) && r.icon == CString(msg[KeyIcon])[..|r.icon|])
  {
  }

  /** The cut counts bytes, not characters: "ö" is the two UTF-8 bytes
      C3 B6, and a city of twenty of them (40 bytes, small enough for the
      96-byte inbox) keeps 31 bytes, fifteen whole "ö" followed by a lone
      lead byte C3. */
  lemma ReceiveSplitsCharacter(w: Weather, msg: Inbox)
    requires Complete(msg)
    requires msg[KeyCity] == seq(40, i => if i % 2 == 0 then 0xC3 as char else 0xB6 as char)
    ensures |Receive(w, msg).city| == 31
    ensures forall i :: 0 <= i < 30 ==> Receive(w, msg).city[i] == msg[KeyCity][i]
    ensures Receive(w, msg).city[30] == 0xC3 as char
  {
    CStringOfText(msg[KeyCity]);
  }

  /** A message missing a tuple leaves the buffers alone, but load_icons
      still runs and re-resolves the bitmap from the stored code. */
  lemma IncompleteResolves(w: Weather, msg: Inbox)
    requires !Complete(msg)
    ensures Receive(w, msg) == w.(bitmap := ResolveIcon(w.icon, w.bitmap))
  {
  }

  /** Whatever the previous state, the buffers hold what they can hold. */
  lemma ReceiveBounded(w: Weather, msg: Inbox)
    requires Bounded(w)
    ensures Bounded(Receive(w, msg))
  {
  }

  /** Cutting the icon string to 31 bytes never changes which bitmap a
      complete message selects: the bitmap is the one for the whole code,
      or the previous one when the code is unknown. */
  lemma ReceiveSelectsIcon(w: Weather, msg: Inbox)
    requires Complete(msg)
    ensures Receive(w, msg).bitmap == ResolveIcon(CString(msg[KeyIcon]), w.bitmap)
  {
  }

  /** Resolving again the code just resolved keeps the bitmap. */
  lemma ResolveIconIdempotent(code: string, current: Option<WeatherIcon>)
    ensures ResolveIcon(code, ResolveIcon(code, current)) == ResolveIcon(code, current)
  {
  }

  /** A second identical message leaves the state as the first left it. */
  lemma ReceiveIdempotent(w: Weather, msg: Inbox)
    ensures Receive(Receive(w, msg), msg) == Receive(w, msg)
  {
    var first := Receive(w, msg);
    if Complete(msg) {
      SnprintfIdempotent(WeatherBufferSize, msg[KeyIcon]);
    }
    ResolveIconIdempotent(first.icon, first.bitmap);
  }

  /** After any message, a message missing a tuple changes nothing at all:
      the unconditional re-resolution finds the bitmap already resolved. */
  lemma IncompleteAfterReceive(w: Weather, first: Inbox, msg: Inbox)
    requires !Complete(msg)
    ensures Receive(Receive(w, first), msg) == Receive(w, first)
  {
  }

  // ---------------------------------------------------------------------
  // Weather requests (tick_handler)

  /** The outbound dictionary: key 0 holding the uint8 value 0. */
  const WeatherRequest: map<int, int> := map[0 := 0]

  predicate RequestDue(minute: int) {
    minute % 30 == 0
  }

  /** The messages tick_handler sends for a run of ticks with these
      minutes, in order. */
  function RequestsFor(minutes: seq<int>): (sent: seq<map<int, int>>)
    ensures |sent| <= |minutes|
    ensures forall k :: 0 <= k < |sent| ==> sent[k] == WeatherRequest
  {
    if minutes == [] then []
    else
      var last := minutes[|minutes| - 1];
      RequestsFor(minutes[..|minutes| - 1]) + (if RequestDue(last) then [WeatherRequest] else [])
  }

  /** The requests of two runs of ticks, one after the other, are those of
      the first run followed by those of the second. */
  lemma {:induction false} RequestsForConcat(a: seq<int>, b: seq<int>)
    ensures RequestsFor(a + b) == RequestsFor(a) + RequestsFor(b)
    decreases |b|
  {
    if b != [] {
      var b' := b[..|b| - 1];
      assert (a + b)[..|a + b| - 1] == a + b';
      RequestsForConcat(a, b');
    } else {
      assert a + b == a;
    }
  }

  /** The minutes of n successive minute ticks starting at minute `start`. */
  function MinuteTicks(start: nat, n: nat): seq<int> {
    seq(n, i => (start + i) % 60)
  }

  /** The tick at absolute minute m (shown as m % 60) sends a request
      exactly when one more multiple of 30 has been reached. */
  lemma NextDue(m: nat)
    ensures (m + 30) / 30 - (m + 29) / 30 == if RequestDue(m % 60) then 1 else 0
  {
    assert (m % 60) % 30 == m % 30;
  }

  /** n ticks from minute `start` send one request per multiple of 30 among
      start, ..., start + n - 1. */
  lemma {:induction false} RequestsOverTicks(start: nat, n: nat)
    ensures |RequestsFor(MinuteTicks(start, n))| == (start + n + 29) / 30 - (start + 29) / 30
    decreases n
  {
    if n > 0 {
      var ticks := MinuteTicks(start, n);
      var m := start + n - 1;
      assert ticks[..n - 1] == MinuteTicks(start, n - 1);
      assert ticks[n - 1] == m % 60;
      var before := |RequestsFor(MinuteTicks(start, n - 1))|;
      assert |RequestsFor(ticks)| == before + (if RequestDue(m % 60) then 1 else 0);
      RequestsOverTicks(start, n - 1);
      NextDue(m);
    }
  }

  /** A day of minute ticks sends exactly 48 requests, whatever minute it
      starts at. */
  lemma RequestsPerDay(start: nat)
    ensures |RequestsFor(MinuteTicks(start, 24 * 60))| == 48
  {
    RequestsOverTicks(start, 24 * 60);
    assert (start + 1440 + 29) / 30 == (start + 29) / 30 + 48;
  }

  // ---------------------------------------------------------------------
  // Step label (health_handler)

  /** The health service's event kinds. */
  datatype HealthEvent =
    | SignificantUpdate | MovementUpdate | SleepUpdate | MetricAlert | HeartRateUpdate

  const HealthBufferSize: nat := 16

  /** health_buf after `snprintf(health_buf, 16, "%d/10000", steps)`; the
      goal in it is the literal 10000. */
  function HealthLabel(steps: int): (r: seq<byte>)
    ensures |r| < HealthBufferSize && '\0' !in r
  {
    Snprintf(HealthBufferSize, Decimal(steps) + "/10000")
  }

  /** The label is the whole "<steps>/10000" exactly when the count takes
      at most nine characters. */
  lemma HealthLabelExact(steps: int)
    ensures HealthLabel(steps) == Decimal(steps) + "/10000" <==> -100_000_000 < steps < 1_000_000_000
  {
    var full := Decimal(steps) + "/10000";
    assert '\0' !in full;
    CStringOfText(full);
    DecimalLength(steps, 9);
    assert Pow10(8) == 100_000_000 && Pow10(9) == 1_000_000_000;
  }

  /** For any 32-bit count the count itself is shown whole; only the
      "/10000" suffix can be cut. */
  lemma HealthLabelShowsCount(steps: int32)
    ensures |HealthLabel(steps)| <= 15
    ensures |Decimal(steps)| <= |HealthLabel(steps)|
    ensures HealthLabel(steps)[..|Decimal(steps)|] == Decimal(steps)
  {
    var full := Decimal(steps) + "/10000";
    assert '\0' !in full;
    CStringOfText(full);
    DecimalLength(steps, 11);
    assert Pow10(10) == 10_000_000_000 && Pow10(11) == 100_000_000_000;
  }

  // ---------------------------------------------------------------------
  // The display state and its event handlers

  /** Surfaces a handler marks dirty. */
  datatype Surface = BatteryIconLayer | HealthLineLayer

  /** The battery service's BatteryChargeState. */
  datatype ChargeState = ChargeState(percent: uint8, isCharging: bool, isPlugged: bool)

  /** The watchface's static globals. The platform effects the handlers
      request are recorded rather than performed: `pulses` counts double
      vibrations, `outbox` lists the dictionaries sent, `dirty` holds the
      surfaces marked for repaint. */
  class WatchState {
    var batteryPercent: int
    var charging: bool
    var stepCount: int
    var healthText: seq<byte>
    var timeText: seq<byte>
    var dateText: seq<byte>
    var city: seq<byte>
    var temp: seq<byte>
    var icon: seq<byte>
    var weatherBitmap: Option<WeatherIcon>
    var chargingIconHidden: bool
    var bluetoothIconHidden: bool
    var pulses: nat
    var outbox: seq<map<int, int>>
    var dirty: set<Surface>

    function WeatherNow(): Weather
      reads this`city, this`temp, this`icon, this`weatherBitmap
    {
      Weather(city, temp, icon, weatherBitmap)
    }

    /** What every handler keeps: each text fits its buffer, and the
        bitmap is already resolved from the stored icon code (load_icons
        runs after every change of the code). */
    ghost predicate Valid()
      reads this`batteryPercent, this`healthText, this`timeText, this`dateText
      reads this`city, this`temp, this`icon, this`weatherBitmap
    {
      && BuffersFit()
      && weatherBitmap == ResolveIcon(icon, weatherBitmap)
    }

    /** Each text fits its buffer. */
    ghost predicate BuffersFit()
      reads this`batteryPercent, this`healthText, this`timeText, this`dateText
      reads this`city, this`temp, this`icon, this`weatherBitmap
    {
      && 0 <= batteryPercent < 0x100
      && |healthText| < HealthBufferSize && '\0' !in healthText
      && (timeText == "" || |timeText| == 5)
      && |dateText| <= 23
      && Bounded(WeatherNow())
    }

    /** The zero-initialised statics, before init() runs. */
    constructor ()
      ensures Valid()
      ensures batteryPercent == 0 && !charging && stepCount == 0
      ensures healthText == "" && timeText == "" && dateText == ""
      ensures WeatherNow() == Weather("", "", "", None)
      ensures !chargingIconHidden && !bluetoothIconHidden
      ensures pulses == 0 && outbox == [] && dirty == {}
    {
      batteryPercent, charging, stepCount := 0, false, 0;
      healthText, timeText, dateText := "", "", "";
      city, temp, icon, weatherBitmap := "", "", "", None;
      chargingIconHidden, bluetoothIconHidden := false, false;
      pulses, outbox, dirty := 0, [], {};
    }

    /** The time and date buffers hold the clock reading `now`. */
    ghost predicate ShowsTime(now: Tm)
      requires now.Valid()
      reads this`timeText, this`dateText
    {
      timeText == ClockString(now) && dateText == DateString(now)
    }

    /** The step label shows the count `steps`. */
    ghost predicate ShowsSteps(steps: int)
      reads this`healthText
    {
      healthText == HealthLabel(steps)
    }

    /** update_time: formats the clock reading `now` into the time and date
        buffers; neither ever overflows. */
    method UpdateTime(now: Tm)
      requires Valid() && now.Valid()
      modifies this`timeText, this`dateText
      ensures Valid()
      ensures ShowsTime(now)
    {
      ClockFits(now);
      DateFits(now);
      timeText := Strftime(8, ClockFormat, now).value;
      dateText := Strftime(32, DateFormat, now).value;
    }

    /** tick_handler: refreshes the clock and sends one weather request
        exactly when the tick's minute is a multiple of 30. */
    method Tick(tickTime: Tm, now: Tm)
      requires Valid() && now.Valid()
      modifies this`timeText, this`dateText, this`outbox
      ensures Valid()
      ensures ShowsTime(now)
      ensures outbox == old(outbox) + RequestsFor([tickTime.min])
      ensures |outbox| == |old(outbox)| + (if tickTime.min % 30 == 0 then 1 else 0)
    {
      UpdateTime(now);
      assert [tickTime.min][..0] == [];
      if tickTime.min % 30 == 0 {
        outbox := outbox + [WeatherRequest];
      }
    }

    /** health_handler: only a movement update stores the day's step count,
        rewrites the label and marks the progress line dirty. */
    method HealthHandler(event: HealthEvent, stepsToday: int32)
      requires Valid()
      modifies this`stepCount, this`healthText, this`dirty
      ensures Valid()
      ensures event == MovementUpdate ==>
        && stepCount == stepsToday
        && ShowsSteps(stepsToday)
        && dirty == old(dirty) + {HealthLineLayer}
      ensures event != MovementUpdate ==>
        stepCount == old(stepCount) && healthText == old(healthText) && dirty == old(dirty)
    {
      if event == MovementUpdate {
        stepCount := stepsToday;
        healthText := Snprintf(HealthBufferSize, Decimal(stepCount) + "/10000");
        dirty := dirty + {HealthLineLayer};
      }
    }

    /** bluetooth_callback: the disconnected icon is hidden exactly when
        connected, and every disconnected report vibrates, whatever the
        previous state. */
    method BluetoothCallback(connected: bool)
      requires Valid()
      modifies this`bluetoothIconHidden, this`pulses
      ensures Valid()
      ensures bluetoothIconHidden == connected
      ensures pulses == old(pulses) + (if connected then 0 else 1)
    {
      bluetoothIconHidden := connected;
      if !connected {
        pulses := pulses + 1;
      }
    }

    /** battery_handler: stores the charge and whether the watch is charging
        or plugged in, and marks the gauge dirty. */
    method BatteryHandler(charge: ChargeState)
      requires Valid()
      modifies this`batteryPercent, this`charging, this`dirty
      ensures Valid()
      ensures batteryPercent == charge.percent
      ensures charging <==> charge.isCharging || charge.isPlugged
      ensures dirty == old(dirty) + {BatteryIconLayer}
    {
      batteryPercent := charge.percent;
      if charge.isCharging || charge.isPlugged {
        charging := true;
      } else {
        charging := false;
      }
      dirty := dirty + {BatteryIconLayer};
    }

    /** battery_update_proc: draws the gauge for the stored charge and
        hides the bolt icon exactly when not charging. */
    method BatteryUpdateProc() returns (g: Gauge)
      requires Valid()
      modifies this`chargingIconHidden
      ensures Valid()
      ensures g == BatteryGauge(batteryPercent)
      ensures chargingIconHidden == !charging
    {
      var batt := batteryPercent / 10;
      g := Gauge(Rect(128, 1, 14, 9), Rect(130, 3, batt, 5), Rect(142, 3, 1, 5));
      chargingIconHidden := !charging;
    }

    /** load_icons: replaces the bitmap when the stored code is known and
        leaves it in place otherwise. */
    method LoadIcons()
      requires BuffersFit()
      modifies this`weatherBitmap
      ensures Valid()
      ensures weatherBitmap == ResolveIcon(icon, old(weatherBitmap))
    {
      var selected := IconFor(icon);
      if selected.Some? {
        weatherBitmap := selected;
      }
    }

    /** inbox_received_callback: the weather state after a received
        dictionary. */
    method InboxReceived(msg: Inbox)
      requires Valid()
      modifies this`city, this`temp, this`icon, this`weatherBitmap
      ensures Valid()
      ensures WeatherNow() == Receive(old(WeatherNow()), msg)
      ensures !Complete(msg) ==> WeatherNow() == old(WeatherNow())
    {
      if KeyTemp in msg && KeyIcon in msg && KeyCity in msg {
        city := Snprintf(WeatherBufferSize, msg[KeyCity]);
        temp := Snprintf(WeatherBufferSize, msg[KeyTemp]);
        icon := Snprintf(WeatherBufferSize, msg[KeyIcon]);
      }
      LoadIcons();
    }

    /** The forced updates of init(): the clock, a movement update, the
        peeked battery state and the peeked connection, in that order.
        The weather, the outbox and the bolt icon are outside its frame, so
        they keep their values. */
    method Init(now: Tm, stepsToday: int32, charge: ChargeState, connected: bool)
      requires Valid() && now.Valid()
      modifies this`timeText, this`dateText, this`stepCount, this`healthText, this`dirty
      modifies this`batteryPercent, this`charging, this`bluetoothIconHidden, this`pulses
      ensures Valid()
      ensures ShowsTime(now)
      ensures stepCount == stepsToday && ShowsSteps(stepsToday)
      ensures batteryPercent == charge.percent
      ensures charging <==> charge.isCharging || charge.isPlugged
      ensures bluetoothIconHidden == connected
      ensures pulses == old(pulses) + (if connected then 0 else 1)
      ensures dirty == old(dirty) + {HealthLineLayer, BatteryIconLayer}
    {
      UpdateTime(now);
      HealthHandler(MovementUpdate, stepsToday);
      BatteryHandler(charge);
      BluetoothCallback(connected);
    }
  }
}
