# Indoor/outdoor temperature monitor — colour selection and poll timing

A Dafny model of the logic in `code.py`, a loop that runs on an LED matrix
board. It shows the indoor temperature from a local sensor and the outdoor
temperature from a weather service. Each number is coloured hot, neutral or
cold, and the display dims at night. Once the board and network calls are
treated as inputs and emitted commands, the core is pure integer logic:

- `Classifier` buckets a temperature as Hot, Neutral or Cold. It uses strict
  thresholds that depend on the unit system and on whether the reading is
  indoor or outdoor.
- `Palette` holds the day and dimmed palettes as RGB triples, the dim decision
  (`now > sunset || now < sunrise`), and the `"#rrggbb"` text form the program
  passes to the display.
- `Numerals` models the decimal text of a temperature. The program writes
  `str(int(...))` and later parses the indoor text back with `int(...)`.
- `Weather` holds the weather record and the stale-value fallback of
  `callWeatherAPI`. A fetch outcome is an input.
- `Display` covers one render pass as a command sequence. Slots 4 and 5 get
  the temperature texts. Slots 1, 3, 5 get the outdoor colour and slots 0, 2, 4
  the indoor colour, in that order.
- `Poll` covers one loop tick: the strict `now > deadline` sync test, the
  one-hour deadline step, and the render. It also covers runs of many ticks.

The display's `set_text` / `set_text_color` calls are modelled as
`Display.Command` values. The clock, the time service, the weather service
and the sensor reading are fields of `Poll.Event`.

Facts about the program that shape the model:

- The program has no colour interpolation and no animated transition.
  Colours switch at once from one render to the next.
- A sensor error is not caught.
- The day/night decision uses the time-service timestamp from the last sync,
  not the current clock. Since the sync test is strict and the loop sleeps 20 s
  between ticks, it can be a little over an hour stale
  (`Poll.RenderIgnoresClockBetweenSyncs`).
- The units check `units is "imperial"` is modelled as string equality with
  `"imperial"`. Every other unit name takes the metric thresholds.

## Model

| member | source | states |
|---|---|---|
| Classifier.BandFor | code.py:137-166 | for every unit system and role, the cold threshold is below the hot threshold |
| Classifier.Classify | code.py:137-166 | Hot exactly when temp is above the high threshold, Cold exactly when it is below the low one, Neutral exactly on the closed range between |
| Classifier.ThresholdTable | code.py:137-166 | the literal thresholds: imperial outdoor >89 / <35, indoor >83 / <50; metric outdoor >31 / <2, indoor >26 / <-2, each as an if-and-only-if |
| Classifier.ImperialOutdoorBoundaries | code.py:139-144 | 89 and 35 are Neutral, 90 is Hot, 34 is Cold |
| Classifier.OtherUnitsAreMetric | code.py:137-166 | any unit name other than "imperial" classifies exactly as "metric" |
| Classifier.ClassifyMonotone | code.py:139-166 | a higher temperature never gets a colder bucket |
| Classifier.NoJumpFromColdToHot | code.py:139-166 | a Cold reading is below any Hot one, with a Neutral reading strictly between them |
| Palette.ShouldDim | code.py:123 | not dimmed exactly when sunrise <= now <= sunset; both endpoints use the day palette |
| Palette.PaletteLiterals | code.py:125-132 | the text forms of the six palette colours are #150201, #191919, #000719 (dim) and #d41c0f, #ffffff, #034eff (day) |
| Palette.HexRoundTrip | code.py:125-132 | reading back the "#rrggbb" text of any colour gives that colour |
| Palette.PaletteFor | code.py:123-132 | the chosen palette is the day palette, or when dimmed each day colour with every channel divided by ten (rounded down), bucket by bucket |
| Palette.Hex | code.py:125-132 | a colour's text is seven characters: '#' then six lower-case hexadecimal digits; HexRoundTrip and PaletteLiterals pin the digits |
| Palette.ColoursIdentifyBucketAndDim | code.py:125-132 | the six colours are distinct, so a colour tells both the bucket and whether the display is dimmed |
| Numerals.DecimalText | code.py:92 | the text of a temperature is non-empty and starts with '-' exactly when the value is negative; zero is "0" and otherwise the first digit is not '0', as Python's `str` writes it |
| Numerals.DecimalRoundTrip | code.py:119-121 | parsing the text of any integer gives that integer back |
| Numerals.ParseDecimal | code.py:121 | accepts exactly an optional '-' followed by one or more digits; a negative result comes from text starting with '-' |
| Numerals.NonNumericRejected | code.py:121 | "N/A", the empty text and a lone "-" do not parse |
| Weather.FallbackNeverBlanks | code.py:103-110 | once a weather value is held, a request never leaves the program without one |
| Weather.CallWeatherApi | code.py:103-110 | a failed request hands back the previous value unchanged; a successful one returns the fetched value |
| Display.DetermineColors | code.py:119-166 | fails exactly when the indoor text is not a number; otherwise exactly six colour assignments, to slots 1,3,5,0,2,4 in that order |
| Display.ColourOfEverySlot | code.py:123-166 | each assigned colour is the palette colour, for the dim decision, of the bucket of the reading that owns the slot (odd slots outdoor, even slots indoor) |
| Display.DispatchTouchesEachSlotOnce | code.py:134-166 | the pass touches slots 0 to 5, each exactly once and no other slot, outdoor slots first |
| Display.WriteTemperatures | code.py:169-171 | exactly two text writes: the indoor text to slot 4, then the outdoor text to slot 5, each an even or odd slot of its own role |
| Display.TextSlotsBelongToTheirRole | code.py:134-171 | indoor text slot 4 is an indoor colour slot and outdoor text slot 5 an outdoor one |
| Display.IndoorTextParsesBack | code.py:119-121 | the colour pass never fails on indoor text produced from an integer reading |
| Poll.ShouldRefetch | code.py:190 | a sync happens exactly when now is past the deadline; at the deadline itself there is none |
| Poll.Sync | code.py:188-193 | the deadline moves exactly when now > deadline, then to now + 3600; it never decreases and ends at or after now; a sync stores the time service's answer as the render timestamp; a failed fetch keeps the previous weather, a successful sync stores the fetched one |
| Poll.Tick | code.py:187-199 | a rendering tick keeps the synced state and emits a full frame: two text writes, then six colour assignments |
| Poll.TickCrashesExactlyWithoutWeather | code.py:190-199 | a tick stops the loop exactly when no weather value is held after its sync |
| Poll.TickRenders | code.py:195-199 | a rendering tick writes indoor text to slot 4 and outdoor text to slot 5, then the colour pass at the last synced timestamp |
| Poll.RenderIgnoresClockBetweenSyncs | code.py:188-199 | between syncs the clock reading does not change what is shown |
| Poll.FirstFetchFailureCrashes | code.py:174-197 | from the start state a tick stops the loop exactly when it does not sync or its fetch fails |
| Poll.SafeTick | code.py:187-199 | the corrected tick never stops the loop: it emits a full frame (two texts, six colours) exactly when a weather value is held and nothing otherwise |
| Poll.SafeTickAgreesWhenTickRenders | code.py:187-199 | once a weather value is held after the sync, the tick as written renders, and the corrected tick renders the same frame and state |
| Poll.Run | code.py:187-201 | a run's final state is that of its syncs alone, with one frame per tick |
| Poll.RunFrameIsTickFrame | code.py:187-201 | frame i of a run is exactly what tick i shows from the state the first i ticks left behind |
| Poll.FirstPositiveTickSyncs | code.py:176-190 | with the initial deadline 0, a tick syncs exactly when its clock is positive |
| Poll.RefetchesSpaced | code.py:188-191 | the first sync comes after the starting deadline, and consecutive syncs are more than 3600 s apart whatever the clock does |
| Poll.DeadlineCoversEveryTick | code.py:188-191 | after a run the deadline is at or beyond every clock reading seen and not below the starting one |
| Poll.HeldWeatherIsLatestFetch | code.py:103-110 | after a run the weather is the one fetched by the last tick that synced with a successful request, or the starting value if there is none; a held value is never lost |
| Poll.EveryFrameFullOnceWeatherHeld | code.py:187-199 | once a weather value is held, every later frame has two texts and six colours |

## Findings

| source | as written | input that shows it | evidently intended | confidence | as-written member | corrected member |
|---|---|---|---|---|---|---|
| code.py:174-197 | the weather object starts as `{}` and a failed request returns it unchanged, so `outdoor_temp_object['temp']` raises and the loop ends | the first tick (now > 0) whose weather request fails | a failed request keeps the last good value; with none yet, the display stays as it is and the loop keeps running | medium, not executed | Poll.FirstFetchFailureCrashes | Poll.SafeTick |

`Poll.Tick` models the loop as written; the `Crashed` result is the
uncaught `KeyError`. `Poll.Run` and the lemmas about it use the corrected
`Poll.SafeTick`.

## Left out

- Display setup, label texts and glyph positions (code.py:29-81): hardware configuration. This includes the "F"/"C" unit letters.
- Secrets loading (code.py:12-26): configuration I/O.
- URL building and HTTP requests in `callWeatherAPI` and `callTimeService` (code.py:94-117): network. The weather outcome is `Weather.Fetch`, and the time service's answer is an integer in `Poll.Event`. A failing time service raises uncaught in the program; that failure is not modelled.
- The URL printed before every request (code.py:102) and the error messages printed on a failed request (code.py:106-108): logging only.
- Sensor read and conversion in `sensor_data_stringified` (code.py:84-92, 180-182): hardware driver and floating point (`* 1.8 + 32`, `%0.0f`). The indoor temperature is an integer input, and only the final `str(...)` is modelled.
- `int(...)` truncation of the weather service's floating-point temperature (code.py:120, 197): temperatures are integers throughout.
- `time.time()` and `time.sleep(20)` (code.py:188, 201): real time. The clock is an integer field of each tick's input, and a run is a finite sequence of ticks rather than an endless loop.
- Numerals.ParseDecimal: accepts only an optional '-' followed by decimal digits. Python's `int` also accepts surrounding whitespace, a '+' sign and underscores. The only text the program parses is produced from an integer, so these forms never reach it.
- The start-up texts "la" and "Ho" (code.py:185): a one-off greeting shown before the first tick, with no logic to it.
- Identity comparison `units is "imperial"` (code.py:80, 85, 137): modelled as string equality.
