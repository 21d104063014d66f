# DSM501 dust-sensor engine and DS1307 clock codec in Dafny

This project models two parts of the AirQ firmware:

- the DSM501 dust-concentration engine (`DSM501.cpp`, `DSM501.h`);
- the register codec of the DS1307 real-time-clock driver (`DS1307.cpp`, `DS1307.h`), together with the digit packing of the serial `T` command in `AirQ.cpp`.

It proves properties of both models.

**The DSM501 engine** times the low pulses of two sensor channels, PM10 (index 0) and PM2.5 (index 1). For each channel it:

- accepts pulses 10 to 90 ms long;
- adds their widths to a window total on wrapping `uint32_t` arithmetic;
- closes the window after 60 s, or when the millisecond clock wraps below the window start;
- pushes each closed window's total into a ten-slot ring buffer with a running sum;
- stores the sliding average of the last ten totals as a low-time percentage.

`getLowRatio` divides that ratio by a calibration coefficient. `getParticalWeight` feeds it to the datasheet cubic, clamped at zero. `getAQI` maps the difference of the two channels' weights through a breakpoint table, with −1 as the sentinel.

The model is split into four parts:

- Module `Dsm501Channel` states one channel as a value: pulse timing, window closure, the ring buffer. It proves that any sequence of polls, reads and restarts keeps the ring equal to the last ten window totals, with the stored ratio equal to their sliding average.
- Module `Dsm501Sensor` holds class `Dsm501`, with the source's per-channel arrays as array fields. Each method is proved to move the channel it touches exactly as the channel functions say, and to leave the other channel unchanged.
- Module `AirQuality` holds the regression and the AQI table. It proves that the weight is non-negative and monotone, that the AQI is monotone, and exactly when the sentinel −1 appears.
- Module `Ds1307` states the register image of `setDateTimeBCD`, the decoding of `parseData` and the text of `makeStr` over bytes 0–255. It proves the encode/decode round trip, and the year range that does not survive it.

Module `Bits` supplies `uint32_t` wrap-around and the bitwise `&` and `|` on naturals.

Inputs the firmware reads from hardware become parameters: `millis()` is a `now: U32` argument, and `digitalRead` results are `Level` arguments.

Three behaviours of the code are worth stating outright:

- **AQI channel order.** `getAQI` subtracts `getParticalWeight(1)` from `getParticalWeight(0)`, i.e. PM10 weight minus PM2.5 weight, although the variable is named `P25Weight` (`DSM501.cpp:130`). `AirQuality.ChannelOrder` shows that the order decides between −1 and a real index.
- **A pulse starting at t = 0.** A start stamp of 0 doubles as "no pulse recorded" (`DSM501.cpp:64`, `DSM501.cpp:72`), so a timing channel can hold stamp 0. A pulse that starts at t = 0 is therefore never counted (`Dsm501Channel.PulseAtZeroLost`). An idle channel always has stamp 0 (`ChannelOk`), but a zero stamp does not imply an idle channel.
- **The first AQI row.** It is `0 <= d <= 15.4`. The gap (15.4, 15.5] and negative differences give −1 (`AirQuality.AqiSentinel`).

## Model

| member | source | states |
|---|---|---|
| Bits.SubAfterAdd32 | DSM501.cpp:73-75 | wrap-tolerant `now - start` recovers a pulse width even across a `uint32_t` wrap of the millisecond counter |
| Dsm501Channel.InitialChannel | DSM501.cpp:11-21 | the constructor's per-channel state (idle, zero stamps and totals, zero ring, NaN ratio) is well formed |
| Dsm501Channel.SignalBegin | DSM501.cpp:62-67 | a falling edge at or after the window start starts timing with the stamp `now`; before the window start nothing changes; no other field changes |
| Dsm501Channel.SignalEnd | DSM501.cpp:70-80 | a rising edge makes the channel idle with no stamp; the total grows (mod 2^32) by exactly the pulse's contribution: its wrap-tolerant width when a stamp exists and the width is within 10..90 ms, else 0; no other field changes |
| Dsm501Channel.Poll | DSM501.cpp:48-52 | one channel's branch of `update`: idle+high and timing+low leave the channel unchanged; only state, stamp and total can change |
| Dsm501Channel.PulseMeasured | DSM501.cpp:47-80 | a low pulse polled from t0 to t1, with t0 non-zero and not before the window start, adds `t1 - t0` (wrapping) to the total exactly when that width is accepted |
| Dsm501Channel.PulseAtZeroLost | DSM501.cpp:72 | a pulse stamped at time 0 never reaches the total |
| Dsm501Channel.CloseWindow | DSM501.cpp:95-109 | closing advances the counter by one, writes the total into slot `counter % 10`, leaves every other slot, restarts the window at `now` with a zero total, and changes no timing field |
| Dsm501Channel.ReadWithinWindow | DSM501.cpp:87-95 | a read less than 60 s after the window start, without a wrap, changes nothing |
| Dsm501Channel.ReadClosesElapsed | DSM501.cpp:90-95 | a read 60 s or more after the window start, or after the clock wrapped below it, closes the window |
| Dsm501Channel.Scaled | DSM501.cpp:111 | the returned ratio times the coefficient is the stored ratio; NaN stays NaN |
| Dsm501Channel.CloseKeepsSlotSum | DSM501.cpp:96-99 | the running sum stays equal to the sum of the ring's slots modulo 2^32 across a closure |
| Dsm501Channel.SlotZeroFirstWritten | DSM501.cpp:96 | the pre-increment makes the first closure write slot 1; slot 0 stays 0 until the tenth closure writes the tenth total there |
| Dsm501Channel.InitialMatches | DSM501.cpp:11-21 | the constructed channel is the filter state of zero closed windows |
| Dsm501Channel.CloseKeepsFilter | DSM501.cpp:95-109 | a closure moves a channel matching totals `h` to one matching `h + [total]`: slots hold the latest total written to each, the sum is the last ten totals mod 2^32, the ratio is their sliding average |
| Dsm501Channel.ReadKeepsFilter | DSM501.cpp:86-112 | `getLowRatio` keeps the ring in step with the closed windows' totals, and the ratio it leaves is their sliding average (NaN before any closure) |
| Dsm501Channel.SteadyAverage | DSM501.cpp:101-105 | with the same total t in every window, the ratio is t·100/60000 after any number of closures; the divisor switches from the closure count to 10 without a jump |
| Dsm501Channel.Step | DSM501.cpp:47-112 | every public operation (poll, read, restart) keeps a channel well formed |
| Dsm501Channel.Run | DSM501.cpp:86-112 | over any interleaving of polls, reads and restarts, the ring holds the last ten totals of the windows closed so far and the ratio is their sliding average |
| Dsm501Channel.RunFromStart | DSM501.cpp:7-22 | from the constructor's state, any run leaves a well-formed channel whose ratio is the sliding average of the windows it closed |
| AirQuality.Weight | DSM501.cpp:120-122 | the weight is NaN exactly when the ratio is; otherwise it is non-negative, at least the regression, and either the regression or 0 |
| AirQuality.RegressionIncreasing | DSM501.cpp:121 | the datasheet cubic is strictly increasing on all reals |
| AirQuality.WeightMonotone | DSM501.cpp:121-122 | a higher ratio never gives a lower clamped weight |
| AirQuality.Delta | DSM501.cpp:130 | the weight difference is NaN exactly when either weight is |
| AirQuality.Aqi | DSM501.cpp:128-151 | the index is never below −1 |
| AirQuality.AqiFitsInt16 | DSM501.cpp:128-146 | for a NaN difference or one below 32768, the index lies in −1..32767 and so fits the target's 16-bit `int`, the last row's `500 + (int)(d - 500)` included |
| AirQuality.AqiSentinel | DSM501.cpp:128-149 | the index is −1 if and only if the difference is NaN, negative, or in (15.4, 15.5] |
| AirQuality.AqiBand | DSM501.cpp:131-146 | each table row yields an index between its own base and the next row's base |
| AirQuality.AqiMonotone | DSM501.cpp:131-146 | outside the sentinel cases, a larger difference never gives a smaller index, across row boundaries included |
| AirQuality.AqiExamples | DSM501.cpp:131-146 | difference 0 gives 0, 15 gives 48, 600 gives 600 |
| AirQuality.ChannelOrder | DSM501.cpp:130 | weights (PM10 5, PM2.5 20) give −1, weights (20, 5) give 48 |
| Dsm501Sensor.Dsm501.constructor | DSM501.cpp:7-22 | both pins stored and both channels in the initial state |
| Dsm501Sensor.Dsm501.ClearChannel | DSM501.cpp:12-20 | one pass of the constructor loop puts channel i in the initial state, clearing its ten slots one by one, and leaves the other channel |
| Dsm501Sensor.Dsm501.Begin | DSM501.cpp:25-33 | installs the default coefficient and restarts both windows at `now`, changing nothing else of either channel |
| Dsm501Sensor.Dsm501.Reset | DSM501.cpp:36-39 | restarts both windows at `now`, keeping totals, ring and ratios |
| Dsm501Sensor.Dsm501.SetCoeff | DSM501.cpp:41-44 | stores the coefficient and returns it; `getCoeff` then returns it |
| Dsm501Sensor.Dsm501.GetCoeff | DSM501.h:42-44 | returns the stored coefficient |
| Dsm501Sensor.Dsm501.SignalBegin | DSM501.cpp:62-67 | channel i moves as `Dsm501Channel.SignalBegin`; the other channel is untouched |
| Dsm501Sensor.Dsm501.SignalEnd | DSM501.cpp:70-80 | channel i moves as `Dsm501Channel.SignalEnd`; the other channel is untouched |
| Dsm501Sensor.Dsm501.Update | DSM501.cpp:47-59 | each channel moves as `Poll` with its own level, neither branch disturbing the other channel |
| Dsm501Sensor.Dsm501.GetLowRatio | DSM501.cpp:86-112 | channel i moves as `ReadRatio`, the other is untouched, and the result is the stored ratio divided by the coefficient |
| Dsm501Sensor.Dsm501.CloseWindowAt | DSM501.cpp:95-109 | the in-place closure on the arrays is `CloseWindow` on channel i, leaving the other channel |
| Dsm501Sensor.Dsm501.GetParticalWeight | DSM501.cpp:115-123 | performs the read of `getLowRatio` and returns the clamped regression of its result |
| Dsm501Sensor.Dsm501.GetAQI | DSM501.cpp:126-152 | reads channel 0 then channel 1 (each as `ReadRatio`) and returns the table index of weight(0) − weight(1), at least −1 |
| Ds1307.Masked | DS1307.cpp:28-35 | a register field masked with `& mask` never exceeds the mask |
| Ds1307.HourRegister | DS1307.cpp:31-33 | the hour register is below 0x40 (the 12-hour flag is never set) and has bit 5 set exactly for PM |
| Ds1307.BcdByteDigits | DS1307.cpp:86 | `BCD_Byte(x, h, 0xf)` is the low nibble plus ten times the high nibble cut to the tens mask |
| Ds1307.BcdByteOfDigits | DS1307.cpp:86 | a byte with digit nibbles t ≤ h and u ≤ 9 decodes to 10t + u |
| Ds1307.HourModeBits | DS1307.cpp:87-100 | the mode is 24-hour iff bit 6 is set, PM iff bit 6 is clear and bit 5 set, AM iff both are clear |
| Ds1307.Decode | DS1307.cpp:90-106 | every decoded field lies within what its masks allow, and the mode is one of AM, PM or 24-hour |
| Ds1307.Clock.ParseData | DS1307.cpp:90-106 | the eight fields become the decoding of the seven register bytes |
| Ds1307.Clock.SetDateTimeBCD | DS1307.cpp:25-35 | the seven-byte image holds each argument under its mask and the hour with the PM bit, the day-of-week byte unassigned |
| Ds1307.FieldRoundTrip | DS1307.cpp:28-35 | a two-digit value whose BCD fits the mask and tens bits survives masking and decoding |
| Ds1307.HourRoundTrip | DS1307.cpp:31-33 | an hour below 20 decodes back to itself, and the mode to PM exactly when pm was given |
| Ds1307.RegisterRoundTrip | DS1307.cpp:25-35 | decoding the image of BCD arguments returns the seconds, minutes, hour, date, month, year and AM/PM choice, within the ranges the masks keep |
| Ds1307.YearHighBitLost | DS1307.cpp:28 | years 80–99 lose bit 7 to the 0x7f mask and decode 80 lower |
| Ds1307.PackDigits | AirQ.cpp:160-166 | two ASCII digits packed as `(hi - '0') << 4 \| (lo - '0')` are the BCD byte of the number they spell |
| Ds1307.PackedFieldReads | AirQ.cpp:167-178 | a seconds or minutes field typed as two digits, packed and sent through `setDateTimeBCD`, decodes back to the number typed |
| Ds1307.Pad2Reads | DS1307.cpp:81 | `%02d` of a value below 100 is two digit characters that read back as the value |
| Ds1307.Suffix | DS1307.cpp:83 | the suffix is empty (24-hour) or two characters |
| Ds1307.FormatLayout | DS1307.cpp:81-83 | the text is fourteen characters of fields and separators at fixed positions, each field reading back as its value, followed by the suffix |
| Ds1307.DecodePrints | DS1307.cpp:78-106 | every field that `parseData` can decode prints at its position and reads back |
| Ds1307.Clock.MakeStr | DS1307.cpp:78-84 | with two-digit fields, the text has the fields at fixed positions reading back as the fields, then the mode's suffix |

## Left out

- The I2C transfers of the DS1307 driver (`Wire`), `readRawData`, `updateDateTime` and both `debug` dumps: they are hardware I/O. `MakeStr` prints the fields last decoded instead of reading the chip first.
- `millis()`, `digitalRead` and `pinMode`: hardware inputs become the parameters `now` and `level`, and pin configuration is not modelled.
- One `now` per call: the source reads `millis()` more than once in `signal_begin` (`DSM501.cpp:63-64`), `begin` and `reset` (one read per channel), `update` (each channel's `signal_begin`/`signal_end` reads the clock itself, `DSM501.cpp:63-64`, `DSM501.cpp:71`) and `getAQI` (each of its two `getLowRatio` calls reads it, `DSM501.cpp:87`, `DSM501.cpp:130`). The model gives each call a single timestamp. `update` reads each pin once per branch test; the model takes one level per channel.
- The default arguments `pin10 = A3, pin25 = A2` of the constructor and `i = 0` of `getLowRatio` and `getParticalWeight` (`DSM501.h:31`, `DSM501.h:36-37`) are not modelled: every argument is explicit.
- Interrupt-driven edge timing and concurrency between interrupt and loop contexts are not modelled: this engine polls.
- IEEE-754 `double` rounding, `pow`, and infinities are not modelled. Ratios and weights are exact reals, and NaN is the `Double.NaN` case.
- Dsm501Sensor.Dsm501.GetLowRatio: requires a coefficient of at least 1. The source divides by `(double)_coeff` and would yield an infinity or NaN for 0, which this model's `Double` does not represent. The same applies to GetParticalWeight and GetAQI.
- Dsm501Sensor.Dsm501.GetLowRatio: requires `_saf_idx` below 2^32 − 1. Its wrap-around (after about 8000 years of one-minute windows) is not modelled; the same holds for CloseWindowAt, GetParticalWeight, GetAQI and `Dsm501Channel.CloseWindow`.
- AirQuality.Aqi: the index is an unbounded integer, while the AVR target's `int aqi` and `(int)` casts are 16 bits wide (`DSM501.cpp:128-146`). From a difference of 32768 on, the source's `500 + (int)(d - 500)` overflows (and from 33268 the cast itself is out of range, which C++ leaves undefined). There the model's index, `aqi >= -1`, AqiSentinel and AqiMonotone do not describe the source; AqiFitsInt16 proves that below 32768 every index fits.
- Dsm501Sensor.Dsm501.GetAQI: returns `Aqi` of the weight difference, so the same 16-bit limit applies: its result describes the source only for differences below 32768.
- The persistent storage of `dsm501_coeff` and the serial calibration command are outside the engine. `DefaultCoeff` is the initial value of the global.
- The constructor leaves `_coeff` uninitialised, as the source does; the model states nothing about it until `Begin`.
- The `memset` of the constructor is modelled as a loop storing zero into each of the ten slots.
- Ds1307.RegisterRoundTrip: stated for seconds and minutes below 80, hours below 20, dates below 40, months below 20 and years below 80. These are the ranges whose BCD survives the masks; years 80–99 are covered by YearHighBitLost.
- Ds1307.PackedFieldReads: stated for the seconds and minutes fields. The other fields follow from FieldRoundTrip and HourRoundTrip with their own masks.
- The rest of `AirQ.cpp` (LCD, SD logging, DHT sensor, command dispatch) is application glue; only the digit packing of the `T` command is modelled.
