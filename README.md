# Sensor tick and reading log, modelled in Dafny

This project models the two stateful pieces of the IoT health-monitor system:

- the ESP32 firmware's global state and polling loop (`Iot_30/src/main.cpp`):
  the BLE connect/disconnect callbacks that flip `deviceConnected`, the
  device-name write that only accepts a non-empty value, and `loop()`, which
  runs a 10000 ms timer over the 32-bit `millis()` counter and, when the timer
  fires, sends an environment notification (both DHT readings are numbers and a
  central is connected) and a heart-rate notification (a central is connected,
  the MAX30105 re-initialises and its infrared count is strictly above 50000)
  whose payload is the decimal text of the count;
- the backend's in-memory reading log (`backend_api/src/readings/readings.service.ts`):
  `create` appends a `{ value, data }` record and returns it, `findlatest`
  answers the last record or `{ message: 'no data yet' }`.

Modules:

- `Wrappers` — `Option`, used for a reading that may be NaN and for parsing.
- `Decimal` — the decimal text of a `long` as Arduino's `String(long)` renders
  it, a parser for such text, and both round trips.
- `Firmware` — class `Device` (`previousMillis`, `deviceConnected`,
  `deviceName`) with the callbacks and `Loop`; `UpToNul` is what a C-string
  conversion keeps of a written name; the function `TickOutput` says
  which notifications a tick emits, and the lemmas state the gates.
- `Readings` — class `ReadingsService` holding the log as a `seq`, with
  `Create` and `FindLatest`, specified through `LatestOf`.

Inputs that come from hardware or the runtime are parameters: the value of
`millis()`, the DHT temperature and humidity (`None` stands for NaN), the
result of `particleSensor.begin(...)`, the infrared count from `getIR()`, the
value written to the name characteristic, and the time `new Date()` would give.

## Model

| member | source | states |
|---|---|---|
| Decimal.Digits | Iot_30/src/main.cpp:129 | the digits of a count are non-empty, all decimal digits, with no leading zero |
| Decimal.ToDecimal | Iot_30/src/main.cpp:129 | `String(irValue)`: a negative value renders as '-' followed by canonical digits, any other as canonical digits alone; ParseToDecimal and PositiveIsCanonical state its round trip and the unsigned form of every sent count |
| Decimal.ParseDigitsOfDigits | Iot_30/src/main.cpp:129 | reading the digit text of n back gives n |
| Decimal.DigitsOfParseDigits | Iot_30/src/main.cpp:129 | every canonical digit string is the rendering of the value it reads as (the other direction of the round trip) |
| Decimal.ParseToDecimal | Iot_30/src/main.cpp:129 | parsing the signed decimal text of any integer yields that integer |
| Decimal.ToDecimalInjective | Iot_30/src/main.cpp:129 | distinct counts give distinct payload texts |
| Decimal.PositiveIsCanonical | Iot_30/src/main.cpp:128-129 | the text of a positive count has no sign and no leading zero |
| Firmware.ElapsedSince | Iot_30/src/main.cpp:111 | `currentMillis - previousMillis` on `unsigned long` is the plain difference without wrap and the difference plus 2^32 across a wrap |
| Firmware.Fires | Iot_30/src/main.cpp:111 | the timer test holds iff `now - prev >= 10000` without a wrap, and iff `now + 2^32 - prev >= 10000` across one; tied to real time by FiresIffIntervalPassed |
| Firmware.ElapsedAcrossWrap | Iot_30/src/main.cpp:106-111 | with clock readings taken modulo 2^32, the unsigned difference equals the real elapsed time whenever less than 2^32 ms passed |
| Firmware.FiresIffIntervalPassed | Iot_30/src/main.cpp:106-111 | the timer fires iff at least 10000 ms really passed since the last firing, also across a `millis()` wrap |
| Firmware.Device.constructor | Iot_30/src/main.cpp:27 | power-on state: disconnected (line 27) and `previousMillis` 0 (line 106) |
| Firmware.Device.OnConnect | Iot_30/src/main.cpp:30 | sets `deviceConnected`; timer and name unchanged |
| Firmware.Device.OnDisconnect | Iot_30/src/main.cpp:31 | clears `deviceConnected`; timer and name unchanged |
| Firmware.UpToNul | Iot_30/src/main.cpp:38 | `String(value.c_str())` keeps the longest NUL-free prefix of the value: a prefix, without NUL, stopped only by a NUL or the end |
| Firmware.UpToNulNoNul | Iot_30/src/main.cpp:38 | a value containing no NUL is kept whole |
| Firmware.LeadingNulEmptiesName | Iot_30/src/main.cpp:37-38 | a non-empty value that starts with NUL passes the emptiness test yet yields an empty name |
| Firmware.Device.OnNameWrite | Iot_30/src/main.cpp:35-38 | a non-empty value (by its full length) sets the device name to the value up to its first NUL, so a NUL-free value exactly; an empty one changes nothing; timer and connection unchanged |
| Firmware.Device.Loop | Iot_30/src/main.cpp:109-136 | `previousMillis` becomes the clock reading iff the timer fired and is otherwise unchanged; the notifications sent are `TickOutput` of the tick; none when the timer did not fire or nothing is connected |
| Firmware.TickOutput | Iot_30/src/main.cpp:116-134 | at most two notifications; none unless the timer fired and a central is connected; an environment notification only with both readings, carrying them; a heart-rate one only when the sensor began and the count exceeds 50000, carrying its decimal text; both directions of each gate in EnvSentIff and HrSentIff |
| Firmware.SilentWhenNotFired | Iot_30/src/main.cpp:111-135 | a tick whose timer does not fire emits nothing |
| Firmware.SilentWhenDisconnected | Iot_30/src/main.cpp:116-134 | while disconnected no notification of either kind is emitted |
| Firmware.EnvSentIff | Iot_30/src/main.cpp:116-124 | the environment notification is sent iff the timer fired, both readings are numbers and a central is connected; it carries those readings and is sent first |
| Firmware.HrSentIff | Iot_30/src/main.cpp:126-134 | the heart-rate notification is sent iff the timer fired, a central is connected, the sensor began and the count exceeds 50000; its payload is the decimal text of the count |
| Firmware.ThresholdSendsNothing | Iot_30/src/main.cpp:128 | a count of exactly 50000 sends no heart-rate notification |
| Firmware.HrPayloadRoundTrip | Iot_30/src/main.cpp:127-131 | a sent heart-rate payload is an unsigned canonical digit string and parses back to the count |
| Readings.LatestOf | backend_api/src/readings/readings.service.ts:13-16 | the answer is the "no data yet" message iff the log is empty, and otherwise its last record |
| Readings.ReadingsService.constructor | backend_api/src/readings/readings.service.ts:5 | the log starts empty |
| Readings.ReadingsService.Create | backend_api/src/readings/readings.service.ts:6-12 | returns a record holding the posted value and the given time, and the new log is the old one with exactly that record appended |
| Readings.ReadingsService.FindLatest | backend_api/src/readings/readings.service.ts:13-16 | answers `LatestOf` the log and changes nothing |
| Readings.LatestAfterAppend | backend_api/src/readings/readings.service.ts:6-16 | right after a record is appended, the latest record is that one |

## Left out

- BLE stack setup, services, characteristics and advertising in `setup()` and the `deinit`/`init` rebuild after a name write: vendor calls with no logic of their own; `OnNameWrite` models only the name update.
- The JSON text of the environment payload (`makePayload`, `%.2f`/`%.1f` formatting, the `millis()` timestamp) and the heat index: floating-point formatting and a library formula; `EnvNotify` carries the two readings instead.
- The sensor drivers (DHT reads, MAX30105 `begin`/`setup`/`getIR`) and `Serial`: their results are parameters of `Loop`; `getIR()` returns an unsigned 32-bit count that the source stores in a `long`, and the model takes the `long`.
- The side effect of calling `particleSensor.begin(...)` on every tick whose timer fires while a central is connected (`Iot_30/src/main.cpp` lines 111 and 126): only its boolean result is modelled.
- Firmware.Device.constructor: `deviceName` has no declaration or initial value in `main.cpp`, so the initial name is a constructor parameter.
- A null `hrCharacteristic` (sensor absent at `setup()` but present later) is not modelled: notifications are values, not calls on a characteristic.
- Connection callbacks run asynchronously to `loop()` on the device; here they are sequential method calls between ticks.
- Readings.ReadingsService.Create: the JavaScript `number` is modelled as a `real` and `new Date()` as an integer time passed in; NaN and infinities are not modelled.
- The readings controller, the users service and controller, the Mongoose schema, the module wiring and the Flutter build file: routing, persistence and configuration, not logic of the two cores.
