# RH-USB to AWS IoT bridge, modelled in Dafny

`src/rhaws.js` is a small Node.js script that polls an RH-USB humidity and
temperature sensor on a serial port and publishes every reading to an AWS IoT
topic. This project models its two parts and proves what they do.

**Frame decoding** (`processReading`, module `Frame`). A line read from the
sensor is trimmed with ECMAScript's `trim`. The model writes out the exact set
of WhiteSpace and LineTerminator code points that `trim` removes. Next, every
`>` is deleted and the rest is split on `,`. Field 0 is the humidity and
field 1 the temperature, both kept verbatim as text. No line is ever rejected.
A line without a comma gives an undefined temperature, modelled as `None`.

**Payload** (module `Telemetry`). The published record is
`{time, temperature, humidity}`, in that key order. `ToJson` gives the text
that `JSON.stringify` produces for it. That text leaves out the `temperature`
key when the value is undefined. `FromJson`, a reader that accepts the keys
only in that order, reads every such text back.

**Event loop** (module `Bridge`, class `Bridge.Bridge`). The script's state is
modelled as a class with three fields:

- `writes`: the strings given to `port.write`;
- `armed`: the timers armed by `setTimeout` that have not fired yet;
- `published`: the messages given to `device.publish`.

A ghost `trace` records every effect in the order it happens. The event
methods are `OnConnect`, `OnLine`, `OnTimerFire` and `OnClose`. Time is an
input: `now` is the ISO-8601 text of the timestamp taken when a line arrives.
A timer firing is an event. The object invariant `Valid()` states these
facts:

- every write is `"PA\r\n"`;
- every write comes from a `connect` event or a timer;
- every publication goes to `"nuc/temperature"`;
- every publication comes right after the arming of one 3000 ms timer.

Publishing does not depend on the connection state: the `close` handler only
logs.

Some of the code's behaviour differs from what a bridge of this kind is
usually expected to do. This model follows the code:

- There is no malformed-frame error. A line with fewer than two fields is
  published with humidity only.
- There is no connection-state gate. Lines are published before `connect`,
  between `close` and the next `connect`, and at any other time.
- Only `>` is removed. `">45,22<"` decodes to humidity `"45"` and temperature
  `"22<"` (`Frame.ClosingMarkerKept`).
- Each `connect` event writes a poll, even when a poll cycle is already
  running. After a reconnect, one more cycle runs beside the others
  (`Bridge.Bridge.CyclesInFlight`, `Bridge.Bridge.CloseThenReconnect`).
- Every line arms a timer, whether or not it answers a poll. A line the
  sensor sends unasked therefore also starts a poll cycle of its own.

## Model

| member | source | states |
|---|---|---|
| `Frame.TrimStart` | src/rhaws.js:60 | the result is a suffix of the line, and it is empty or does not start with whitespace |
| `Frame.TrimStartDrops` | src/rhaws.js:60 | everything removed in front of that suffix is whitespace |
| `Frame.TrimEnd` | src/rhaws.js:60 | the result is a prefix of the line, and it is empty or does not end with whitespace |
| `Frame.TrimEndDrops` | src/rhaws.js:60 | everything removed behind that prefix is whitespace |
| `Frame.Trim` | src/rhaws.js:60 | `trim()` gives a text that is empty or neither starts nor ends with whitespace |
| `Frame.TrimInfix` | src/rhaws.js:60 | what `trim()` keeps is the infix of the line that starts right after its leading whitespace, with nothing but whitespace before and after it |
| `Frame.StripMarkers` | src/rhaws.js:60 | `replace(/>/g,'')` leaves no `>` anywhere, interior included, and does not change a line without one |
| `Frame.StripMarkersCount` | src/rhaws.js:60 | exactly the `>` characters are removed: the length drops by their count, and every other character keeps its count |
| `Frame.StripMarkersAppend` | src/rhaws.js:60 | marker removal works character by character (it distributes over concatenation), so the order of the kept characters is preserved |
| `Frame.Split` | src/rhaws.js:62 | `split(',')` gives at least one field, no field holds a comma, and joining the fields with commas gives back the text |
| `Frame.SplitCount` | src/rhaws.js:62 | there is one field more than the text has commas |
| `Frame.SplitJoin` | src/rhaws.js:62 | splitting undoes joining for comma-free fields, so the fields of a line are uniquely determined |
| `Frame.Clean` | src/rhaws.js:60 | the cleaned line holds no `>` and is no longer than the raw line |
| `Frame.Decode` | src/rhaws.js:58-64 | humidity and temperature hold no `>` and no comma; the temperature is absent exactly when the cleaned line has no comma, and no line fails |
| `Frame.DecodeFields` | src/rhaws.js:60-64 | humidity is exactly the cleaned text before the first comma (all of it when there is none); temperature is exactly the text between the first and second commas; later fields are ignored |
| `Frame.DecodeFrame` | src/rhaws.js:58-64 | a frame of leading `>` markers, humidity, comma, temperature and trailing whitespace (such as the CR the line reader leaves) decodes to exactly those two fields |
| `Frame.CleanAfterMarker` | src/rhaws.js:60 | after a leading `>`, only trailing whitespace is trimmed: trimming runs before marker removal |
| `Frame.MarkerShieldsWhitespace` | src/rhaws.js:60 | whitespace exposed by deleting a leading `>` is kept in the cleaned line |
| `Frame.StripThenTrimDropsWhitespace` | src/rhaws.js:60 | the opposite order of the two steps would drop that whitespace, so the order is observable |
| `Frame.MarkerThenSpace` | src/rhaws.js:60-64 | `"> 45,22"` decodes to humidity `" 45"` and temperature `"22"` |
| `Frame.ClosingMarkerKept` | src/rhaws.js:60-64 | `">45,22<"` decodes to humidity `"45"` and temperature `"22<"`: `<` is not stripped |
| `Telemetry.PayloadOf` | src/rhaws.js:59-70 | the payload is stamped with the arrival time; humidity and temperature hold no `>` and no comma; the temperature is undefined exactly when the cleaned line has no comma |
| `Telemetry.ToJson` | src/rhaws.js:113 | `JSON.stringify(payload)` gives a text framed by `{` and `}`; `Telemetry.FromJsonToJson` shows it determines the payload |
| `Telemetry.FromJsonToJson` | src/rhaws.js:113 | the JSON text of a payload lists `time`, `temperature` and `humidity` in the order of the object literal at src/rhaws.js:66-70, leaves out an undefined temperature, and reads back to the same payload |
| `Telemetry.PayloadPlain` | src/rhaws.js:59-70 | a line whose trimmed text, and a timestamp whose text, has no quote, backslash or control character yields a payload that `ToJson` serializes |
| `Bridge.PairedAppend` | src/rhaws.js:65-66 | joining two traces in which each armed timer is directly followed by a publication keeps that pairing |
| `Bridge.Bridge.constructor` | src/rhaws.js:29-44 | once the port is open and the device exists, nothing has been written, armed or published: the first poll waits for `connect` |
| `Bridge.Bridge.ReadRHUSB` | src/rhaws.js:75-77 | `readRHUSB` appends exactly one `"PA\r\n"` to the port writes and changes nothing else |
| `Bridge.Bridge.Publish` | src/rhaws.js:112-116 | `publish` hands the payload to the sink on topic `"nuc/temperature"`, with no connection check, and changes nothing else |
| `Bridge.Bridge.OnConnect` | src/rhaws.js:100-103 | each `connect` event writes exactly one poll command, arms nothing and publishes nothing, keeping the invariant |
| `Bridge.Bridge.OnLine` | src/rhaws.js:52-71 | each line arms exactly one timer for 3000 ms and then publishes exactly one message: the decoded fields, stamped with the arrival time; nothing is written to the port |
| `Bridge.Bridge.OnTimerFire` | src/rhaws.js:65-77 | a firing timer is used up and writes exactly one poll command, publishing nothing |
| `Bridge.Bridge.OnClose` | src/rhaws.js:105-107 | `close` changes no state: nothing is published, written or cancelled |
| `Bridge.Bridge.CyclesInFlight` | src/rhaws.js:65-77 | poll writes minus publications plus armed timers always equals the number of `connect` events so far; when every line answers an earlier poll, that is unanswered polls plus armed timers |
| `Bridge.Bridge.CloseThenReconnect` | src/rhaws.js:100-107 | after a `close`, a reading is still published, and the next `connect` writes one more poll while the timer that reading armed is still running, which adds one poll cycle beside the running ones |

## Left out

- The serialport and aws-iot-device-sdk objects are not modelled (src/rhaws.js:29-40, 84-90). The model starts once the port is open and the device object exists.
- The port-open failure, the key-file failure and `process.exit` are not modelled (src/rhaws.js:33-35, 91-94). They are foreign I/O at start-up.
- The `open` and `error` handlers of the port are not modelled (src/rhaws.js:42-48). They only log.
- Console logging is not modelled anywhere. It has no behaviour beyond output.
- The newline-delimited line reader is not modelled (src/rhaws.js:31). `OnLine` receives a line that is already split off. A trailing CR is covered by `Frame.DecodeFrame`.
- `setTimeout` timing and `new Date().toISOString()` are not modelled. The timestamp is the input `now`, and a timer fire is an event.
- Telemetry.ToJson: defined only for payloads whose text has no quote, backslash or control character. The escaping `JSON.stringify` applies to other text is not modelled, so published messages hold the payload record itself.
- Bridge.Bridge.OnTimerFire: requires an armed timer, because a timer that was never armed cannot fire.
- Delivery by `device.publish` (acknowledgement, queueing inside the SDK, reconnection) is not modelled. The sink is opaque, and the script has no retry or reconnect policy of its own.
