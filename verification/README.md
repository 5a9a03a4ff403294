# Serial air-quality listener: a Dafny model of one loop iteration

The system reads JSON objects that an Arduino air-quality sensor writes to a
serial port, stamps each with the local time, stores it as the latest
reading, appends it to a log file as one line and POSTs six of its fields to
a server. This project models the body of the listener loop in
`logdata.py` as a pure step function

    Step(parse, state, read) -> (state', effects)

where `state` is the accumulation buffer plus the latest reading, `read` is
one decoded chunk from the port together with what the outside world
answers during that iteration (the formatted time, whether the log write
succeeds, the HTTP status of the POST), and `effects` is the ordered trace
of what the iteration does: `SetLatest`, `LogLine`, `Send` (with its
classified delivery) and `ParseFailure` (the "Failed to parse JSON" report).
`Run` folds `Step` over a sequence of reads.

Modules:

- `Search` — `str.find` on a character, including Python's handling of a
  negative start (it counts from the end, so `find("}", -1)` still looks at
  the last character; this is why the loop guards `start != -1`).
- `Framing` — the frame extractor: `Extract` cuts the accumulated buffer at
  its first `{` and the first `}` after it. `IsFirstCut` describes the same
  cut declaratively (prefix without `{`, frame `{…}` with no inner `}`,
  remainder), and the lemmas show `Extract` returns exactly that cut, which
  is unique, and returns nothing exactly when no `{` precedes a `}`.
- `Sink` — the `Time` stamp, the six-field payload built with `dict.get`,
  and the classification of the POST (200 or 201 is success).
- `Listener` — events, the per-read environment, `Handle` (the inner `try`),
  `Step` and `Run`.
- `ListenerProperties` — the properties of one read and of whole runs.
- `Scenario` — a worked run: noise, a valid object, a malformed object and a
  second valid object over three reads, with a 503 answer to the first POST.

The JSON parser is a parameter `parse: string -> Option<Record>` (`None`
where `json.loads` raises); records are maps from field names to an
abstract JSON `Value`.

Three points of the code's behaviour are easy to misread:

- A log write that raises (`logdata.py:71`) does not end the listener: it is
  caught by the same handler as a parse failure (`logdata.py:85-86`). The
  latest reading has already been replaced by then, and nothing is sent.
  The trace for that case is `[SetLatest(r), ParseFailure(frame)]`.
- Only one frame is cut per read, and only on a non-empty read: frames that
  arrive together wait in the buffer for later reads (see
  `Scenario.SecondRead`, where a complete object stays buffered).
- An empty read skips the pause as well (`continue` at `logdata.py:53`);
  pacing is not modelled.

A consequence of the extraction rule worth knowing: a frame never contains
a `}` before its last character, so a nested JSON object is always cut at
its first inner `}` and the fragment is reported as a parse failure.

## Model

| member | source | states |
|---|---|---|
| `Search.IndexFrom` | logdata.py:58-59 | the result is -1 exactly when the character does not occur from the start position on; otherwise it is the position of its first occurrence there |
| `Search.Find` | logdata.py:58-59 | `str.find` with a possibly negative start: -1 exactly when no occurrence lies at or after the normalised start, otherwise the first such occurrence |
| `Search.MissedStartStillFinds` | logdata.py:58-60 | in every non-empty buffer without `{` that ends in `}`, the `{` search gives -1, yet searching `}` from -1 finds the last character, so the `start != -1` guard is what stops extraction |
| `Framing.Extract` | logdata.py:57-62 | when a frame is cut, prefix, frame and remainder rebuild the buffer, the prefix holds no `{`, the frame is `{…}` with no other `}`, and the remainder is shorter than the buffer |
| `Framing.ExtractsIffHasFrame` | logdata.py:57-60 | a frame is extracted if and only if some `{` in the buffer is followed by a `}` |
| `Framing.FirstCutUnique` | logdata.py:58-62 | two cuts that both satisfy the first-frame description are equal |
| `Framing.ExtractIsFirstCut` | logdata.py:57-62 | `Extract` returns `Some(c)` if and only if `c` is the first-frame cut of the buffer |
| `Sink.Stamp` | logdata.py:66-67 | the stamped record has `Time` set to the given time, the original keys plus `Time`, and every other field unchanged |
| `Sink.Payload` | logdata.py:75-82 | the payload has exactly the six sensor keys, never `Time`; each maps to the record's value when the record has that key and to null when it does not (`dict.get`) |
| `Sink.PayloadIgnoresTime` | logdata.py:67-82 | stamping a record does not change its payload |
| `Sink.Classify` | logdata.py:25-32 | a delivery is a success if and only if the status is 200 or 201; a raised request is the unreachable case; other statuses are kept as rejections |
| `Listener.Handle` | logdata.py:63-86 | handling a frame leaves the buffer alone, accounts for exactly one frame, changes the latest reading only for a parsed frame, and yields just the failure report exactly when parsing fails |
| `Listener.Step` | logdata.py:51-62 | an empty read changes nothing and has no effects; otherwise the new buffer is a suffix of the old buffer plus the chunk, and at most one frame is handled |
| `ListenerProperties.EffectsIffFrame` | logdata.py:55-62 | a non-empty read has effects if and only if the accumulated buffer holds a `{` followed by a `}`; without effects the buffer is old buffer plus chunk |
| `ListenerProperties.NothingExtracted` | logdata.py:55-60 | with no `}`, no `{`, or no `}` after the first `{`, the read has no effects and the buffer becomes old buffer plus chunk |
| `ListenerProperties.StepCutsFirstFrame` | logdata.py:57-64 | a read that completes a frame leaves as buffer the remainder of the first-frame cut, strictly shorter than the accumulated buffer, with one frame accounted for, reported as a failure exactly when it does not parse |
| `ListenerProperties.FailedFrameIsDropped` | logdata.py:62-64 | an unparseable frame yields one failure report, no log line and no send; the buffer keeps only what followed it, and every later buffer is a suffix of that remainder plus later input |
| `ListenerProperties.ParsedFrameEffects` | logdata.py:63-86 | a parsed frame sets the latest reading to the stamped record, then logs it once, then sends its payload once; when the log write fails, the failure report follows the update and nothing is sent |
| `ListenerProperties.DeliveryDoesNotMatter` | logdata.py:21-32 | the server's answer changes neither the new state nor any effect other than the recorded delivery |
| `ListenerProperties.RunDeliveryDoesNotMatter` | logdata.py:48-89 | over any run, the server's answers change neither the final state nor the handling of later records |
| `ListenerProperties.RunBufferIsSuffix` | logdata.py:55-62 | after any run, the buffer is a suffix of the initial buffer followed by everything read |
| `ListenerProperties.AtMostOneFramePerRead` | logdata.py:48-62 | over any run, the frames handled never outnumber the non-empty reads |
| `ListenerProperties.SplitReadIsWholeRead` | logdata.py:51-62 | a chunk after which the buffer still holds no `{` followed by a `}` has no effects, and the next read then acts exactly like one read of both chunks |
| `Scenario.FirstRead` | logdata.py:55-83 | noise, a valid object and a malformed one in one read: the valid object is handled and the rest stays buffered |
| `Scenario.SecondRead` | logdata.py:55-64 | the malformed frame is reported and dropped while the completed object after it stays buffered |
| `Scenario.ThirdRead` | logdata.py:55-83 | a bare line ending lets the buffered object through |
| `Scenario.NoiseBadFrameAndOutage` | logdata.py:48-89 | the three reads in sequence, with a 503 answer to the first POST: both valid records are logged and sent, the malformed frame is reported once |

## Left out

- Opening the serial port, `readline` and UTF-8 decoding with replacement (logdata.py:41-44, 51): device I/O; each read is an already decoded string.
- Writing the log file and the HTTP POST (logdata.py:26, 46, 71): they appear only as `LogLine` and `Send` events; whether the write raises and what the server answers are inputs.
- `json.loads` and `json.dumps` (logdata.py:64, 71): library code; parsing is the `parse` parameter and a log line carries the record itself.
- Formatting the current time (logdata.py:66): the formatted string is an input.
- The thread, the lock and the keep-alive loop (logdata.py:9-10, 68-69, 91-98): concurrency and process lifetime; updating the shared reading is the `SetLatest` event.
- `time.sleep` and the outer read-error handler (logdata.py:87-89): pacing and I/O error reporting, with no effect on the buffer.
- Console output (logdata.py:28-32, 72, 86, 88): only the failure report and the delivery classification are kept, as events.
- Sink.Payload: the payload is a map, so the key order of the posted JSON body is not modelled.
- Listener.Handle: the only exception modelled after parsing is a failing log write; printing and stamping are taken not to raise.
