# Simulator client, drive loop and dataset tool, modelled in Dafny

This project models the deterministic core of a self-driving-car trainer that
talks to a Unity "sdsim" simulator:

- **The simulator client** (`core/client.py`).
  - `replace_float_notation` is a hand-written matcher with the semantics of
    `re.finditer` for its two patterns, followed by Python's global
    `str.replace` (`FloatNotation`).
  - The framing and dispatch block of `proc_msg` is lifted out of its
    thread as pure functions (`Framing`).
  - The client is a class whose fields are the outbound one-message slot
    (`msg`), the socket log (`sent`), the `on_msg_recv` log (`received`),
    the telemetry snapshot (`img`, `data`) and `aborted`
    (`ProtocolClient.Client`).
  - The `send_*` builders are functions from their arguments to
    string-valued dicts (`Messages`).
- **The camera configuration request** (`core/camconf.py`, `CamConfig`).
- **The manual drive loop** (`controller.py`): a class with a `running`
  field and a tick method (`DriveController`).
- **The prediction post-processing** (`brain/brain.py`,
  `output_transformer`) over reals (`Brain`).
- **The dataset tool** (`dataset-spliter.py`, `DatasetSpliter`).
  - `extract` is a loop with its `label_head_is_defined` flag, proved
    against a line-by-line specification.
  - The labelling window is a class holding the cursor and a label array
    that `key_listener` updates in place.
  - `close` splits the rows by label.

Support modules:

- `Json`: Python dicts as ordered field lists.
- `PyText`: `str.find`, `rfind`, `split`, `join`, `replace`, `str(int)`
  and `os.path.join`.
- `Foreign`: `json.loads`, `json.dumps` and the base64/PIL image decoding,
  taken as oracles.
- `Wrappers`: `Option`.

Nothing talks to a socket. A received chunk is a string argument. Whether
the socket was readable or writable is a parameter. A hardware reading is
an element of a finite sequence.

Five behaviours of the code are stated as they are written:

- `on_msg_recv` builds its log line as `"got:" + j['msg_type']`, which
  raises unless the kind is a string. A parsed object whose `msg_type` is a
  number, a boolean or null therefore ends the receive loop: the pieces
  after it are not dispatched, no snapshot is taken, nothing is flushed and
  the client aborts (`Framing.DispatchRaisesExactly`, `Framing.BatchEndRaises`).
- A batch whose last parsed piece has no `msg_type` ends the receive loop
  when image conversion is on, even though the loop itself skipped that
  piece with only a warning (`Framing.RaiseExactly`).
- The new buffer keeps the last `}` of the cut (`Framing.ReframeKeepsBrace`).
- The example in the docstring of `replace_float_notation` has a space after
  each colon. The patterns do not admit the space, so that text comes back
  unchanged (`FloatNotationExamples.DocumentedUnchanged`). Text as the
  simulator writes it, `"x":1,2}`, is repaired
  (`FloatNotationExamples.EndOfObjectRepaired`).
- On `"x":1,2}` the mid-object pattern backtracks its greedy number group:
  the run `1,2` is followed by `}`, not `,`, so the group shrinks to `1`,
  whose replacement changes nothing. The end-of-object pattern then matches
  `1,2` whole and repairs it.

What a received chunk dispatches depends on where the socket splits the
stream, because messages are cut from the first `{` to the last `}` of the
buffer (see "## Findings"). The client keeps that framing as written;
`Framing.LineReframe` is the newline framing that the comment in `proc_msg`
describes, with the chunking independence proved. An image that fails to
decode ends the receive loop as any other exception does
(`Framing.RaiseExactly`).

## Model

| member | source | states |
|---|---|---|
| FloatNotation.ReplaceFloatNotation | core/client.py:31-50 | the result is the repair of the input (both patterns, mid-object first), has the input's length, and differs from it only where a `,` became `.` |
| FloatNotation.ApplyPattern | core/client.py:45-49 | the loop over one pattern's matches, each rebinding the string, yields that pattern's pass, which only turns commas into dots |
| FloatNotation.RepairedCommasToDots | core/client.py:44-50 | for every input, the repair keeps the length and changes only commas into dots |
| FloatNotation.NoCommaUnchanged | core/client.py:41-49 | when no number group matched by either pattern holds a comma, the text is returned unchanged |
| FloatNotation.NoNumberAfterKeyUnchanged | core/client.py:41-42 | when no `"name":` is directly followed by a number character, neither pattern matches and the text is unchanged |
| FloatNotation.MatchAt | core/client.py:41-42 | a match is `"`, a non-empty `[a-zA-Z_]` name, `":`, a non-empty run of `[0-9,E-]` and the terminator right after it |
| FloatNotation.LastTerm | core/client.py:41-42 | the greedy number group backtracks to the last position in its run that is followed by the terminator |
| FloatNotation.FindAll | core/client.py:45 | matches start at or after the search position, come in order, and each ends (terminator included) before the next starts |
| FloatNotation.FindAllSound | core/client.py:45 | every element `re.finditer` yields is a match of the pattern at its start |
| FloatNotation.FindAllComplete | core/client.py:45 | no match is skipped: every position where the pattern matches lies within a yielded match, from its start to its terminator |
| FloatNotation.Pass | core/client.py:45-49 | one pattern's pass: its matches are found in the text as it stood when the pass began, and each group is replaced everywhere by its dotted form, in match order (properties in `RepairedCommasToDots` and `NoCommaUnchanged`) |
| FloatNotation.Repaired | core/client.py:44-50 | the comma pattern's pass, then the brace pattern's pass over its result (properties in `RepairedCommasToDots`, `NoCommaUnchanged` and `NoNumberAfterKeyUnchanged`) |
| FloatNotationExamples.EndOfObjectRepaired | core/client.py:41-49 | `"x":1,2}` becomes `"x":1.2}`: the mid-object pattern finds only `1`, the end-of-object pattern then repairs `1,2` |
| FloatNotationExamples.DocumentedUnchanged | core/client.py:36-42 | the docstring example, with a space after each colon, is returned unchanged |
| Framing.ReframeWaits | core/client.py:231-235 | nothing is cut exactly when no `{` precedes a `}`, and then the buffer is the old buffer with the data appended |
| Framing.ReframeKeepsBrace | core/client.py:233-237 | after a cut, the new buffer is a suffix of buffer+data that starts with the last `}` and holds no other `}` |
| Framing.Reframe | core/client.py:231-237 | the buffer with the chunk appended is cut from its first `{` to its last `}`, split at newlines, and the new buffer starts at that `}`; nothing is cut unless a `{` precedes a `}` (properties in `ReframeWaits`, `ReframeKeepsBrace`, `ReframeCuts`, `ReframeLines`) |
| Framing.ReframeLines | core/client.py:236 | no piece of a cut holds a newline, so with `ReframeCuts` the pieces are exactly the lines of the cut text |
| Framing.LastParsed | core/client.py:238-251 | `j` after the loop: the last piece that parsed, with or without `msg_type`, and none for an empty batch (properties in `LastParsedAppend` and `SnapshotFromLastParsed`) |
| Framing.LineReframe | core/client.py:226-236 | corrected framing: every newline ends a message, the text up to the last newline is split into pieces and the newline-free rest waits in the buffer |
| Framing.LineReframeCovers | core/client.py:226-236 | newline framing loses nothing: the text is the pieces joined by newlines, a newline, then the new buffer |
| Framing.LineReframeSplitInvariant | core/client.py:226-237 | with newline framing, two chunks in turn give the pieces and the buffer of their concatenation in one chunk |
| Framing.LineDispatchSplitInvariant | core/client.py:226-258 | with newline framing, the same stream dispatches the same objects, and raises or not, however it is chunked; a raise in the first chunk ends the loop before the second |
| FramingExamples.BackToBackPieces | core/client.py:231-237 | two newline-free objects back to back form one piece in one chunk, and one piece each in two chunks |
| FramingExamples.BackToBackDispatch | core/client.py:231-258 | the same bytes dispatch nothing in one chunk and both objects in two, for a parser that rejects two objects back to back |
| FramingExamples.NestedSplitPieces | core/client.py:231-237 | a newline-terminated message ending in a nested object forms one piece in one chunk; split before its last `}`, it never forms a piece |
| FramingExamples.NestedSplitDispatch | core/client.py:231-258 | that message is dispatched from one chunk and lost from two |
| Framing.ReframeCuts | core/client.py:233-237 | after a cut, buffer+data is a `{`-free prefix, then the pieces joined by newlines (from a `{` to a `}`), then the new buffer after its `}`: nothing is lost |
| Framing.Decode | core/client.py:240-251 | pieces of at most two characters are never parsed |
| Framing.Dispatched | core/client.py:182-258 | no more objects are handled than there are pieces, and each one has a string `msg_type` |
| Framing.Fatal | core/client.py:182-183 | a parse that reaches `on_msg_recv` with a `msg_type` that is not a string, whose `"got:" + j['msg_type']` raises (used by `DispatchRaisesExactly`) |
| Framing.DispatchRaises | core/client.py:182-258 | whether the loop over the pieces raises in `on_msg_recv` (characterised by `DispatchRaisesExactly` and `DispatchRaisesAppend`) |
| Framing.DispatchRaisesExactly | core/client.py:182-258 | the loop raises if and only if some piece parses to an object whose `msg_type` is present but not a string |
| Framing.DispatchRaisesAppend | core/client.py:182-258 | a batch raises if and only if one of its two parts does |
| Framing.DispatchedExactly | core/client.py:182-258 | an object is handled if and only if its `msg_type` is a string and some piece parses to it with no raising piece before that one |
| Framing.DispatchedAppend | core/client.py:182-258 | dispatching a batch is dispatching its first part, then its second part unless the first raised |
| Framing.LastParsedAppend | core/client.py:238-251 | `j` after the loop is the last successful parse of the second part, or of the first when the second parsed nothing |
| Framing.ShortPiecesIgnored | core/client.py:240-241 | a batch of pieces of at most two characters dispatches and parses nothing |
| Framing.AfterBatch | core/client.py:259-261 | with no parse or conversion off the snapshot is kept; a stored snapshot is the last parsed object, which is telemetry; telemetry with a decodable image is stored with that image; any other present kind keeps the snapshot |
| Framing.RaiseExactly | core/client.py:259-261 | the snapshot step raises if and only if conversion is on and the last parsed object lacks `msg_type`, or is telemetry with a missing or undecodable image |
| Framing.BatchEnd | core/client.py:182-261 | how a batch ends: a raise in dispatch, else the snapshot step on the last parse (characterised by `BatchEndRaises`) |
| Framing.BatchEndRaises | core/client.py:182-261 | a batch raises if and only if some piece parses to an object with a non-string `msg_type` or the snapshot step raises; a snapshot is stored only from a batch with no such piece |
| Framing.SnapshotFromLastParsed | core/client.py:247-261 | only the last parsed piece of a batch can set the snapshot; earlier telemetry is overridden by any later parse |
| Messages.CarControl | core/client.py:134-143 | the `control` request (its shape is `CarControlShape`) |
| Messages.CarConfig | core/client.py:113-132 | the `car_config` request (its shape is `CarConfigShape`) |
| Messages.Reset | core/client.py:161-167 | the `reset_car` request (its shape is `BareMessagesShape`) |
| Messages.ExitApp | core/client.py:153-159 | the `quit_app` request (its shape is `BareMessagesShape`) |
| Messages.ExitSceneMessage | core/client.py:145-151 | the `exit_scene` request (its shape is `BareMessagesShape`) |
| Messages.ArgFields | core/client.py:124-131 | each argument becomes one field under its own key holding `str()` of its value, in argument order |
| Messages.BuildDistinct | core/client.py:124-131 | assigning distinct keys one by one into an empty dict gives exactly those fields in assignment order |
| Messages.MessageFields | core/client.py:124-131 | a message is `msg_type` first, then `str()` of every argument under its key, in order |
| Messages.KindOfMessage | core/client.py:124-131 | a built message's `msg_type` is its kind and every value in it is a string |
| Messages.CarControlShape | core/client.py:138-142 | a control message is exactly `msg_type=control`, `steering`, `throttle`, `brake` holding `str()` of the arguments |
| Messages.CarConfigShape | core/client.py:124-131 | a car configuration message is exactly `msg_type=car_config` and the six settings as strings, in order |
| Messages.BareMessagesShape | core/client.py:149-166 | reset, quit and exit-scene requests hold nothing but their `msg_type` |
| ProtocolClient.StepSlot | core/client.py:103-111 | `send` never writes, and one operation writes at most one message |
| ProtocolClient.LastWriteWins | core/client.py:169-173 | a message overwritten before a flush never reaches the socket |
| ProtocolClient.FlushTwice | core/client.py:107-111 | a flush empties the slot, so a second flush writes nothing more |
| ProtocolClient.NoWritableNoWrite | core/client.py:103-111 | without a writable socket nothing is written and the slot holds the last message sent |
| ProtocolClient.WireFromPuts | core/client.py:103-111 | every written message was pending at the start or was queued by `send`, and there are no more writes than such messages |
| ProtocolClient.Client.constructor | core/client.py:55-70 | the slot is empty, nothing is written or received, there is no snapshot and the client is not aborted |
| ProtocolClient.Client.Send | core/client.py:169-173 | the slot holds the new message, replacing the old one |
| ProtocolClient.Client.FlushMsg | core/client.py:103-111 | the slot and the socket log change exactly as one flush of the slot model says |
| ProtocolClient.Client.SendNow | core/client.py:175-180 | the message is written to the socket at once, after everything written before |
| ProtocolClient.Client.SendCarControl | core/client.py:134-143 | the control message for the three values is written at once, bypassing the slot |
| ProtocolClient.Client.SendCarConfig | core/client.py:113-132 | the car configuration message is written at once |
| ProtocolClient.Client.SendReset | core/client.py:161-167 | the `reset_car` request is written at once |
| ProtocolClient.Client.SendExitApp | core/client.py:153-159 | the `quit_app` request is written at once |
| ProtocolClient.Client.SendExitScene | core/client.py:145-151 | the `exit_scene` request is written at once |
| ProtocolClient.Client.OnMsgRecv | core/client.py:182-183 | raises exactly when `msg_type` is missing or not a string; otherwise the message is recorded as received |
| ProtocolClient.Client.ReceiveChunk | core/client.py:182-261 | the new buffer, the handled messages and the snapshot are those of the framing functions; it raises exactly when dispatch or the snapshot step raises, and then leaves the snapshot alone |
| ProtocolClient.Client.DispatchAll | core/client.py:182-258 | the loop hands the objects to `on_msg_recv` in order, stops at the first one whose `msg_type` is not a string, and otherwise leaves `j` at the last parse |
| ProtocolClient.Client.TakeSnapshot | core/client.py:259-261 | it raises exactly when the batch raises, and updates `img` and `data` only when a snapshot is stored |
| ProtocolClient.Client.PollCycle | core/client.py:182-270 | an exception, from dispatch or from the snapshot step, sets `aborted`, reports the abort last and skips the flush; otherwise the pending message is flushed; an unreadable socket leaves the buffer and the snapshot alone |
| ProtocolClient.Client.ProcMsg | core/client.py:208-270 | the loop stops early only on an exception, with `aborted` set and the abort as the last message received; nothing already written or received is lost |
| CamConfig.Make | core/camconf.py:23 | the mapping is the twelve-key configuration of the parameters (`Conf`), and the JSON text is its serialisation |
| CamConfig.Conf | core/camconf.py:10-22 | `self.conf` built key by key (its shape is `ConfShape`) |
| CamConfig.ConfShape | core/camconf.py:10-22 | exactly twelve keys, `msg_type` first with value `cam_config`, then the eleven parameters in order, each holding `str()` of its argument |
| CamConfig.DefaultConf | core/camconf.py:9-22 | with all arguments omitted the values are "100", "0", "0", "160", "120", "3", "PNG", "0.0", "3.5", "0.0", "90.0" |
| CamConfig.DefaultArgFields | core/camconf.py:9-22 | the default arguments stringify to those eleven fields |
| DriveController.Session | controller.py:14-19 | the messages of a run: one control message per tick, and `quit_app` right after the first tick that reads the exit flag (properties in `SessionControls` and `QuitAppLast`) |
| DriveController.Ticks | controller.py:14-19 | a run lasts every reading when none has the exit flag, else up to and including the first one that has |
| DriveController.SessionSnoc | controller.py:15-19 | one more tick of a running loop adds its control message, then `quit_app` if the exit flag is read |
| DriveController.SessionControls | controller.py:14-25 | one control message per tick, holding exactly that tick's readings, and one extra message only when the run was stopped |
| DriveController.QuitAppLast | controller.py:14-19 | `quit_app` is sent at most once, as the very last message, right after the last tick's control message |
| DriveController.TicksAtFirstExit | controller.py:15-19 | the run ends at the first exit flag and ignores the readings after it |
| DriveController.Controller.constructor | controller.py:4-8 | the controller starts running on the given client |
| DriveController.Controller.ManualMode | controller.py:21-25 | one control message carrying the values just read is written |
| DriveController.Controller.Tick | controller.py:16-19 | the control message is sent before the exit check; with the exit flag, `quit_app` follows and `running` becomes false |
| DriveController.Controller.Loop | controller.py:14-19 | from running, the loop writes the run's messages, lasts its ticks and stops exactly when an exit flag was read; a stopped controller sends nothing |
| Json.PyStr | core/client.py:140-142 | `str()` of a scalar: a string itself, an integer's decimal text (`IntToString`), a float's text, `True`/`False`, `None` |
| Json.Get | dataset-spliter.py:66 | `d.get(k)`: absent exactly when the key is missing, and a present value is the one stored under the key |
| Json.Set | dataset-spliter.py:61 | `d[k] = v` (properties in `KeysSet` and `GetSet`) |
| Json.KeysSet | dataset-spliter.py:61 | assignment keeps an existing key in its place and appends a new key last |
| Json.GetSet | dataset-spliter.py:61 | after `d[k] = v`, `d.get(k)` is v and every other key reads as before |
| PyText.Find | core/client.py:233 | `str.find`: the first index holding the character, or -1 when there is none |
| PyText.RFind | core/client.py:234 | `str.rfind`: the last index holding the character, or -1 when there is none |
| PyText.Split | core/client.py:236 | `str.split` at one character: never empty; inverse of joining (`JoinSplit`) |
| PyText.JoinSplit | core/client.py:236 | joining the pieces of a split with the separator gives the text back |
| PyText.SplitPiecesLackSeparator | core/client.py:236 | no piece of a split holds the separator |
| PyText.SplitConcat | core/client.py:236 | splitting two texts joined by the separator splits each of them |
| PyText.Replace | core/client.py:49 | `str.replace`: occurrences replaced left to right without overlap (properties in `ReplaceBySelf` and `ReplaceChar`) |
| PyText.ReplaceBySelf | core/client.py:49 | replacing a text by itself changes nothing |
| PyText.ReplaceChar | core/client.py:48 | replacing one character by another keeps the length and changes only those characters |
| PyText.NatToString | dataset-spliter.py:60 | `str()` of a natural number: decimal digits without a leading zero |
| PyText.ParseNatToString | dataset-spliter.py:60 | the decimal text of a number reads back as that number, so different numbers give different texts |
| PyText.IntToString | core/camconf.py:12-17 | `str()` of an integer is non-empty, starts with `-` exactly when the number is negative, and the rest is decimal digits without a leading zero |
| PyText.ParseIntToString | core/camconf.py:12-17 | the digits after the optional sign read back as the magnitude |
| PyText.IntToStringInjective | core/camconf.py:12-17 | different integers give different texts |
| PyText.PathJoin | dataset-spliter.py:60 | `os.path.join` of a directory and a relative file name ends with the file name and starts with the directory |
| Brain.Saturated | brain/brain.py:48 | the saturated magnitude lies in [0, 0.4] and never exceeds the magnitude |
| Brain.Throttle | brain/brain.py:48-49 | throttle lies in [0.2, 0.6]; it is 0.6 - abs(angle) for abs(angle) <= 0.4 and 0.2 above |
| Brain.OutputTransformer | brain/brain.py:42-50 | the angle is passed through unchanged, the brake is 0 and the throttle follows the rule; an empty prediction fails |
| Brain.ThrottleSymmetric | brain/brain.py:48-49 | the throttle does not depend on the steering direction |
| Brain.ThrottleMonotone | brain/brain.py:48-49 | sharper steering never gives more throttle |
| DatasetSpliter.RemoveFirst | dataset-spliter.py:52-53 | `list.remove` fails exactly when the element is absent and otherwise drops one element |
| DatasetSpliter.IndexOf | dataset-spliter.py:52-53 | the first occurrence of an element: it is there, and not before |
| DatasetSpliter.RemoveFirstAt | dataset-spliter.py:52-53 | `remove` drops exactly the first occurrence and keeps the other elements in their order |
| DatasetSpliter.NewHeader | dataset-spliter.py:50-54 | the header from a telemetry record, or a failure where `remove` raises (its shape is `NewHeaderShape`) |
| DatasetSpliter.NewHeaderShape | dataset-spliter.py:50-54 | the header exists exactly when the first telemetry record has an image; it is `path` followed by the record's keys in their order, without `msg_type` and `image`, so it has one column fewer than the record has keys |
| DatasetSpliter.ImagePathsDistinct | dataset-spliter.py:60 | two lines never share an image path |
| DatasetSpliter.Row | dataset-spliter.py:66 | a row has one cell per header key |
| DatasetSpliter.RowCells | dataset-spliter.py:60-66 | a row's first cell is the image path and every other cell is `str()` of the record's value, or "0" where the key is missing |
| DatasetSpliter.Step | dataset-spliter.py:47-67 | one line: an unparsable line or one without `msg_type` raises, other kinds are skipped, telemetry writes the header if none is written yet and then its row and image (properties in `HeaderWrittenOnce` and `ExtractedCounts`) |
| DatasetSpliter.Save | dataset-spliter.py:59-67 | a telemetry record gets its image path under `path`; a missing or undecodable image raises, otherwise its image and its row are appended |
| DatasetSpliter.RunLines | dataset-spliter.py:45-67 | the lines in order, up to and including the first one that raises (properties in `CrashedStays` and `ExtractedCounts`) |
| DatasetSpliter.ExtractSpec | dataset-spliter.py:28-67 | nothing when both outputs exist, otherwise the run over all lines (the loop is proved equal to it in `Extract`) |
| DatasetSpliter.ExtractedCounts | dataset-spliter.py:46-67 | a completed extraction writes one row and one image per telemetry line and none for other lines; the header is written exactly when there is telemetry, and every row is as wide as it |
| DatasetSpliter.HeaderWrittenOnce | dataset-spliter.py:50-58 | once written, the header never changes |
| DatasetSpliter.CrashedStays | dataset-spliter.py:45-67 | an exception ends the extraction: later lines change nothing |
| DatasetSpliter.CrashAt | dataset-spliter.py:45-68 | a line that raises is where the whole extraction fails, with what was written before |
| DatasetSpliter.ReadLine | dataset-spliter.py:46-67 | one loop pass has the line's specified effect and appends to the label file exactly the header (first time) and the row it writes |
| DatasetSpliter.Extract | dataset-spliter.py:28-68 | nothing happens when both outputs exist; otherwise the result and the label file are those of the line-by-line specification, up to the first line that raises |
| DatasetSpliter.PressEffect | dataset-spliter.py:144-155 | arrows move the cursor one row within the table, `e`/`r` relabel only the current row, `Return` closes, other and released keys do nothing |
| DatasetSpliter.Press | dataset-spliter.py:144-155 | the cursor stays within the table and the labels keep their number |
| DatasetSpliter.Listen | dataset-spliter.py:142-157 | the cursor stays within the table after a whole pass |
| DatasetSpliter.ListenChanges | dataset-spliter.py:144-152 | without `e`/`r` no label changes; without arrows the cursor stays and only the current row's label can change |
| DatasetSpliter.SpliterUI.constructor | dataset-spliter.py:81-84 | every row starts labelled `E` with the cursor on the first row |
| DatasetSpliter.SpliterUI.KeyListener | dataset-spliter.py:142-157 | the cursor and the labels are updated in place exactly as the pass specification says, and `closed` is set when `Return` stops it |
| DatasetSpliter.SpliterUI.Close | dataset-spliter.py:165-167 | every row goes to exactly one of the two files, the one named by its label |
| DatasetSpliter.Partition | dataset-spliter.py:166-167 | the selected rows come in increasing order and all carry the label |
| DatasetSpliter.PartitionExact | dataset-spliter.py:166-167 | a row is in the `E` file if and only if it is labelled `E`, likewise for `R`, and the two files hold all the rows between them |

## Findings

| source | as written | input that shows it | evidently intended | confidence | as-written member | corrected member |
|---|---|---|---|---|---|---|
| core/client.py:231-237 | each chunk is cut from the first `{` to the last `}` of the buffer, and the buffer keeps only that last `}` and what follows, so the objects dispatched depend on where the socket splits the stream | `{"msg_type":"a"}{"msg_type":"b"}` in one chunk is one piece that `json.loads` rejects, so nothing is dispatched, while in two chunks both objects are; `{"msg_type":"a","b":{}}` with its newline is dispatched from one chunk but lost when a chunk ends before its last `}` | the comment at core/client.py:226-228: a newline separates each JSON message, so the same stream gives the same messages however it is chunked | high; not executed | FramingExamples.BackToBackDispatch, FramingExamples.NestedSplitDispatch | Framing.LineDispatchSplitInvariant (over Framing.LineReframe) |

## Left out

- Sockets, `select`, `time.sleep`, threads and the `ConnectionAbortedError` path of `proc_msg` are not modelled. Readability is a chunk that is present or absent; writability is a flag.
- The UTF-8 decoding of received bytes is not modelled: chunks arrive as strings.
- `json.loads`, `json.dumps`, base64 and PIL are abstract oracles. `json.loads` is assumed to return an object; a top-level list, string or number is not modelled.
- `set_cam_conf` is not modelled. It reads `self.cam_conf`, which is never assigned, so it always raises.
- Logging output, `get_img`, `connect` and `stop` are not modelled: they are I/O or thread control. The exception raised while building the log line of `on_msg_recv` is modelled.
- ProtocolClient.Client.ProcMsg: states that an early stop is an abort, reported last, and that nothing written or received is lost. The per-cycle contents are stated by `PollCycle`, not repeated over the whole loop.
- Python floats are reals in `Brain`. Rounding and the integer brake `0` versus `0.0` are not distinguished.
- Brain.OutputTransformer: takes the `angle` array directly, so a missing `angle` key is not modelled. An empty prediction is the only failure.
- Only `output_transformer` is modelled from brain/brain.py. Model loading, `predict`, `input_transformer` and `train` are TensorFlow or stubs. tensor_builder.py, manager.py and launch.py are not part of this model.
- The controller's thread is not modelled. `Loop` is called directly, and the hardware is a finite sequence of readings, so a loop that never reads the exit flag ends when the readings run out.
- DatasetSpliter.Extract: directory creation, the writing of image files, `tqdm` and the `ESLRExtractor` constructor's existence check are not modelled. The decoding oracle stands for decoding and saving the image, and failure of either is one failure. Lines arrive already parsed, so a `json.loads` failure is a missing object.
- DatasetSpliter.Row: record values are scalars. `str()` of a nested list or dict in a record is not modelled.
- DatasetSpliter.SpliterUI.KeyListener: the `key_press` table is the list of (key, pressed) entries in insertion order. The events that fill it, `refresh_ui`, and the rescheduling with `window.after` are not modelled.
- DatasetSpliter.SpliterUI.Close: returns the row indices of the two files. Re-encoding each row (deleting `path`, setting `msg_type` and a base64 JPEG `image`) and writing the `e-`/`r-` files are not modelled. They are pandas, PIL and file I/O.
- DatasetSpliter.SpliterUI.constructor: requires at least one row, since the window draws row 0 at once and fails on an empty table. Tkinter drawing is not modelled.
