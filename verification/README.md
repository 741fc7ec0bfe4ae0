# parity-electron process supervisor — a Dafny model

This project models the supervision logic of `runParity.js` in the
parity-electron package: the module that launches one Parity Ethereum client
as a child process of the desktop host, records the child's last output chunk,
decides what a child's exit means, and stops the child on request. Four pieces
of sequential logic are modelled as pure functions over immutable datatypes.
Electron, the file system and the OS process layer are replaced by inputs and
by returned effect lists.

- `Text`: JavaScript's case-sensitive `String.prototype.includes`. It is
  defined as a left-to-right scan and proved equal to a positional reference
  definition. The module also renders an integer the way a template literal
  does and holds a parser that inverts that rendering.
- `LastLine`: the `data` callback shared by stdout and stderr. A non-empty
  chunk replaces the stored line and an empty one leaves it unchanged. A stream
  always delivers a `Buffer`, which is truthy, so chunks are modelled as their
  decoded text. Folding the callback over a stream yields the last non-empty chunk.
- `ExitClassification`: the `close` handler. It maps the exit code, the signal,
  the stored line and the launch arguments to exactly one of four outcomes:
  `Clean`, `BenignConflict`, `HostExit(1)` (stands for `app.exit(1)`) or
  `Fatal` (stands for the thrown `Error`, carrying its code, signal and message).
- `Supervisor`: `runParity` and `killParity` as transitions on the tracked
  child and the global running flag. The answers of `cli.runParity`,
  `isParityRunning`, `getParityPath` and `parityArgv` arrive together as a
  `Probe`. A failed collaborator (a rejected promise, a throwing
  `parityArgv()`) is an absent answer, and it makes the promise of
  `runParity` reject. The external actions come back as `Effect`s: queries,
  spawn, notification and kill. Every spawn creates a new process, so each
  child carries the ordinal of its spawn: restarting with the same command
  gives a different child. `Run` chains calls so that whole traces can be
  reasoned about.

Behaviour of the code worth noting:

- The early returns of `runParity` (launch disabled, instance already
  running) resolve to `undefined`, not `true`. `Step.settled` is
  `Fulfilled(None)` there.
- Neither the exit event nor `killParity` clears `global.isParityRunning`.
  The exit event does not clear the tracked child either. Only `killParity`
  clears it.
- `cli.runParity === false` is a strict comparison. An unset option
  (`None`) does not disable launching.
- The exit code in `close` can be `null` when a signal killed the child. It
  is modelled as `Option<int>`, and `null` is never `Clean`.
- `parityArgv()` is called again when the child closes. The classifier
  therefore takes the argument list as its own input, separate from the list
  used at spawn time.

## Model

| member | source | states |
|---|---|---|
| Text.IncludesIffOccurs | packages/parity-electron/src/runParity.js:84 | `line.includes(error)` holds exactly when the error string occurs at some index of the line (both directions, case-sensitive, any position) |
| Text.ParseIntToString | packages/parity-electron/src/runParity.js:94 | the decimal text an exit code is rendered as reads back as that same code, negative codes included |
| LastLine.Observe | packages/parity-electron/src/runParity.js:61-64 | a non-empty chunk replaces the stored last line; an empty chunk leaves it unchanged |
| LastLine.ObserveAllIsLastRecordable | packages/parity-electron/src/runParity.js:53-68 | after any stream of chunks on stdout and stderr, the stored line is the last non-empty chunk, whatever was stored before and whatever came earlier |
| LastLine.ObserveAllNoneRecordable | packages/parity-electron/src/runParity.js:61-64 | a stream with no non-empty chunk leaves the stored line unchanged |
| LastLine.ObserveAllKeepsRecordable | packages/parity-electron/src/runParity.js:62-63 | once a line is stored it is never lost, and the stored line is never the empty string |
| LastLine.ObserveAllAppend | packages/parity-electron/src/runParity.js:67-68 | the callback is a left fold: processing a stream in two parts gives the same stored line as processing it whole |
| ExitClassification.SomeIncludedIffSignature | packages/parity-electron/src/runParity.js:84 | `catchableErrors.some(...)` holds exactly when some listed error occurs as a substring of the line |
| ExitClassification.Classify | packages/parity-electron/src/runParity.js:73-96 | exit code 0 is Clean whatever the output; a non-zero (or null) exit is Benign exactly when a non-empty last line contains a catchable error; otherwise HostExit with status 1 exactly when the launch arguments are non-empty, and Fatal exactly when they are empty, carrying the exit code, the signal and the message `Exit code <code>, with signal <signal>.`, from which both the code and the signal text read back |
| ExitClassification.CodeOfFatalMessage | packages/parity-electron/src/runParity.js:94 | the thrown message `Exit code <code>, with signal <signal>.` yields its exit code back (`null` included) |
| ExitClassification.FatalMessageDeterminesCode | packages/parity-electron/src/runParity.js:94 | two fatal exits whose messages are equal had the same exit code |
| ExitClassification.SignalOfFatalMessage | packages/parity-electron/src/runParity.js:94 | the text between `, with signal ` and the final `.` of the thrown message is the rendered signal (`null` when there is none), even when it contains commas |
| ExitClassification.FatalMessageDeterminesSignal | packages/parity-electron/src/runParity.js:94 | two fatal exits whose messages are equal had the same rendered signal, and the same signal unless one is literally named "null" |
| ExitClassification.CloseAfterOutputBenign | packages/parity-electron/src/runParity.js:53-88 | a child that exits non-zero is benign exactly when its last recordable output chunk contains a catchable error; a child that printed nothing is never benign |
| ExitClassification.SignatureAnywhereIsBenign | packages/parity-electron/src/runParity.js:27-30 | either listed error, surrounded by any text, makes a non-zero exit benign, with or without launch arguments |
| ExitClassification.LineWithoutCapitalsNeverBenign | packages/parity-electron/src/runParity.js:84 | the match is case-sensitive: a last line without capital letters never makes an exit benign, for any exit code, signal and launch arguments; a non-zero exit then ends as HostExit exactly when arguments were given and as Fatal exactly when none were |
| ExitClassification.LowerCasedSignatureNotBenign | packages/parity-electron/src/runParity.js:27-30 | either listed error written in lower case is not recognised, for any exit code, signal and launch arguments |
| Supervisor.LaunchArgs | packages/parity-electron/src/runParity.js:56 | the spawn argument vector is the external argument list followed by the single element `--light` |
| Supervisor.Start | packages/parity-electron/src/runParity.js:32-102 | launch disabled: nothing happens and the promise resolves to undefined. Running check rejects: only the query happens, the state is unchanged, and the promise rejects. Instance detected: only the query happens, the state is unchanged, and the promise resolves to undefined. Path resolution rejects or `parityArgv()` throws: query and resolution happen, the state is unchanged, and the promise rejects. Otherwise: query, resolution, spawn of a new child running `path` with the launch arguments, notification; that child is tracked, the flag is set, and the promise resolves to true |
| Supervisor.Stop | packages/parity-electron/src/runParity.js:105-112 | with no tracked child, no effect; with one, exactly one kill of that child; the tracked child is cleared, the running flag and spawn count are untouched, and the promise resolves to true |
| Supervisor.StartSpawnsIff | packages/parity-electron/src/runParity.js:34-57 | a start spawns a child if and only if launching is not disabled, no running instance was detected, and the running check, path resolution and `parityArgv()` all succeeded |
| Supervisor.StartRejectsIff | packages/parity-electron/src/runParity.js:39-56 | the promise of a start rejects exactly when a consulted collaborator failed, and then nothing is spawned and the state is unchanged |
| Supervisor.DisabledStartIgnoresProbes | packages/parity-electron/src/runParity.js:34-36 | with launching disabled, the running check, the path and the arguments cannot influence the start, and the state is unchanged |
| Supervisor.RunningStartIgnoresPathAndArgs | packages/parity-electron/src/runParity.js:39-42 | with an instance detected, path and arguments (and whether they could be obtained) cannot influence the start, and the tracked child is unchanged |
| Supervisor.StopIdempotent | packages/parity-electron/src/runParity.js:105-111 | a second stop has no effect, leaves the state as it is and still resolves to true |
| Supervisor.StartThenStopKillsSpawned | packages/parity-electron/src/runParity.js:57-109 | a stop right after a spawning start kills exactly the spawned child, once, and clears the tracked child |
| Supervisor.StartOverwritesTracked | packages/parity-electron/src/runParity.js:57 | a spawning start always tracks the newly spawned child, which differs from whatever child was tracked before: nothing guards against a second spawn at this layer |
| Supervisor.StepValid | packages/parity-electron/src/runParity.js:57-109 | starts and stops keep the tracked child among the children already spawned and never decrease the spawn count |
| Supervisor.RunValid | packages/parity-electron/src/runParity.js:22-112 | every state a sequence of calls reaches from a valid state (in particular from the initial one) tracks only a child already spawned |
| Supervisor.ReplacedChildNeverKilled | packages/parity-electron/src/runParity.js:57-109 | when a start spawns over a tracked child, no later sequence of calls ever kills that child: it is orphaned |
| Supervisor.DoubleStartKillsOnlySecond | packages/parity-electron/src/runParity.js:57-109 | two spawning starts and a stop spawn two distinct children and kill only the second |
| Supervisor.SpawnCounterMatchesTrace | packages/parity-electron/src/runParity.js:57 | over any sequence of calls, the spawn count grows by exactly the number of spawns in the trace |
| Supervisor.StepCounts | packages/parity-electron/src/runParity.js:57-109 | one call spawns at most the child it starts tracking, kills at most the child it stops tracking, and advances the spawn count by its spawns |
| Supervisor.KillsNeverExceedSpawns | packages/parity-electron/src/runParity.js:22-112 | over any sequence of starts and stops, kills plus a still-tracked child never outnumber spawns plus the child tracked at the outset |
| Supervisor.KillsOnlySpawned | packages/parity-electron/src/runParity.js:22-112 | over any sequence of calls, every kill targets the child tracked at the outset or one spawned earlier in the trace, and so does the finally tracked child |
| Supervisor.KillsFromInitial | packages/parity-electron/src/runParity.js:105-110 | starting from no tracked child, every kill follows a spawn of the same child and there are never more kills than spawns |

## Left out

- The Electron calls `app.exit` and `webContents.send` (runParity.js:92, 99) are modelled only as the `HostExit` outcome and the `NotifyRunning` effect.
- `fs.chmod(parityPath, '755')` and its swallowed failure (runParity.js:49-51) are file-system I/O with no effect on the logic, so they are not modelled.
- `spawn`, the stdout/stderr streams, `kill()` signals and the `error` handler that rethrows (runParity.js:57, 67-72, 108) are process I/O. A spawn is an effect, and stream chunks are a sequence given to the fold.
- `getParityPath`, `isParityRunning`, `cli` and `parityArgv` (runParity.js:12-14) are not part of this model. Their results, or their failure, are inputs.
- Supervisor.Start: a synchronous throw from `spawn`, `logCommand`, `logger` or `webContents.send` after the path is resolved (runParity.js:57-99) is not modelled. A spawning start is assumed to reach its end.
- ExitClassification.Classify: a throw from the second `parityArgv()` call in the close handler (runParity.js:91) is not modelled. The argument list at close is an input that is always available.
- The `debug` logger and `logCommand` output (runParity.js:18, 58, 65, 86) are not modelled.
- Asynchronous interleaving is not modelled. `Run` assumes each call completes before the next begins. The race between a pending start and a stop is therefore outside the model.
- Output chunks are modelled as already-decoded text. A `Buffer` is non-empty exactly when its decoded text is, so `data.length` is read as the text length.
- Text.IntToString: JavaScript prints integers of magnitude 10^21 or more in exponent notation, and this rendering does not. Exit codes never reach that range.
