# Piano MIDI note trainer: a model of the note timeline

This is a Dafny model of the game logic of a browser note trainer (`script.js`).
Treble-clef notes scroll from right to left. A wireless MIDI piano sends key
presses, and each key press is scored against the oldest note still on the staff.

The model has five modules:

- `Catalog` (`Catalog.dfy`): the 13 pitches the spawner draws from (`possibleTrebleNotes`).
- `Timeline` (`Timeline.dfy`): the timeline as values. A pending `Note` has a catalog
  id, an integer `left` position and an "incorrect" flag. A `Board` holds the queue,
  the pause flag and the two score counters. There is one pure transition per
  operation: `Spawned` (spawner tick), `Sweep`/`Ticked` (movement tick) and `Judged`
  (`updateClefOnKeypress`). The lemmas beside them state what each one promises.
  `WellFormed` is the queue invariant and `Pending` is the FIFO invariant.
- `Midi` (`Midi.dfy`): `pianoKeyMaps` and its `find`, the `% 12` octave position, the
  key-down filter on the frame `[status, data1, data2, note, velocity]`, and the loop
  that copies the notification's bytes.
- `Game` (`Game.dfy`): the game's global state as one object, `GameSession`. Its fields
  are `activeNotes`, `isGamePaused`, `isGameStarted` and the two counters. Each timer
  callback and event handler is a method that updates the fields in place. Every
  timer callback and event handler is proved against its pure transition in
  `Timeline` (`Snapshot()` is the fields as a `Board`), and every method keeps
  `Valid()`. `Valid()` says four things:
  - the queue is well formed;
  - the queue holds exactly the spawned notes not yet answered correctly, in spawn
    order (the ghost history `spawned`);
  - the game is paused only while its oldest note stands at the threshold
    (`PausedOnHead`), so the pause waits for that note's answer;
  - `startGame` has run at most once, and has run exactly when the game counts as started.

  Two client methods replay the game's scenarios against these contracts:
  `ScenarioWrongThenRight` and `ScenarioPauseAndResume`.
- `Options` (`Options.dfy`): a small `Option` type. `None` stands for JavaScript's
  `NaN` (the head id of an empty queue) and for `undefined` (a failed `find`).

The constants match the source: `TRAVEL_SPEED` 7, `LEFT_THRESHOLD` 80, key-down byte 144,
12 keys per octave. The spawn position comes from CSS, so it is the constructor's
argument `spawnLeft`, which must be greater than 80. The two counters live in the page
as text. Here they are naturals and start at 0.

Each handler runs to completion, so any sequence of method calls stands for any
interleaving of the two timers and the key events. A movement or spawn tick requires
`isGameStarted`, because the timers are created only by `startGame`. The random
catalog index is an argument `idx < 13`.

## Model

| member | source | states |
|---|---|---|
| `Catalog.TrebleIdsAscend` | script.js:16-30 | the catalog has 13 pitches and their MIDI ids strictly ascend |
| `Timeline.Crosses` | script.js:54-55 | a note reaches the threshold check exactly when its next position, 7 further left, would be at or left of 80 |
| `Timeline.Moved` | script.js:59 | a move keeps the note's id and flag and decreases its position by exactly 7 |
| `Timeline.Sweep` | script.js:49-61 | the movement tick visits notes head to tail (a paused visit does nothing, a crossing note pauses and stays, others move 7 left); its own contract states only that the length is kept, and `SweepMovesPrefix` states the content |
| `Timeline.FirstCrossing` | script.js:54-56 | the index of the first note whose next position would be at or left of 80: every note in front of it would not cross, the note there would |
| `Timeline.SweepMovesPrefix` | script.js:50-60 | for any queue: if already paused, the tick changes nothing; otherwise exactly the notes in front of the first crossing note move, that note and all later ones stay, and the game ends paused exactly when a crossing note exists (on a well-formed queue that first crossing note is the oldest or there is none, see `TickAllOrNothing`) |
| `Timeline.SweepPausesIff` | script.js:51-57 | after a tick the game is paused if and only if it was already paused or some note reached the threshold check |
| `Timeline.SweepBounds` | script.js:53-59 | a tick keeps length, order, ids and flags; each position decreases by exactly 7 (staying above 80) or stays the same |
| `Timeline.SweepKeepsWellFormed` | script.js:53-59 | a tick keeps every position above 80 and at most the spawn position, every id a catalog id, and positions non-decreasing from oldest to newest |
| `Timeline.SweepKeepsPending` | script.js:50-60 | a tick changes no id, so the queue still holds the pending spawns in spawn order |
| `Timeline.Ticked` | script.js:49-61 | a movement tick keeps the counters and the queue's length, and changes nothing while paused |
| `Timeline.CrossingIsAllOrNothing` | script.js:50-57 | on a well-formed queue the first note that would cross is the oldest one or there is none |
| `Timeline.TickAllOrNothing` | script.js:49-61 | on a well-formed, unpaused queue a tick either moves every note by 7 and stays unpaused, or moves none and pauses with the oldest note at the threshold |
| `Timeline.TickKeepsPausedOnHead` | script.js:49-61 | a tick on a well-formed queue keeps "paused only while the oldest note stands at the threshold" |
| `Timeline.HeadId` | script.js:76-78 | the oldest note's id, absent (NaN) exactly when the queue is empty |
| `Timeline.IsMatch` | script.js:79 | an answer matches exactly when it is forced, or the queue is non-empty and the oldest note's id equals it (an empty queue's NaN never matches) |
| `Timeline.FlagHead` | script.js:86 | the oldest note, if any, gets the incorrect flag with id and position kept; every other note is untouched |
| `Timeline.Spawned` | script.js:64-71 | a spawner tick keeps the pause flag, the counters and the old notes, and adds one note when unpaused and none when paused |
| `Timeline.SpawnAppends` | script.js:64-71 | unpaused: exactly one note with catalog entry `idx`'s id at the spawn position is appended at the tail, old notes and counters unchanged; paused: nothing changes |
| `Timeline.SpawnKeepsWellFormed` | script.js:36-42 | appending a catalog note at the spawn position keeps the queue invariant, so every queued id is a catalog id |
| `Timeline.SpawnKeepsPausedOnHead` | script.js:64-71 | a spawner tick keeps the paused game's oldest note in place |
| `Timeline.TickWhilePaused` | script.js:50-51 | a movement tick while paused leaves queue, positions, flags and counters unchanged |
| `Timeline.TickSpec` | script.js:49-61 | a movement tick leaves the counters alone, keeps the queue invariant, ends paused exactly when it was paused or a note reached the threshold, and moves exactly the notes before the first crossing note (`TickAllOrNothing` shows that on such a queue this is all notes or none) |
| `Timeline.Judged` | script.js:75-88 | a key press adds one to exactly one of the two counters, removes a note exactly when it counts as correct, and never pauses the game |
| `Timeline.JudgeMatch` | script.js:79-83 | on a match with the oldest note or a forced answer: the queue becomes `old[1..]`, correct increases by 1, the game resumes, incorrect is unchanged |
| `Timeline.JudgeMismatch` | script.js:84-86 | on a mismatch: incorrect increases by 1 and the oldest note, if any, is flagged; ids, positions, correct and the pause flag are unchanged; an empty queue stays empty |
| `Timeline.JudgeKeepsWellFormed` | script.js:79-87 | judging keeps the queue invariant |
| `Timeline.JudgeKeepsPausedOnHead` | script.js:79-87 | judging keeps "paused only while the oldest note stands at the threshold" |
| `Timeline.OnlyStuckNoteResumes` | script.js:79-87 | a paused game resumes exactly on an answer that matches its oldest note (or is forced), and resuming removes that note, the one standing at the threshold |
| `Timeline.RepeatedMismatches` | script.js:84-87 | n wrong answers against a stuck oldest note add n to incorrect and never remove it, move anything or resume the game |
| `Midi.FindKey` | script.js:203 | `find` returns the first entry with the given offset, and returns nothing exactly when no entry has it |
| `Midi.OctavePosition` | script.js:202 | `note % 12` is in [0, 12) and congruent to the note number |
| `Midi.KeyMapsAreIndexed` | script.js:168-181 | `pianoKeyMaps` has 12 entries and entry k is the key at offset k |
| `Midi.OctavePositionResolves` | script.js:202-203 | every octave position resolves to exactly one `pianoKeyMaps` entry, and `find` returns it |
| `Midi.KeyName` | script.js:203 | the key name looked up for a note number is always present and is that of entry `note % 12` |
| `Midi.NaturalKey` | script.js:168-181 | a catalog pitch's octave position names the key whose name is the pitch's letter in upper case |
| `Midi.TrebleNotesAreNaturals` | script.js:16-30 | every catalog id is a byte whose key name is its label's letter in upper case, so no catalog pitch is a sharp or flat |
| `Midi.KeyDownNote` | script.js:197-200 | a frame reaches the judge exactly when byte 2 is 144, and then with the raw byte 3 |
| `Midi.ReadBytes` | script.js:191-195 | the copied list equals the notification's bytes, in order |
| `Game.GameSession.constructor` | script.js:32-33 | the game begins with an empty queue, not paused, not started, both counters 0 |
| `Game.GameSession.InsertTrebleNote` | script.js:36-42 | pushes one unflagged note for the pitch at the spawn position onto the tail and records it in the spawn history; nothing else changes |
| `Game.GameSession.StartGame` | script.js:45-46 | sets started and counts one more start of the timers; the game state is unchanged |
| `Game.GameSession.SpawnTick` | script.js:64-71 | the new state is `Spawned` of the old one and the invariant is kept |
| `Game.GameSession.MovementTick` | script.js:49-61 | the in-place loop leaves exactly `Sweep` of the old queue and pause flag, and keeps the invariant |
| `Game.GameSession.Judge` | script.js:75-88 | the new state is `Judged` of the old one, the invariant is kept, and a removed note is the oldest not-yet-answered spawn (FIFO) |
| `Game.GameSession.HandleMidiMessage` | script.js:187-208 | afterwards the game is started and `startGame` has run exactly once overall; a frame whose byte 2 is not 144 changes nothing else; otherwise the state is `Judged` with the raw byte 3 |

## Left out

- The Bluetooth GATT connection chain (script.js:117-161): browser API and promise plumbing.
- `printLog` and `console.log` (script.js:111-114, 205-206): logging only. The key name is computed but not shown.
- DOM work (creating the note element, CSS classes, `remove()`): a note's element is its `Note` value, with `incorrect` standing for the "incorrect-note" class. Reading `left` through `getComputedStyle` and `parseInt` becomes an integer field. Notes are values, so the model assumes no other code keeps references to them.
- The initial counter text lives in index.html, which is not part of this model. The counters start at 0.
- `setInterval` timing (50 ms and 1500 ms) and the timers' cancellation: any sequence of method calls stands for the interleaving.
- `Math.random`: it is the index argument of `SpawnTick`.
- The commented-out keyboard test hooks (script.js:91-97, 184).
- `Game.GameSession.HandleMidiMessage`: requires at least 4 bytes. Shorter frames would make JavaScript compare `undefined` and compute on `NaN`. The velocity byte is read only for the log.
- `Game.GameSession.StartGame`: requires that the game is not yet started. Its only caller checks this, and the precondition lets `Valid()` state that the timers exist at most once.
- `Game.GameSession.Judge`: a forced answer on an empty queue throws in the source (`activeNotes[0].remove()` on `undefined`), so it is a precondition.
