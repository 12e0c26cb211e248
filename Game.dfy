/**
 * The game's shared state as one object: the queue of pending notes, the
 * pause and start flags and the two score counters, with the two timer
 * callbacks, the judge and the MIDI notification handler as its methods.
 * Each method runs to completion, so any sequence of calls stands for any
 * interleaving of the timers and the key events.
 */
module Game {
  import opened Options
  import opened Catalog
  import opened Timeline
  import opened Midi

  class GameSession {
    /** `activeNotes`: pending notes, oldest first. */
    var activeNotes: seq<Note>
    var isGamePaused: bool
    var isGameStarted: bool
    /** The numbers shown in `#correct-count` and `#incorrect-count`. */
    var correctCount: nat
    var incorrectCount: nat
    /** The CSS `left` a new note is created with. */
    const spawnLeft: int

    /** The ids of all notes ever spawned, in spawn order. */
    ghost var spawned: seq<int>
    /** How many times `startGame` has run, that is, how many pairs of timers exist. */
    ghost var startCount: nat

    /**
     * The object invariant: the queue is well formed; it holds exactly the
     * spawned notes that have not yet been answered correctly, in spawn order
     * (each correct answer removes one note, the oldest); the game is paused
     * only while its oldest note stands at the threshold; and the timers were
     * started at most once, exactly when the game counts as started.
     */
    ghost predicate Valid()
      reads this
    {
      spawnLeft > LeftThreshold &&
      WellFormed(activeNotes, spawnLeft) &&
      Pending(activeNotes, spawned, correctCount) &&
      PausedOnHead(Snapshot()) &&
      startCount <= 1 &&
      (isGameStarted <==> startCount == 1)
    }

    /** The object's observable state as a value. */
    function Snapshot(): Board
      reads this
    {
      Timeline.Board(activeNotes, isGamePaused, correctCount, incorrectCount)
    }

    /** The page as loaded: nothing pending, not paused, not started, both counters at zero. */
    constructor (spawnLeft: int)
      requires spawnLeft > LeftThreshold
      ensures Valid()
      ensures this.spawnLeft == spawnLeft
      ensures activeNotes == [] && !isGamePaused && !isGameStarted
      ensures correctCount == 0 && incorrectCount == 0
      ensures spawned == []
    {
      this.spawnLeft := spawnLeft;
      activeNotes := [];
      isGamePaused := false;
      isGameStarted := false;
      correctCount := 0;
      incorrectCount := 0;
      spawned := [];
      startCount := 0;
    }

    /** `insertTrebleNote`: push a new, unflagged note for `pitch` at the spawn position. */
    method InsertTrebleNote(pitch: Pitch)
      requires Valid() && pitch in TrebleNotes
      modifies this
      ensures Valid()
      ensures activeNotes == old(activeNotes) + [Note(pitch.id, spawnLeft, false)]
      ensures spawned == old(spawned) + [pitch.id]
      ensures isGamePaused == old(isGamePaused) && isGameStarted == old(isGameStarted)
      ensures correctCount == old(correctCount) && incorrectCount == old(incorrectCount)
      ensures startCount == old(startCount)
    {
      activeNotes := activeNotes + [Note(pitch.id, spawnLeft, false)];
      spawned := spawned + [pitch.id];
    }

    /** `startGame`: mark the game started and create the two timers. */
    method StartGame()
      requires Valid() && !isGameStarted
      modifies this
      ensures Valid()
      ensures isGameStarted && startCount == old(startCount) + 1
      ensures Snapshot() == old(Snapshot()) && spawned == old(spawned)
    {
      isGameStarted := true;
      startCount := startCount + 1;
    }

    /** The spawner's timer callback; `idx` stands for `Math.floor(Math.random() * 13)`. */
    method SpawnTick(idx: nat)
      requires Valid() && isGameStarted
      requires idx < |TrebleNotes|
      modifies this
      ensures Valid()
      ensures Snapshot() == Spawned(old(Snapshot()), idx, spawnLeft)
      ensures spawned == old(spawned) + (if old(isGamePaused) then [] else [TrebleNotes[idx].id])
      ensures isGameStarted && startCount == old(startCount)
    {
      if isGamePaused {
        return;
      }
      var newNote := TrebleNotes[idx];
      InsertTrebleNote(newNote);
    }

    /**
     * The movement timer's callback: visit the notes head to tail, moving
     * each left by `TravelSpeed`, until one would reach the threshold; that
     * one pauses the game and the visits after it do nothing.
     */
    method MovementTick()
      requires Valid() && isGameStarted
      modifies this
      ensures Valid()
      ensures Snapshot() == Ticked(old(Snapshot()))
      ensures activeNotes == Sweep(old(activeNotes), old(isGamePaused)).0
      ensures isGamePaused == Sweep(old(activeNotes), old(isGamePaused)).1
      ensures spawned == old(spawned) && isGameStarted && startCount == old(startCount)
    {
      ghost var notes0, paused0, board0 := activeNotes, isGamePaused, Snapshot();
      ghost var k := FirstCrossing(notes0);
      var i := 0;
      while i < |activeNotes|
        invariant 0 <= i <= |activeNotes| == |notes0|
        invariant isGamePaused <==> paused0 || k < i
        invariant forall j :: 0 <= j < i ==>
          activeNotes[j] == if !paused0 && j < k then Moved(notes0[j]) else notes0[j]
        invariant forall j :: i <= j < |activeNotes| ==> activeNotes[j] == notes0[j]
        invariant correctCount == old(correctCount) && incorrectCount == old(incorrectCount)
        invariant spawned == old(spawned) && isGameStarted && startCount == old(startCount)
      {
        var activeNote := activeNotes[i];
        if !isGamePaused {
          var newLeft := activeNote.left - TravelSpeed;
          if newLeft <= LeftThreshold {
            isGamePaused := true;
          } else {
            activeNotes := activeNotes[i := activeNote.(left := newLeft)];
          }
        }
        i := i + 1;
      }
      SweepMovesPrefix(notes0, paused0);
      assert activeNotes == Sweep(notes0, paused0).0;
      SweepKeepsWellFormed(notes0, paused0, spawnLeft);
      SweepKeepsPending(notes0, paused0, spawned, correctCount);
      TickKeepsPausedOnHead(board0, spawnLeft);
    }

    /**
     * `updateClefOnKeypress(noteId, forceCorrect)`: on a match with the oldest
     * note, or when forced, remove that note, count a correct answer and
     * resume; otherwise count an incorrect answer and flag the oldest note.
     * A forced answer reads the oldest note, so it needs one.
     */
    method Judge(noteId: int, forceCorrect: bool)
      requires Valid()
      requires forceCorrect ==> activeNotes != []
      modifies this
      ensures Valid()
      ensures Snapshot() == Judged(old(Snapshot()), noteId, forceCorrect)
      ensures IsMatch(old(activeNotes), noteId, forceCorrect) ==>
        old(activeNotes)[0].id == spawned[old(correctCount)]
      ensures spawned == old(spawned)
      ensures isGameStarted == old(isGameStarted) && startCount == old(startCount)
    {
      var oldestActiveNoteId := HeadId(activeNotes);
      if oldestActiveNoteId == Some(noteId) || forceCorrect {
        activeNotes := activeNotes[1..];
        correctCount := correctCount + 1;
        isGamePaused := false;
      } else {
        incorrectCount := incorrectCount + 1;
        if activeNotes != [] {
          activeNotes := activeNotes[0 := activeNotes[0].(incorrect := true)];
        }
      }
      JudgeKeepsWellFormed(old(Snapshot()), noteId, forceCorrect, spawnLeft);
      JudgeKeepsPausedOnHead(old(Snapshot()), noteId, forceCorrect);
    }

    /**
     * `handleMIDIMessage` for a notification carrying the bytes in `value`:
     * start the game on the first message, copy the bytes, ignore the frame
     * unless byte 2 is the key-down value, look up the key name of the
     * octave position, and judge the raw note number in byte 3.
     */
    method HandleMidiMessage(value: array<byte>)
      requires Valid() && value.Length >= 4
      modifies this
      ensures Valid()
      ensures isGameStarted && startCount == 1
      ensures old(isGameStarted) ==> startCount == old(startCount)
      ensures Snapshot() == match KeyDownNote(value[..])
        case None => old(Snapshot())
        case Some(note) => Judged(old(Snapshot()), note, false)
      ensures spawned == old(spawned)
    {
      if !isGameStarted {
        StartGame();
      }
      var data := ReadBytes(value);
      var data2, note := data[2], data[3];
      if data2 != PianoKeydown {
        return;
      }
      var octavePosition := OctavePosition(note);
      var keyNote := FindKey(PianoKeyMaps, octavePosition);
      Judge(note, false);
    }
  }

  /** Playing the wrong key, then the right one, against a single spawned c4. */
  method ScenarioWrongThenRight()
  {
    var game := new GameSession(300);
    var frame := new byte[5] [128, 128, 0, 0, 0];
    game.HandleMidiMessage(frame);
    assert game.isGameStarted;
    game.SpawnTick(0);
    assert game.activeNotes == [Note(60, 300, false)];
    game.Judge(62, false);
    assert game.incorrectCount == 1 && game.activeNotes == [Note(60, 300, true)];
    game.Judge(60, false);
    assert game.correctCount == 1 && game.activeNotes == [];
  }

  /** A c4 that reaches the threshold pauses the game; spawning then stops until c4 is played. */
  method ScenarioPauseAndResume()
  {
    var game := new GameSession(101);
    game.StartGame();
    game.SpawnTick(0);
    game.SpawnTick(1);
    assert game.activeNotes == [Note(60, 101, false), Note(62, 101, false)];
    SweepPausesIff(game.activeNotes, false);
    SweepMovesPrefix(game.activeNotes, false);
    game.MovementTick();
    assert game.activeNotes == [Note(60, 94, false), Note(62, 94, false)] && !game.isGamePaused;
    SweepPausesIff(game.activeNotes, false);
    SweepMovesPrefix(game.activeNotes, false);
    game.MovementTick();
    assert game.activeNotes == [Note(60, 87, false), Note(62, 87, false)] && !game.isGamePaused;
    SweepPausesIff(game.activeNotes, false);
    SweepMovesPrefix(game.activeNotes, false);
    game.MovementTick();
    assert game.activeNotes == [Note(60, 87, false), Note(62, 87, false)] && game.isGamePaused;
    game.SpawnTick(4);
    assert |game.activeNotes| == 2;
    game.Judge(60, false);
    assert !game.isGamePaused && game.correctCount == 1 && game.activeNotes == [Note(62, 87, false)];
  }
}
