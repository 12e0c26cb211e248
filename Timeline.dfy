/**
 * The note timeline as values: the queue of pending notes, the movement
 * sweep, the spawner and the judge, each as a pure transition on a `Board`.
 * The class in module Game performs these transitions in place and is
 * proved against them.
 */
module Timeline {
  import opened Options
  import opened Catalog

  /** Pixels a note moves left on each movement tick. */
  const TravelSpeed: int := 7
  /** A note whose next position would be at or left of this stops and pauses the game. */
  const LeftThreshold: int := 80

  /**
   * A pending note: the catalog id of its pitch, its CSS `left` position in
   * pixels, and whether the "incorrect-note" class has been added to it.
   */
  datatype Note = Note(id: int, left: int, incorrect: bool)

  /** True when moving `n` once more would bring it to or past the threshold. */
  predicate Crosses(n: Note)
    ensures Crosses(n) <==> Moved(n).left <= LeftThreshold
  {
    n.left - TravelSpeed <= LeftThreshold
  }

  /** `n` moved one step to the left. */
  function Moved(n: Note): (r: Note)
    ensures r.id == n.id && r.incorrect == n.incorrect && n.left - r.left == TravelSpeed
  {
    n.(left := n.left - TravelSpeed)
  }

  // ----- Movement tick -----

  /**
   * One movement tick, visiting the queue from head to tail exactly as the
   * source's `forEach` does: once the game is paused, each remaining visit
   * returns straight away; a note that would cross the threshold pauses the
   * game and is not moved; any other note moves left by `TravelSpeed`.
   * Returns the new queue and the new pause flag.
   */
  function Sweep(notes: seq<Note>, paused: bool): (r: (seq<Note>, bool))
    ensures |r.0| == |notes|
    decreases |notes|
  {
    if paused || notes == [] then (notes, paused)
    else if Crosses(notes[0]) then (notes, true)
    else
      var rest := Sweep(notes[1..], false);
      ([Moved(notes[0])] + rest.0, rest.1)
  }

  /** The index of the first note that would cross the threshold, or `|notes|` if none would. */
  function FirstCrossing(notes: seq<Note>): (k: nat)
    ensures k <= |notes|
    ensures forall i :: 0 <= i < k ==> !Crosses(notes[i])
    ensures k < |notes| ==> Crosses(notes[k])
    decreases |notes|
  {
    if notes == [] || Crosses(notes[0]) then 0 else 1 + FirstCrossing(notes[1..])
  }

  /**
   * The sweep, described independently of its order of evaluation: when the
   * game is already paused nothing changes; otherwise the notes in front of
   * the first crossing note move, the crossing note and all notes behind it
   * stay, and the game ends paused exactly when there is a crossing note.
   */
  lemma {:induction false} SweepMovesPrefix(notes: seq<Note>, paused: bool)
    ensures paused ==> Sweep(notes, paused) == (notes, true)
    ensures !paused ==>
      var r := Sweep(notes, paused);
      var k := FirstCrossing(notes);
      (forall i :: 0 <= i < k ==> r.0[i] == Moved(notes[i])) &&
      (forall i :: k <= i < |notes| ==> r.0[i] == notes[i]) &&
      (r.1 <==> k < |notes|)
    decreases |notes|
  {
    if !paused && notes != [] && !Crosses(notes[0]) {
      SweepMovesPrefix(notes[1..], false);
      var r := Sweep(notes, paused);
      var rest := Sweep(notes[1..], false);
      assert r.0 == [Moved(notes[0])] + rest.0;
      forall i | 1 <= i < |notes|
        ensures r.0[i] == rest.0[i - 1]
      {
      }
    }
  }

  /** After a tick the game is paused exactly when it already was or some note reached the threshold check. */
  lemma {:induction false} SweepPausesIff(notes: seq<Note>, paused: bool)
    ensures Sweep(notes, paused).1 <==> paused || exists i :: 0 <= i < |notes| && Crosses(notes[i])
  {
    SweepMovesPrefix(notes, paused);
    var k := FirstCrossing(notes);
    if !paused && k == |notes| {
      assert forall i :: 0 <= i < |notes| ==> !Crosses(notes[i]);
    }
  }

  /**
   * A tick keeps the length, the order, the ids and the flags of the queue;
   * every position either drops by exactly `TravelSpeed` or stays, and a
   * position that drops stays to the right of the threshold.
   */
  lemma {:induction false} SweepBounds(notes: seq<Note>, paused: bool)
    ensures var r := Sweep(notes, paused).0;
      |r| == |notes| &&
      forall i :: 0 <= i < |notes| ==>
        r[i].id == notes[i].id && r[i].incorrect == notes[i].incorrect &&
        (r[i].left == notes[i].left ||
         (r[i].left == notes[i].left - TravelSpeed && r[i].left > LeftThreshold))
  {
    SweepMovesPrefix(notes, paused);
    var k := FirstCrossing(notes);
    var r := Sweep(notes, paused).0;
    if !paused {
      forall i | 0 <= i < k
        ensures r[i].left == notes[i].left - TravelSpeed && r[i].left > LeftThreshold
      {
        assert !Crosses(notes[i]);
      }
    }
  }

  // ----- The queue invariant -----

  /**
   * What every reachable queue satisfies: every id is a catalog id, every
   * position lies right of the threshold and no further right than the spawn
   * position, and positions never decrease from head to tail (older notes are
   * never behind newer ones).
   */
  predicate WellFormed(notes: seq<Note>, spawnLeft: int) {
    (forall i :: 0 <= i < |notes| ==>
       IsTrebleId(notes[i].id) && LeftThreshold < notes[i].left <= spawnLeft) &&
    (forall i, j :: 0 <= i < j < |notes| ==> notes[i].left <= notes[j].left)
  }

  /** A movement tick keeps the queue invariant: no move to the threshold or beyond is ever written. */
  lemma SweepKeepsWellFormed(notes: seq<Note>, paused: bool, spawnLeft: int)
    requires WellFormed(notes, spawnLeft)
    ensures WellFormed(Sweep(notes, paused).0, spawnLeft)
  {
    SweepMovesPrefix(notes, paused);
    SweepBounds(notes, paused);
    var r := Sweep(notes, paused).0;
    if !paused {
      var k := FirstCrossing(notes);
      forall i, j | 0 <= i < j < |r|
        ensures r[i].left <= r[j].left
      {
        assert notes[i].left <= notes[j].left;
        if i < k && j < k {
          assert r[i] == Moved(notes[i]) && r[j] == Moved(notes[j]);
        } else if i < k {
          assert r[i] == Moved(notes[i]) && r[j] == notes[j];
        } else {
          assert r[i] == notes[i] && r[j] == notes[j];
        }
      }
    }
  }

  /**
   * The queue holds, in order, exactly the spawned ids after the first
   * `answered` ones: the notes leave in the order they were spawned.
   */
  predicate Pending(notes: seq<Note>, spawned: seq<int>, answered: nat) {
    answered <= |spawned| && |notes| == |spawned| - answered &&
    forall i :: 0 <= i < |notes| ==> notes[i].id == spawned[answered + i]
  }

  /** A movement tick changes no id, so the queue still holds the same pending spawns. */
  lemma SweepKeepsPending(notes: seq<Note>, paused: bool, spawned: seq<int>, answered: nat)
    requires Pending(notes, spawned, answered)
    ensures Pending(Sweep(notes, paused).0, spawned, answered)
  {
    SweepBounds(notes, paused);
  }

  // ----- The head of the queue and the judge -----

  /** The id read from the oldest note; `None` stands for the `NaN` read from an empty queue. */
  function HeadId(notes: seq<Note>): (h: Option<int>)
    ensures h.Some? <==> notes != []
    ensures h.Some? ==> h.value == notes[0].id
  {
    if notes == [] then None else Some(notes[0].id)
  }

  /** The judge's test: the oldest note's id equals the played id, or the answer is forced. */
  predicate IsMatch(notes: seq<Note>, noteId: int, forceCorrect: bool)
    ensures IsMatch(notes, noteId, forceCorrect) <==>
      forceCorrect || (notes != [] && notes[0].id == noteId)
  {
    HeadId(notes) == Some(noteId) || forceCorrect
  }

  /** The queue with its oldest note marked incorrect; an empty queue stays empty. */
  function FlagHead(notes: seq<Note>): (r: seq<Note>)
    ensures |r| == |notes|
    ensures notes != [] ==> r[0].incorrect && r[0].id == notes[0].id && r[0].left == notes[0].left
    ensures forall i :: 1 <= i < |notes| ==> r[i] == notes[i]
  {
    if notes == [] then [] else [notes[0].(incorrect := true)] + notes[1..]
  }

  // ----- The whole observable state -----

  /** The queue, the pause flag and the two score counters. */
  datatype Board = Board(notes: seq<Note>, paused: bool, correct: nat, incorrect: nat)

  /** The spawner's tick: unless paused, append catalog pitch `idx` at the spawn position. */
  function Spawned(b: Board, idx: nat, spawnLeft: int): (r: Board)
    requires idx < |TrebleNotes|
    ensures r.paused == b.paused && r.correct == b.correct && r.incorrect == b.incorrect
    ensures |r.notes| == |b.notes| + (if b.paused then 0 else 1)
    ensures r.notes[..|b.notes|] == b.notes
  {
    if b.paused then b
    else b.(notes := b.notes + [Note(TrebleNotes[idx].id, spawnLeft, false)])
  }

  /** The movement tick on the whole state. */
  function Ticked(b: Board): (r: Board)
    ensures r.correct == b.correct && r.incorrect == b.incorrect && |r.notes| == |b.notes|
    ensures b.paused ==> r == b
  {
    SweepMovesPrefix(b.notes, b.paused);
    var s := Sweep(b.notes, b.paused);
    b.(notes := s.0, paused := s.1)
  }

  /** `updateClefOnKeypress(noteId, forceCorrect)`. A forced answer needs a note to remove. */
  function Judged(b: Board, noteId: int, forceCorrect: bool): (r: Board)
    requires forceCorrect ==> b.notes != []
    ensures r.correct + r.incorrect == b.correct + b.incorrect + 1
    ensures r.correct >= b.correct && r.incorrect >= b.incorrect
    ensures |r.notes| + r.correct == |b.notes| + b.correct
    ensures r.paused ==> b.paused
  {
    if IsMatch(b.notes, noteId, forceCorrect) then
      b.(notes := b.notes[1..], correct := b.correct + 1, paused := false)
    else
      b.(notes := FlagHead(b.notes), incorrect := b.incorrect + 1)
  }

  /**
   * Unless paused, a spawner tick adds exactly one note, at the tail, whose id
   * is that of catalog entry `idx`; the existing notes and the counters are
   * unchanged. When paused, nothing changes.
   */
  lemma SpawnAppends(b: Board, idx: nat, spawnLeft: int)
    requires idx < |TrebleNotes|
    ensures var r := Spawned(b, idx, spawnLeft);
      r.paused == b.paused && r.correct == b.correct && r.incorrect == b.incorrect &&
      (b.paused ==> r.notes == b.notes) &&
      (!b.paused ==>
        |r.notes| == |b.notes| + 1 && r.notes[..|b.notes|] == b.notes &&
        r.notes[|b.notes|] == Note(TrebleNotes[idx].id, spawnLeft, false))
  {
  }

  /** Spawning keeps the queue invariant, given a spawn position right of the threshold. */
  lemma SpawnKeepsWellFormed(b: Board, idx: nat, spawnLeft: int)
    requires idx < |TrebleNotes| && spawnLeft > LeftThreshold
    requires WellFormed(b.notes, spawnLeft)
    ensures WellFormed(Spawned(b, idx, spawnLeft).notes, spawnLeft)
  {
  }

  /** A movement tick when already paused changes nothing at all. */
  lemma TickWhilePaused(b: Board)
    requires b.paused
    ensures Ticked(b) == b
  {
  }

  /**
   * A movement tick changes only positions and the pause flag: each position
   * drops by `TravelSpeed` or stays, the moves form a prefix cut off by the
   * first crossing note, and the game ends paused exactly when it was paused
   * or some note reached the threshold check. The counters are unchanged.
   */
  lemma TickSpec(b: Board, spawnLeft: int)
    requires WellFormed(b.notes, spawnLeft)
    ensures var r := Ticked(b);
      r.correct == b.correct && r.incorrect == b.incorrect &&
      WellFormed(r.notes, spawnLeft) &&
      (r.paused <==> b.paused || exists i :: 0 <= i < |b.notes| && Crosses(b.notes[i])) &&
      (!b.paused ==>
        (forall i :: 0 <= i < FirstCrossing(b.notes) ==> r.notes[i] == Moved(b.notes[i])) &&
        (forall i :: FirstCrossing(b.notes) <= i < |b.notes| ==> r.notes[i] == b.notes[i]))
  {
    SweepMovesPrefix(b.notes, b.paused);
    SweepPausesIff(b.notes, b.paused);
    SweepKeepsWellFormed(b.notes, b.paused, spawnLeft);
  }

  /**
   * A match (the oldest note's id equals the played id, or a forced answer)
   * removes exactly the oldest note, adds one to the correct counter, resumes
   * the game and leaves the incorrect counter alone.
   */
  lemma JudgeMatch(b: Board, noteId: int, forceCorrect: bool)
    requires b.notes != []
    requires b.notes[0].id == noteId || forceCorrect
    ensures var r := Judged(b, noteId, forceCorrect);
      r.notes == b.notes[1..] && r.correct == b.correct + 1 &&
      !r.paused && r.incorrect == b.incorrect
  {
  }

  /**
   * A mismatch adds one to the incorrect counter and flags the oldest note,
   * if any; the queue's ids and positions, the correct counter and the pause
   * flag are unchanged, so a mismatch never resumes a paused game. This is
   * also what a non-forced answer does to an empty queue.
   */
  lemma JudgeMismatch(b: Board, noteId: int)
    requires HeadId(b.notes) != Some(noteId)
    ensures var r := Judged(b, noteId, false);
      r.incorrect == b.incorrect + 1 && r.correct == b.correct && r.paused == b.paused &&
      |r.notes| == |b.notes| &&
      (forall i :: 0 <= i < |b.notes| ==>
         r.notes[i].id == b.notes[i].id && r.notes[i].left == b.notes[i].left) &&
      (b.notes != [] ==> r.notes[0].incorrect) &&
      (b.notes == [] ==> r.notes == [])
  {
  }

  /** Judging keeps the queue invariant. */
  lemma JudgeKeepsWellFormed(b: Board, noteId: int, forceCorrect: bool, spawnLeft: int)
    requires forceCorrect ==> b.notes != []
    requires WellFormed(b.notes, spawnLeft)
    ensures WellFormed(Judged(b, noteId, forceCorrect).notes, spawnLeft)
  {
  }

  // ----- Whom the pause waits for -----

  /**
   * Under the queue invariant the oldest note is the leftmost, so either the
   * oldest note would cross the threshold or none would: a tick never stops
   * part-way through the queue.
   */
  lemma CrossingIsAllOrNothing(notes: seq<Note>, spawnLeft: int)
    requires WellFormed(notes, spawnLeft)
    ensures FirstCrossing(notes) == 0 || FirstCrossing(notes) == |notes|
  {
  }

  /**
   * On a reachable queue an unpaused tick either moves every note and stays
   * unpaused, or moves none and pauses, the oldest note being the one that
   * reached the threshold check.
   */
  lemma TickAllOrNothing(b: Board, spawnLeft: int)
    requires WellFormed(b.notes, spawnLeft) && !b.paused
    ensures var r := Ticked(b);
      (!r.paused && forall i :: 0 <= i < |b.notes| ==> r.notes[i] == Moved(b.notes[i])) ||
      (r.paused && r.notes == b.notes && Crosses(b.notes[0]))
  {
    SweepMovesPrefix(b.notes, b.paused);
    CrossingIsAllOrNothing(b.notes, spawnLeft);
    var r := Ticked(b);
    if FirstCrossing(b.notes) < |b.notes| {
      assert r.notes == b.notes;
    }
  }

  /** The game is paused only while its oldest note stands at the threshold. */
  predicate PausedOnHead(b: Board) {
    b.paused ==> b.notes != [] && Crosses(b.notes[0])
  }

  /** A movement tick pauses the game only on the oldest note. */
  lemma TickKeepsPausedOnHead(b: Board, spawnLeft: int)
    requires WellFormed(b.notes, spawnLeft) && PausedOnHead(b)
    ensures PausedOnHead(Ticked(b))
  {
    if !b.paused {
      TickAllOrNothing(b, spawnLeft);
    }
  }

  /** A spawner tick keeps the paused game's oldest note in place. */
  lemma SpawnKeepsPausedOnHead(b: Board, idx: nat, spawnLeft: int)
    requires idx < |TrebleNotes| && PausedOnHead(b)
    ensures PausedOnHead(Spawned(b, idx, spawnLeft))
  {
  }

  /** A judgment keeps the paused game's oldest note in place, or resumes the game. */
  lemma JudgeKeepsPausedOnHead(b: Board, noteId: int, forceCorrect: bool)
    requires forceCorrect ==> b.notes != []
    requires PausedOnHead(b)
    ensures PausedOnHead(Judged(b, noteId, forceCorrect))
  {
  }

  /**
   * A paused game resumes on exactly the answers that match its oldest note
   * (or are forced), and resuming removes that note, the very note whose
   * arrival at the threshold paused the game.
   */
  lemma OnlyStuckNoteResumes(b: Board, noteId: int, forceCorrect: bool)
    requires forceCorrect ==> b.notes != []
    requires PausedOnHead(b) && b.paused
    ensures var r := Judged(b, noteId, forceCorrect);
      (!r.paused <==> IsMatch(b.notes, noteId, forceCorrect)) &&
      (!r.paused ==> Crosses(b.notes[0]) && r.notes == b.notes[1..])
  {
  }

  /** `n` wrong answers `noteId` in a row. */
  function Mismatches(b: Board, noteId: int, n: nat): (r: Board)
    decreases n
  {
    if n == 0 then b else Mismatches(Judged(b, noteId, false), noteId, n - 1)
  }

  /**
   * Repeated wrong answers against a stuck oldest note count every one of
   * them but never remove that note, never change the queue's ids or
   * positions and never resume the game; only a correct answer removes it.
   */
  lemma {:induction false} RepeatedMismatches(b: Board, noteId: int, n: nat)
    requires b.notes != [] && b.notes[0].id != noteId
    ensures var r := Mismatches(b, noteId, n);
      r.incorrect == b.incorrect + n && r.correct == b.correct && r.paused == b.paused &&
      |r.notes| == |b.notes| && r.notes[0].id == b.notes[0].id &&
      (forall i :: 0 <= i < |b.notes| ==>
         r.notes[i].id == b.notes[i].id && r.notes[i].left == b.notes[i].left)
    decreases n
  {
    if n > 0 {
      var b' := Judged(b, noteId, false);
      JudgeMismatch(b, noteId);
      RepeatedMismatches(b', noteId, n - 1);
    }
  }
}
