/** The fixed catalog of treble notes the spawner draws from. */
module Catalog {

  /** A playable pitch: its CSS label and its MIDI note number. */
  datatype Pitch = Pitch(name: string, id: int)

  /** `possibleTrebleNotes`: the naturals from c4 to a5, in ascending order. */
  const TrebleNotes: seq<Pitch> := [
    Pitch("c4", 60),
    Pitch("d4", 62),
    Pitch("e4", 64),
    Pitch("f4", 65),
    Pitch("g4", 67),
    Pitch("a4", 69),
    Pitch("b4", 71),
    Pitch("c5", 72),
    Pitch("d5", 74),
    Pitch("e5", 76),
    Pitch("f5", 77),
    Pitch("g5", 79),
    Pitch("a5", 81)
  ]

  /** True when `id` is the MIDI number of some catalog pitch. */
  predicate IsTrebleId(id: int) {
    exists k :: 0 <= k < |TrebleNotes| && TrebleNotes[k].id == id
  }

  /** The catalog has 13 entries and its ids strictly ascend, so no two pitches share an id. */
  lemma TrebleIdsAscend()
    ensures |TrebleNotes| == 13
    ensures forall i, j :: 0 <= i < j < |TrebleNotes| ==> TrebleNotes[i].id < TrebleNotes[j].id
  {
  }
}
