/**
 * Decoding the MIDI notifications of the piano: the byte frame, the key-down
 * filter, the octave position of a note number and its key name.
 */
module Midi {
  import opened Options
  import opened Catalog

  /** One byte as read by `DataView.getUint8`. */
  type byte = x: int | 0 <= x < 256

  /** The value of frame byte 2 that marks a key press; anything else (a key release) is ignored. */
  const PianoKeydown: byte := 144
  /** Keys per octave. */
  const OctaveKeyCount: int := 12

  /** An entry of `pianoKeyMaps`: a key name and its offset within the octave. */
  datatype KeyMap = KeyMap(name: string, note: int)

  /** `pianoKeyMaps`: the twelve chromatic keys of an octave, C first. */
  const PianoKeyMaps: seq<KeyMap> := [
    KeyMap("C", 0),
    KeyMap("C# (or Db)", 1),
    KeyMap("D", 2),
    KeyMap("D# (or Eb)", 3),
    KeyMap("E", 4),
    KeyMap("F", 5),
    KeyMap("F# (or Gb)", 6),
    KeyMap("G", 7),
    KeyMap("G# (or Ab)", 8),
    KeyMap("A", 9),
    KeyMap("A# (or Bb)", 10),
    KeyMap("B", 11)
  ]

  /** `maps.find(m => m.note === p)`: the first entry for offset `p`, or `None` (`undefined`). */
  function FindKey(maps: seq<KeyMap>, p: int): (r: Option<KeyMap>)
    ensures r.None? <==> forall j :: 0 <= j < |maps| ==> maps[j].note != p
    ensures r.Some? ==>
      exists i :: 0 <= i < |maps| && maps[i] == r.value && r.value.note == p &&
        forall j :: 0 <= j < i ==> maps[j].note != p
    decreases |maps|
  {
    if maps == [] then None
    else if maps[0].note == p then Some(maps[0])
    else
      var r := FindKey(maps[1..], p);
      assert r.Some? ==> exists i :: 0 <= i < |maps| && maps[i] == r.value &&
                                (forall j :: 0 <= j < i ==> maps[j].note != p) by {
        if r.Some? {
          var i :| 0 <= i < |maps| - 1 && maps[1..][i] == r.value && r.value.note == p &&
            forall j :: 0 <= j < i ==> maps[1..][j].note != p;
          assert maps[i + 1] == r.value;
          assert forall j :: 1 <= j < i + 1 ==> maps[j] == maps[1..][j - 1];
        }
      }
      assert r.None? ==> forall j :: 1 <= j < |maps| ==> maps[j] == maps[1..][j - 1];
      r
  }

  /** `note % OCTAVE_KEY_COUNT` for a byte: the unique offset in [0, 12) congruent to `note`. */
  function OctavePosition(note: byte): (p: int)
    ensures 0 <= p < OctaveKeyCount
    ensures (note - p) % OctaveKeyCount == 0
  {
    note % OctaveKeyCount
  }

  /** Entry `k` of `pianoKeyMaps` is the key at offset `k`. */
  lemma KeyMapsAreIndexed()
    ensures |PianoKeyMaps| == OctaveKeyCount
    ensures forall k :: 0 <= k < |PianoKeyMaps| ==> PianoKeyMaps[k].note == k
  {
  }

  /**
   * Every octave position resolves to exactly one entry of `pianoKeyMaps`,
   * and `find` returns that entry.
   */
  lemma OctavePositionResolves(note: byte)
    ensures var p := OctavePosition(note);
      FindKey(PianoKeyMaps, p) == Some(PianoKeyMaps[p]) &&
      forall j :: 0 <= j < |PianoKeyMaps| && PianoKeyMaps[j].note == p ==> j == p
  {
    KeyMapsAreIndexed();
    var p := OctavePosition(note);
    var r := FindKey(PianoKeyMaps, p);
    assert PianoKeyMaps[p].note == p;
    var i :| 0 <= i < |PianoKeyMaps| && PianoKeyMaps[i] == r.value && r.value.note == p &&
      forall j :: 0 <= j < i ==> PianoKeyMaps[j].note != p;
  }

  /** The key name shown for a played note number. */
  function KeyName(note: byte): (name: Option<string>)
    ensures name.Some? && name.value == PianoKeyMaps[note % OctaveKeyCount].name
  {
    OctavePositionResolves(note);
    match FindKey(PianoKeyMaps, OctavePosition(note))
    case None => None
    case Some(k) => Some(k.name)
  }

  /** The upper-case form of a lower-case ASCII letter. */
  function UpperCase(c: char): (u: char)
    requires 'a' <= c <= 'z'
    ensures 'A' <= u <= 'Z' && u as int - 'A' as int == c as int - 'a' as int
  {
    (c as int - 'a' as int + 'A' as int) as char
  }

  /**
   * Every catalog pitch is a natural key: the key name shown for its id is
   * the letter of its label in upper case, never a sharp or flat.
   */
  lemma TrebleNotesAreNaturals()
    ensures forall p :: p in TrebleNotes ==>
      0 <= p.id < 256 && |p.name| > 0 && 'a' <= p.name[0] <= 'z' &&
      KeyName(p.id) == Some([UpperCase(p.name[0])])
  {
    forall p | p in TrebleNotes
      ensures 0 <= p.id < 256 && |p.name| > 0 && 'a' <= p.name[0] <= 'z' &&
        KeyName(p.id) == Some([UpperCase(p.name[0])])
    {
      NaturalKey(p);
    }
  }

  /** One catalog pitch's label letter names the key at its octave position. */
  lemma NaturalKey(p: Pitch)
    requires p in TrebleNotes
    ensures 0 <= p.id < 256 && |p.name| > 0 && 'a' <= p.name[0] <= 'z'
    ensures PianoKeyMaps[p.id % OctaveKeyCount].name == [UpperCase(p.name[0])]
  {
  }

  /**
   * The key-down filter and the destructuring `[status, data1, data2, note, velocity]`:
   * a frame reaches the judge exactly when its byte 2 is 144, and then with the raw byte 3
   * (not its octave position).
   */
  function KeyDownNote(data: seq<byte>): (r: Option<byte>)
    requires |data| >= 4
    ensures r.Some? <==> data[2] == PianoKeydown
    ensures r.Some? ==> r.value == data[3]
  {
    if data[2] != PianoKeydown then None else Some(data[3])
  }

  /** The loop that copies the notification's `DataView` into a plain list of bytes. */
  method ReadBytes(value: array<byte>) returns (data: seq<byte>)
    ensures data == value[..]
  {
    data := [];
    var i := 0;
    while i < value.Length
      invariant 0 <= i <= value.Length
      invariant data == value[..i]
    {
      data := data + [value[i]];
      i := i + 1;
    }
  }
}
