/**
 * The fixed key layout of the piano: twenty key codes, from "a" (F3) up to
 * Enter (C5), and the table that gives each its note index. keyboard.js
 * writes the table twice, once in the Keyboarder and once inline in the
 * sprite-frame mapping of Game.update; both copies are kept here so that
 * their agreement is a proved fact rather than an assumption.
 */
module KeyTable {
  import opened ArrayOps

  /** Number of notes the player is built with. */
  const NumNotes: nat := 20

  /** ALLKEYS: the key codes that play a note, in pitch order. */
  const AllKeys: seq<int> :=
    [65, 87, 83, 69, 68, 82, 70, 71, 89, 72, 85, 74, 75, 79, 76, 80, 186, 219, 222, 13]

  /** KEYS as the Keyboarder holds it: key code to note index. */
  const Keys: map<int, int> :=
    map[65 := 0, 87 := 1, 83 := 2, 69 := 3, 68 := 4, 82 := 5, 70 := 6, 71 := 7,
        89 := 8, 72 := 9, 85 := 10, 74 := 11, 75 := 12, 79 := 13, 76 := 14, 80 := 15,
        186 := 16, 219 := 17, 222 := 18, 13 := 19]

  /** The copy of KEYS written inside the sprite-frame mapping of Game.update. */
  const SpriteKeys: map<int, int> :=
    map[65 := 0, 87 := 1, 83 := 2, 69 := 3, 68 := 4, 82 := 5, 70 := 6, 71 := 7,
        89 := 8, 72 := 9, 85 := 10, 74 := 11, 75 := 12, 79 := 13, 76 := 14, 80 := 15,
        186 := 16, 219 := 17, 222 := 18, 13 := 19]

  /** `KEYS[code]` for a code of the layout: the note it plays. */
  function NoteOf(code: int): (n: int)
    requires code in Keys
    ensures 0 <= n < NumNotes && AllKeys[n] == code
  {
    Keys[code]
  }

  /** KEYS is defined on exactly the codes of ALLKEYS. */
  lemma KeysCoverAllKeys()
    ensures forall code :: code in Keys <==> code in AllKeys
  {
  }

  /**
   * KEYS sends ALLKEYS[n] to n, and ALLKEYS repeats no code, so KEYS is a
   * bijection from ALLKEYS onto the note indices 0..19.
   */
  lemma KeysIndexAllKeys()
    ensures |AllKeys| == NumNotes && NoDuplicates(AllKeys)
    ensures forall n :: 0 <= n < NumNotes ==> AllKeys[n] in Keys && Keys[AllKeys[n]] == n
  {
  }

  /** The note of a layout code is the only position of that code in ALLKEYS. */
  lemma NoteOfIsUnique(code: int)
    requires code in Keys
    ensures forall n :: 0 <= n < NumNotes ==> (AllKeys[n] == code <==> n == NoteOf(code))
  {
    KeysIndexAllKeys();
  }

  /** The two copies of the table are the same table. */
  lemma SpriteKeysAreKeys()
    ensures SpriteKeys == Keys
    ensures forall code :: code in SpriteKeys <==> code in Keys
    ensures forall code :: code in Keys ==> SpriteKeys[code] == Keys[code]
  {
  }
}
