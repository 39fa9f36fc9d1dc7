# Piano keyboard: a verified model of its input and sound logic

The piano is a browser toy (keyboard.js): twenty computer keys, from "a" up to
Enter, play the notes F3 to C5. A `Keyboarder` keeps the ordered list of held
key codes and two edge flags (`newKeyDown`, `newKeyUp`) raised by the DOM key
handlers. Once per animation frame `Game.update` filters the held list down to
the layout keys, hands the sprite one overlay cell per held key, starts an
oscillator for each held note whose slot is empty when a key has just gone
down, stops every occupied slot of a layout key that is not held when a key
has just come up, and lowers both flags. A `Player` holds one oscillator slot
per note.

The model keeps that structure:

- `ArrayOps` (array_ops.dfy): the JavaScript array built-ins the code relies
  on, `indexOf`, `filter`, the `splice` of one element, and the `diff` helper
  that keyboard.js installs on `Array.prototype`.
- `KeyTable` (key_table.dfy): `ALLKEYS`, the `KEYS` table, and its second,
  inline copy in `Game.update`.
- `Keyboard` (keyboarder.dfy): the Keyboarder as a value (`KeyState` with the
  transitions `Press`, `Release`, `Restrict`) and as a class whose methods
  update its fields in place and are proved to perform those transitions.
- `Audio` (player.dfy): the Player as a class with a slot per note. The Web
  Audio side is two ghost counters per note, oscillators started and
  stopped, so "a tone is sounding" and "an oscillator was started twice" can
  be stated.
- `Sprites` (sprite.dfy): the sprite's overlay list.
- `Piano` (game.dfy): one update step as a function on values (`Tick`), the
  `Game` class whose `Update` is proved to perform it, and the lemmas about
  what a tick guarantees. The central one is `AlwaysInSync`: from the
  initial state, whatever key events arrive between ticks, after every tick
  a note's slot is occupied exactly when its key is held. That no note
  sounds twice is the `Game` invariant (`Player.NoStrayTones`: each
  occupied slot has one sounding tone, each empty slot none), which
  `Game.Update` preserves because it starts an oscillator only on an empty
  slot and stops one only on an occupied slot.

Three behaviours of keyboard.js that one might expect to be otherwise:

- One might expect keyDown to ignore keys outside the layout; it does not
  (keyboard.js:179-184). Any key code, an arrow key say, is appended to the
  held list and raises `newKeyDown`.
  The code is only dropped at the next `filter`. `Keyboard.Press` models
  this, and `Piano.TickResynchronises` shows that it does no harm: the
  spurious edge only makes the tick re-check slots that are already right.
- `Player.start` does not check its slot (keyboard.js:227-230). Only the
  caller's guard (keyboard.js:70) prevents a second oscillator on a note.
  `Audio.Player.Start` has no such check and counts the extra tone.
- `Player.stop` on an empty slot is not a no-op: it calls `.stop()` on
  `null` and throws (keyboard.js:232-235). `Audio.Player.Stop` therefore
  requires an occupied slot, and the caller's guard (keyboard.js:83) is
  proved to establish it.

## Model

| member | source | states |
|---|---|---|
| ArrayOps.IndexOf | keyboard.js:180 | `indexOf` is -1 exactly when the value is absent; otherwise it is the first index holding the value |
| ArrayOps.Filter | keyboard.js:203 | `filter` keeps exactly the elements its callback accepts, in their original order, and never lengthens the list |
| ArrayOps.FilterCounts | keyboard.js:203 | `filter` keeps every occurrence of an accepted value and drops every occurrence of a rejected one |
| ArrayOps.FilterKeepsDistinct | keyboard.js:203 | filtering a list that has no duplicates gives a list that has none |
| ArrayOps.FilterIdempotent | keyboard.js:203 | filtering twice with the same callback is the same as filtering once |
| ArrayOps.FilterAllKept | keyboard.js:203 | when the callback accepts every element, `filter` returns the list unchanged |
| ArrayOps.Diff | keyboard.js:240-242 | `a.diff(b)` holds exactly the elements of `a` that are not in `b`, in `a`'s order, and has no duplicates if `a` has none |
| ArrayOps.SpliceRemovesAll | keyboard.js:187-189 | on a list without duplicates, `splice(indexOf(x), 1)` removes every occurrence of `x` and keeps all other elements in order |
| ArrayOps.WithoutAbsent | keyboard.js:187-188 | removing a value that is not in the list leaves the list unchanged |
| KeyTable.NoteOf | keyboard.js:146-166 | `KEYS[code]` is a note index in 0..19, and `ALLKEYS` holds the same code at that index |
| KeyTable.KeysCoverAllKeys | keyboard.js:145-166 | `KEYS` is defined on exactly the codes of `ALLKEYS` |
| KeyTable.KeysIndexAllKeys | keyboard.js:145-166 | `ALLKEYS` has 20 distinct codes and `KEYS` maps `ALLKEYS[n]` to `n`, so `KEYS` is a bijection onto 0..19 |
| KeyTable.NoteOfIsUnique | keyboard.js:145-166 | a layout code occurs in `ALLKEYS` only at index `KEYS[code]` |
| KeyTable.SpriteKeysAreKeys | keyboard.js:38-58 | the inline table in `update` is the Keyboarder's `KEYS` table |
| Keyboard.Press | keyboard.js:179-184 | keyDown appends a code that is not held and raises `newKeyDown`; a code already held changes nothing; `newKeyUp` is untouched |
| Keyboard.Release | keyboard.js:186-192 | keyUp of a held code removes it from a list without duplicates and raises `newKeyUp`; other codes stay held; an absent code changes nothing; `newKeyDown` is untouched |
| Keyboard.FilterKeys | keyboard.js:194-204 | filter keeps exactly the held codes that are in `ALLKEYS`, in hold order, and cannot create a duplicate |
| Keyboard.FilterKeysKeepsLayout | keyboard.js:194-204 | filter leaves a list of layout codes unchanged |
| Keyboard.IsInArray | keyboard.js:195-199 | the callback built by `isInArray(list)` accepts exactly the members of `list` |
| Keyboard.Restrict | keyboard.js:194-204 | filter keeps exactly the held codes that are layout codes, in hold order, without creating a duplicate, and leaves both flags as they were |
| Keyboard.PressIsIdempotent | keyboard.js:180 | a repeated keyDown of the same code, as key auto-repeat sends, changes nothing |
| Keyboard.PressKeepsDistinct | keyboard.js:180-181 | keyDown never makes a code held twice |
| Keyboard.ReleaseKeepsDistinct | keyboard.js:187-189 | after keyUp the released code is no longer held and no code is held twice |
| Keyboard.ReleaseUndoesPress | keyboard.js:179-192 | a keyUp right after the keyDown of a code that was not held restores the held list |
| Keyboard.RestrictIsIdempotent | keyboard.js:194-204 | a second filter changes nothing |
| Keyboard.Keyboarder.constructor | keyboard.js:168-171 | a new Keyboarder holds no key and has both flags down |
| Keyboard.Keyboarder.KeyDown | keyboard.js:179-184 | the handler performs `Press` on the object's fields and keeps the held list free of duplicates |
| Keyboard.Keyboarder.KeyUp | keyboard.js:186-192 | the handler performs `Release` on the object's fields and keeps the held list free of duplicates |
| Keyboard.Keyboarder.Filter | keyboard.js:194-204 | filter performs `Restrict` on the object's fields and keeps the held list free of duplicates |
| Audio.Player.constructor | keyboard.js:207-217 | a new Player has `numNotes` empty slots and no tone sounding |
| Audio.Player.Start | keyboard.js:227-230 | start occupies the slot and adds one sounding tone at that note, whether or not the slot was occupied before; nothing else changes |
| Audio.Player.Stop | keyboard.js:232-235 | stop, on an occupied slot, silences its tone and empties the slot; nothing else changes |
| Sprites.Sprite.constructor | keyboard.js:100-107 | a new sprite overlays cell 0 only and keeps its cell size |
| Sprites.Sprite.Update | keyboard.js:139-141 | update replaces the overlay list with the given one |
| Piano.FrameIndices | keyboard.js:37-60 | one overlay per held key, in hold order; each is in 1..20 and is the cell of that key's note |
| Piano.FrameIsNotePlusOne | keyboard.js:37-60 | each overlay is the held key's `KEYS` note plus one |
| Piano.TickFiltersAndDraws | keyboard.js:31-92 | after update only layout keys are held, in hold order, with no duplicate added; the overlays are their cells; both flags are down |
| Piano.TickStartsHeldNotes | keyboard.js:64-74 | on a key-down edge every held key's note has an occupied slot after update |
| Piano.TickStopsReleasedNotes | keyboard.js:76-87 | on a key-up edge every slot of a layout key that is not held is empty after update; a held key's slot is kept, or filled on a simultaneous key-down edge |
| Piano.Reconcile | keyboard.js:63-87 | the slots after update: on a key-down edge every held note's slot is occupied, on a key-up edge every slot of a layout key not held is empty, and a slot changes only for one of those two reasons |
| Piano.Tick | keyboard.js:31-92 | one update on values: only the held layout keys stay held, in hold order; one overlay per held key, lighting that key; both flags down; held notes occupied on a key-down edge, unheld layout notes empty on a key-up edge, slots untouched with no edge |
| Piano.Deliver | keyboard.js:179-192 | the key handlers applied to a sequence of events in turn never lower an edge flag |
| Piano.LayoutDiff | keyboard.js:78 | `ALLKEYS.diff(keysDown)` holds exactly the layout codes that are not held |
| Piano.EdgesRecordChanges | keyboard.js:179-192 | between two updates a raised flag stays raised, a code that became held raised `newKeyDown`, and a code that stopped being held raised `newKeyUp` |
| Piano.DeliverKeepsDistinct | keyboard.js:179-192 | no sequence of key events makes a code held twice |
| Piano.TickResynchronises | keyboard.js:31-92 | from a settled state (flags down, slots matching the held layout keys), any key events followed by update lead to a settled state again |
| Piano.ReleaseLeavesOtherNotes | keyboard.js:76-87 | releasing one key of a chord and updating silences that key's note and leaves every other slot as it was |
| Piano.AlwaysInSync | keyboard.js:22-27 | from a settled state, after every update of every run, the occupied slots are exactly the notes of the held keys |
| Piano.InitialIsSettled | keyboard.js:3-28 | the state after construction is settled, so `AlwaysInSync` applies to every run of the piano |
| Piano.FramesOfChord | keyboard.js:37-60 | the held list [a, w] gives the overlays [1, 2] |
| Piano.TickAfterPress | keyboard.js:31-92 | after only layout keys were pressed, update keeps the held list, draws it, sounds every held note and leaves all other slots alone |
| Piano.TickAfterRelease | keyboard.js:31-92 | after only releases, update keeps the held layout keys, draws them, silences every note that is not held and keeps the held notes' slots |
| Piano.ReconcileInTwoPasses | keyboard.js:63-87 | the key-down pass followed by the key-up pass, each run only on its edge, gives the slots that update promises |
| Piano.ScenarioPressA | keyboard.js:31-92 | pressing "a" in a quiet state and updating sounds note 0 alone, with overlay [1] |
| Piano.ScenarioReleaseA | keyboard.js:31-92 | releasing "a" again and updating silences every note and clears the overlays |
| Piano.ScenarioChordPress | keyboard.js:31-92 | pressing "a" then "w" in a quiet state and updating sounds notes 0 and 1 and no other, overlays [1, 2] in hold order |
| Piano.ScenarioChordRelease | keyboard.js:31-92 | releasing only "a" of that chord and updating keeps note 1, silences note 0, overlay [2] |
| Piano.ScenarioTapBetweenTicks | keyboard.js:179-192 | a press and release of "a" between two updates raises both flags, yet the update sounds no note and draws no overlay |
| Piano.Game.constructor | keyboard.js:3-19 | a new game is in the initial state with fresh parts |
| Piano.Game.Update | keyboard.js:31-92 | update performs `Tick` on the Keyboarder, Player and Sprite, and starts (stops) an oscillator only for a slot that goes from empty to occupied (occupied to empty), so no note is started twice |
| Piano.Game.UpdateSlots | keyboard.js:63-87 | the two oscillator blocks of update turn the slots into `Reconcile` of the old ones, start (stop) an oscillator only where a slot goes from empty to occupied (occupied to empty), and keep every sounding tone in its slot |
| Piano.Game.StartNotes | keyboard.js:64-74 | the key-down loop fills exactly the empty slots of the held notes, starting one oscillator for each, and stops none |
| Piano.Game.StopReleasedNotes | keyboard.js:76-87 | the key-up branch empties exactly the occupied slots of layout keys that are not held, stopping one oscillator for each, and starts none |
| Piano.Game.StopNotes | keyboard.js:81-86 | the key-up loop over `keyDiffs` empties exactly the occupied slots of the listed keys, stopping one oscillator for each |

## Left out

- Drawing: the canvas, `Game.draw`, `Sprite.draw` and the sprite sheet image are not modelled; the sprite's width and height are kept but not used.
- Web Audio: the `AudioContext`, `newOscillator` and the oscillator objects are not modelled. A slot is a boolean, and the sound is two ghost counters per note.
- The frequency table (`startingPitch * 2^(i/12)`) is floating point and is not modelled; `Player`'s constructor takes only the number of notes.
- The `requestAnimationFrame` loop, `window.onload` and the DOM event-listener wiring are not modelled. `Piano.Run` stands for a sequence of frames, and the key events between two frames are given as a list. The model also does not perform the first update that the constructor runs straight away (`tick();` at keyboard.js:27): `Piano.Game.constructor` ends in `Piano.Initial()`, whose overlay list is `[0]`, while in the source the frames are already `[]` when the constructor returns. Update never reads the overlay list, so from the next update on the two states agree.
- The monkey-patching of `Array.prototype` is not modelled; `diff` is the plain function `ArrayOps.Diff`.
- Audio.Player.constructor: the JavaScript oscillator array starts empty, and its fill loop never runs because it is bounded by the array's own length. An unwritten slot reads as `undefined`, which the update loop's `== null` tests treat as empty. The model starts with `numNotes` empty slots, which reads the same at every index the update loop uses.
- Piano.FrameIndices: requires every held code to be a layout code. For any other code the source would compute `undefined + 1`, which is `NaN`. That cannot happen, because `update` runs `filter` first.
- Audio.Player.Stop: requires an occupied slot, because on an empty slot the source throws. Its only caller guards against that.
- Key codes are integers; the string keys of the `KEYS` object literal are modelled as integer map keys, which is how JavaScript looks up `KEYS[n]` for a numeric `n`.
