/**
 * The game loop's update step: once per animation frame it filters the held
 * keys, rebuilds the sprite's overlay list from them, starts an oscillator
 * for every held note whose slot is empty when a key has just gone down,
 * stops every occupied slot of a layout key that is not held when a key has
 * just come up, and clears both edge flags.
 *
 * `Tick` states the whole step on values; `Game.Update` performs it on the
 * Keyboarder, Player and Sprite objects and is proved to agree with it.
 * The lemmas below say what a tick guarantees, and that from the initial
 * state the sounding notes equal the held notes after every tick, whatever
 * key events arrive in between.
 */
module Piano {
  import opened ArrayOps
  import opened KeyTable
  import opened Keyboard
  import opened Audio
  import opened Sprites

  /** What the game loop reads and writes: keyboard state, oscillator slots, sprite overlays. */
  datatype GameState = GameState(keys: KeyState, slots: seq<bool>, frames: seq<int>)

  /** The state right after construction. */
  function Initial(): (g: GameState)
    ensures |g.slots| == NumNotes
  {
    GameState(Idle, seq(NumNotes, _ => false), [0])
  }

  /**
   * `keysDown.map(n => KEYS[n] + 1)` with the inline copy of KEYS: one sprite
   * cell per held key, in hold order; cell `f` lights the key `ALLKEYS[f - 1]`.
   */
  function FrameIndices(keys: seq<int>): (r: seq<int>)
    requires forall k :: k in keys ==> k in Keys
    ensures |r| == |keys|
    ensures forall i :: 0 <= i < |r| ==> 1 <= r[i] <= NumNotes && AllKeys[r[i] - 1] == keys[i]
  {
    if keys == [] then []
    else
      var code := keys[0];
      assert code in keys;
      assert code in SpriteKeys && SpriteKeys[code] == NoteOf(code) by {
        SpriteKeysAreKeys();
      }
      [SpriteKeys[code] + 1] + FrameIndices(keys[1..])
  }

  /** Each overlay is the note of its key plus one (cell 0 is the bare keyboard). */
  lemma FrameIsNotePlusOne(keys: seq<int>)
    requires forall k :: k in keys ==> k in Keys
    ensures forall i :: 0 <= i < |keys| ==> FrameIndices(keys)[i] == NoteOf(keys[i]) + 1
  {
    var r := FrameIndices(keys);
    forall i | 0 <= i < |keys| ensures r[i] == NoteOf(keys[i]) + 1 {
      NoteOfIsUnique(keys[i]);
      assert AllKeys[r[i] - 1] == keys[i];
    }
  }

  /**
   * The oscillator slots after one update with held list `held` (already
   * filtered): on a key-down edge every held note's slot is occupied, on a
   * key-up edge every slot of a layout key not held is empty, every other
   * slot is as it was.
   */
  function Reconcile(slots: seq<bool>, held: seq<int>, keyDownEdge: bool, keyUpEdge: bool): (r: seq<bool>)
    requires |slots| == NumNotes
    ensures |r| == NumNotes
    ensures forall n :: 0 <= n < NumNotes && keyDownEdge && AllKeys[n] in held ==> r[n]
    ensures forall n :: 0 <= n < NumNotes && keyUpEdge && AllKeys[n] !in held ==> !r[n]
    ensures forall n :: 0 <= n < NumNotes && r[n] != slots[n] ==>
      (r[n] && keyDownEdge && AllKeys[n] in held) || (!r[n] && keyUpEdge && AllKeys[n] !in held)
  {
    seq(NumNotes, n requires 0 <= n < NumNotes =>
      if keyDownEdge && AllKeys[n] in held then true
      else if keyUpEdge && AllKeys[n] !in held then false
      else slots[n])
  }

  /**
   * `Reconcile` is the key-down pass (fill the held notes' slots) followed by
   * the key-up pass (empty the slots of layout keys not held), each run only
   * on its edge.
   */
  lemma ReconcileInTwoPasses(slots: seq<bool>, mid: seq<bool>, final: seq<bool>, held: seq<int>,
                             keyDownEdge: bool, keyUpEdge: bool)
    requires |slots| == NumNotes && |mid| == NumNotes && |final| == NumNotes
    requires forall n :: 0 <= n < NumNotes ==> mid[n] == (slots[n] || (keyDownEdge && AllKeys[n] in held))
    requires forall n :: 0 <= n < NumNotes ==> final[n] == (mid[n] && !(keyUpEdge && AllKeys[n] !in held))
    ensures final == Reconcile(slots, held, keyDownEdge, keyUpEdge)
  {
  }

  /** One call of Game.update on values. */
  function Tick(g: GameState): (r: GameState)
    requires |g.slots| == NumNotes
    ensures |r.slots| == NumNotes
    ensures !r.keys.newKeyDown && !r.keys.newKeyUp
    ensures forall k :: k in r.keys.keysDown <==> k in g.keys.keysDown && k in Keys
    ensures IsSubsequence(r.keys.keysDown, g.keys.keysDown)
    ensures |r.frames| == |r.keys.keysDown|
    ensures forall i :: 0 <= i < |r.frames| ==>
      1 <= r.frames[i] <= NumNotes && AllKeys[r.frames[i] - 1] == r.keys.keysDown[i]
    ensures forall n :: 0 <= n < NumNotes && g.keys.newKeyDown && AllKeys[n] in r.keys.keysDown ==> r.slots[n]
    ensures forall n :: 0 <= n < NumNotes && g.keys.newKeyUp && AllKeys[n] !in r.keys.keysDown ==> !r.slots[n]
    ensures !g.keys.newKeyDown && !g.keys.newKeyUp ==> r.slots == g.slots
  {
    var held := FilterKeys(g.keys.keysDown);
    GameState(KeyState(held, false, false),
              Reconcile(g.slots, held, g.keys.newKeyDown, g.keys.newKeyUp),
              FrameIndices(held))
  }

  /**
   * After a tick the held list is the layout keys that were held, in hold
   * order, without duplicates if there were none; the overlays are their
   * sprite cells; both edge flags are down.
   */
  lemma TickFiltersAndDraws(g: GameState)
    requires |g.slots| == NumNotes
    ensures var r := Tick(g);
      && (forall k :: k in r.keys.keysDown <==> k in g.keys.keysDown && k in Keys)
      && IsSubsequence(r.keys.keysDown, g.keys.keysDown)
      && (NoDuplicates(g.keys.keysDown) ==> NoDuplicates(r.keys.keysDown))
      && |r.frames| == |r.keys.keysDown|
      && (forall i :: 0 <= i < |r.frames| ==>
            1 <= r.frames[i] <= NumNotes && r.frames[i] == NoteOf(r.keys.keysDown[i]) + 1)
      && !r.keys.newKeyDown && !r.keys.newKeyUp
  {
    FrameIsNotePlusOne(Tick(g).keys.keysDown);
  }

  /**
   * On a key-down edge every held note sounds afterwards; a slot that was
   * already occupied stays occupied (it is not restarted, see Game.Update).
   */
  lemma TickStartsHeldNotes(g: GameState)
    requires |g.slots| == NumNotes && g.keys.newKeyDown
    ensures forall k :: k in Tick(g).keys.keysDown ==> Tick(g).slots[NoteOf(k)]
  {
  }

  /**
   * On a key-up edge exactly the layout keys that are not held fall silent:
   * their slots are empty, and a held key's slot is as it was (or, on a
   * simultaneous key-down edge, occupied).
   */
  lemma TickStopsReleasedNotes(g: GameState)
    requires |g.slots| == NumNotes && g.keys.newKeyUp
    ensures forall n :: 0 <= n < NumNotes ==>
      (AllKeys[n] !in Tick(g).keys.keysDown ==> !Tick(g).slots[n]) &&
      (AllKeys[n] in Tick(g).keys.keysDown ==>
         Tick(g).slots[n] == (g.slots[n] || g.keys.newKeyDown))
  {
  }

  /** `ALLKEYS.diff(held)` holds exactly the layout keys that are not held, all of them layout keys. */
  lemma LayoutDiff(held: seq<int>)
    ensures forall k :: k in Diff(AllKeys, held) ==> k in Keys
    ensures forall n :: 0 <= n < NumNotes ==> (AllKeys[n] in Diff(AllKeys, held) <==> AllKeys[n] !in held)
  {
    KeysCoverAllKeys();
  }

  /** A key event as the DOM delivers it. */
  datatype Event = KeyDownEvent(code: int) | KeyUpEvent(code: int)

  /**
   * The Keyboarder after handling `events` in order. Between two ticks the
   * edge flags only ever go up.
   */
  function Deliver(s: KeyState, events: seq<Event>): (r: KeyState)
    ensures s.newKeyDown ==> r.newKeyDown
    ensures s.newKeyUp ==> r.newKeyUp
    decreases |events|
  {
    if events == [] then s
    else
      var next := match events[0]
        case KeyDownEvent(c) => Press(s, c)
        case KeyUpEvent(c) => Release(s, c);
      Deliver(next, events[1..])
  }

  /**
   * The edge flags record every change of the held list: between two ticks
   * a raised flag stays raised, a code that became held raised `newKeyDown`,
   * and a code that stopped being held raised `newKeyUp`.
   */
  lemma {:induction false} EdgesRecordChanges(s: KeyState, events: seq<Event>, k: int)
    ensures var t := Deliver(s, events);
      && (s.newKeyDown ==> t.newKeyDown)
      && (s.newKeyUp ==> t.newKeyUp)
      && (k in t.keysDown && k !in s.keysDown ==> t.newKeyDown)
      && (k !in t.keysDown && k in s.keysDown ==> t.newKeyUp)
    decreases |events|
  {
    if events != [] {
      var next := match events[0]
        case KeyDownEvent(c) => Press(s, c)
        case KeyUpEvent(c) => Release(s, c);
      assert Deliver(s, events) == Deliver(next, events[1..]);
      EdgesRecordChanges(next, events[1..], k);
    }
  }

  /** Slot `n` is occupied exactly when the key of note `n` is held. */
  ghost predicate InSync(slots: seq<bool>, held: seq<int>) {
    |slots| == NumNotes &&
    forall n :: 0 <= n < NumNotes ==> (slots[n] <==> AllKeys[n] in held)
  }

  /**
   * The state between ticks: flags down, only layout keys held, none twice,
   * and the slots matching them.
   */
  ghost predicate Settled(g: GameState) {
    !g.keys.newKeyDown && !g.keys.newKeyUp &&
    (forall k :: k in g.keys.keysDown ==> k in Keys) &&
    NoDuplicates(g.keys.keysDown) &&
    InSync(g.slots, g.keys.keysDown)
  }

  /** Key events never make the held list repeat a code. */
  lemma {:induction false} DeliverKeepsDistinct(s: KeyState, events: seq<Event>)
    requires NoDuplicates(s.keysDown)
    ensures NoDuplicates(Deliver(s, events).keysDown)
    decreases |events|
  {
    if events != [] {
      match events[0]
      case KeyDownEvent(c) =>
        PressKeepsDistinct(s, c);
        DeliverKeepsDistinct(Press(s, c), events[1..]);
      case KeyUpEvent(c) =>
        ReleaseKeepsDistinct(s, c);
        DeliverKeepsDistinct(Release(s, c), events[1..]);
    }
  }

  /**
   * Whatever key events arrive between two ticks, the next tick brings the
   * slots back in line with the held keys.
   */
  lemma TickResynchronises(g: GameState, events: seq<Event>)
    requires Settled(g)
    ensures Settled(Tick(g.(keys := Deliver(g.keys, events))))
  {
    var t := Deliver(g.keys, events);
    var r := Tick(g.(keys := t));
    DeliverKeepsDistinct(g.keys, events);
    forall n | 0 <= n < NumNotes
      ensures r.slots[n] <==> AllKeys[n] in r.keys.keysDown
    {
      KeysIndexAllKeys();
      EdgesRecordChanges(g.keys, events, AllKeys[n]);
    }
  }

  /**
   * Chord property: releasing one held key of a settled state and ticking
   * silences that key's note and leaves every other slot exactly as it was.
   */
  lemma ReleaseLeavesOtherNotes(g: GameState, code: int)
    requires Settled(g) && code in g.keys.keysDown
    ensures var r := Tick(g.(keys := Release(g.keys, code)));
      && !r.slots[NoteOf(code)]
      && (forall n :: 0 <= n < NumNotes && n != NoteOf(code) ==> r.slots[n] == g.slots[n])
  {
    var r := Tick(g.(keys := Release(g.keys, code)));
    ReleaseKeepsDistinct(g.keys, code);
    NoteOfIsUnique(code);
  }

  /** The game state after a tick following each batch of key events in turn. */
  function Run(g: GameState, batches: seq<seq<Event>>): (r: GameState)
    requires |g.slots| == NumNotes
    ensures |r.slots| == NumNotes
    decreases |batches|
  {
    if batches == [] then g
    else Run(Tick(g.(keys := Deliver(g.keys, batches[0]))), batches[1..])
  }

  /**
   * From the initial state, after every tick the notes sounding are exactly
   * the notes of the held keys (every prefix of `batches` is itself a run).
   */
  lemma {:induction false} AlwaysInSync(g: GameState, batches: seq<seq<Event>>)
    requires Settled(g)
    ensures Settled(Run(g, batches))
    decreases |batches|
  {
    if batches != [] {
      TickResynchronises(g, batches[0]);
      AlwaysInSync(Tick(g.(keys := Deliver(g.keys, batches[0]))), batches[1..]);
    }
  }

  /** The initial state is settled, so AlwaysInSync applies to every run of the piano. */
  lemma InitialIsSettled()
    ensures Settled(Initial())
  {
  }

  /**
   * A tick after key events that only pressed layout keys keeps the held
   * list, draws it, sounds every held note and leaves every other slot alone.
   */
  lemma TickAfterPress(g: GameState)
    requires |g.slots| == NumNotes && g.keys.newKeyDown && !g.keys.newKeyUp
    requires forall k :: k in g.keys.keysDown ==> k in Keys
    ensures Tick(g).keys == g.keys.(newKeyDown := false)
    ensures Tick(g).frames == FrameIndices(g.keys.keysDown)
    ensures forall k :: k in g.keys.keysDown ==> Tick(g).slots[NoteOf(k)]
    ensures forall n :: 0 <= n < NumNotes && AllKeys[n] !in g.keys.keysDown ==> Tick(g).slots[n] == g.slots[n]
  {
    FilterKeysKeepsLayout(g.keys.keysDown);
    TickStartsHeldNotes(g);
  }

  /**
   * A tick after key events that only released keys, leaving layout keys
   * held, keeps the held list, draws it, silences every note not held and
   * leaves the held notes' slots alone.
   */
  lemma TickAfterRelease(g: GameState)
    requires |g.slots| == NumNotes && !g.keys.newKeyDown && g.keys.newKeyUp
    requires forall k :: k in g.keys.keysDown ==> k in Keys
    ensures Tick(g).keys == g.keys.(newKeyUp := false)
    ensures Tick(g).frames == FrameIndices(g.keys.keysDown)
    ensures forall n :: 0 <= n < NumNotes ==>
      Tick(g).slots[n] == (g.slots[n] && AllKeys[n] in g.keys.keysDown)
  {
    FilterKeysKeepsLayout(g.keys.keysDown);
    TickStopsReleasedNotes(g);
  }

  /** In a settled state with nothing held, no slot is occupied. */
  lemma QuietIsSilent(g: GameState)
    requires Settled(g) && g.keys.keysDown == []
    ensures forall n :: 0 <= n < NumNotes ==> !g.slots[n]
  {
  }

  /** "a" (65) plays note 0, "w" (87) note 1, and no other note is theirs. */
  lemma NotesOfAAndW()
    ensures NoteOf(65) == 0 && NoteOf(87) == 1
    ensures forall n :: 0 <= n < NumNotes ==> (AllKeys[n] == 65 <==> n == 0) && (AllKeys[n] == 87 <==> n == 1)
  {
    NoteOfIsUnique(65);
    NoteOfIsUnique(87);
  }

  /** The overlay of "a" (65) alone is cell 1. */
  lemma FramesOfA()
    ensures FrameIndices([65]) == [1]
  {
    FrameIsNotePlusOne([65]);
  }

  /** The overlay of "w" (87) alone is cell 2. */
  lemma FramesOfW()
    ensures FrameIndices([87]) == [2]
  {
    FrameIsNotePlusOne([87]);
  }

  /** The overlays of "a" then "w" are cells 1 and 2, in hold order. */
  lemma FramesOfChord()
    ensures FrameIndices([65, 87]) == [1, 2]
  {
    FramesOfW();
    assert [65, 87][1..] == [87];
  }

  /** From a quiet Keyboarder, pressing "a" holds it and raises `newKeyDown`. */
  lemma DeliverPressA(s: KeyState)
    requires s == Idle
    ensures Deliver(s, [KeyDownEvent(65)]) == KeyState([65], true, false)
  {
  }

  /** From a quiet Keyboarder, pressing "a" then "w" holds both in that order. */
  lemma DeliverPressChord(s: KeyState)
    requires s == Idle
    ensures Deliver(s, [KeyDownEvent(65), KeyDownEvent(87)]) == KeyState([65, 87], true, false)
  {
    assert Press(s, 65) == KeyState([65], true, false);
    assert Deliver(s, [KeyDownEvent(65), KeyDownEvent(87)]) ==
      Deliver(KeyState([65], true, false), [KeyDownEvent(87)]);
  }

  /** From a quiet Keyboarder, pressing and releasing "a" holds nothing but raises both flags. */
  lemma DeliverTap(s: KeyState)
    requires s == Idle
    ensures Deliver(s, [KeyDownEvent(65), KeyUpEvent(65)]) == KeyState([], true, true)
  {
    assert Press(s, 65) == KeyState([65], true, false);
    assert Deliver(s, [KeyDownEvent(65), KeyUpEvent(65)]) ==
      Deliver(KeyState([65], true, false), [KeyUpEvent(65)]);
    ReleaseUndoesPress(Idle, 65);
  }

  /**
   * From a quiet state (the initial one, say) press "a" (65) and tick: note 0
   * sounds alone and the overlay list is [1].
   */
  lemma ScenarioPressA(g0: GameState)
    requires Settled(g0) && g0.keys == Idle
    ensures var g1 := Tick(g0.(keys := Deliver(g0.keys, [KeyDownEvent(65)])));
      && g1.keys == KeyState([65], false, false) && g1.frames == [1]
      && g1.slots[0] && (forall n :: 1 <= n < NumNotes ==> !g1.slots[n])
  {
    DeliverPressA(g0.keys);
    QuietIsSilent(g0);
    TickAfterPress(g0.(keys := KeyState([65], true, false)));
    FramesOfA();
    NotesOfAAndW();
  }

  /** ... then release "a" and tick: nothing sounds and the overlay list is empty. */
  lemma ScenarioReleaseA(g1: GameState)
    requires |g1.slots| == NumNotes && g1.keys == KeyState([65], false, false)
    ensures var g2 := Tick(g1.(keys := Deliver(g1.keys, [KeyUpEvent(65)])));
      && g2.keys == Idle && g2.frames == [] && (forall n :: 0 <= n < NumNotes ==> !g2.slots[n])
  {
    assert Deliver(g1.keys, [KeyUpEvent(65)]) == KeyState([], false, true);
    TickAfterRelease(g1.(keys := KeyState([], false, true)));
  }

  /**
   * From a quiet state press "a" (65) then "w" (87) and tick: notes 0 and 1
   * sound, overlays [1, 2] in hold order.
   */
  lemma ScenarioChordPress(g0: GameState)
    requires Settled(g0) && g0.keys == Idle
    ensures var g1 := Tick(g0.(keys := Deliver(g0.keys, [KeyDownEvent(65), KeyDownEvent(87)])));
      && g1.keys == KeyState([65, 87], false, false) && g1.frames == [1, 2]
      && g1.slots[0] && g1.slots[1] && (forall n :: 2 <= n < NumNotes ==> !g1.slots[n])
  {
    DeliverPressChord(g0.keys);
    QuietIsSilent(g0);
    TickAfterPress(g0.(keys := KeyState([65, 87], true, false)));
    FramesOfChord();
    NotesOfAAndW();
  }

  /** ... then release "a" only and tick: overlay [2], note 1 still sounds, note 0 has stopped. */
  lemma ScenarioChordRelease(g1: GameState)
    requires |g1.slots| == NumNotes && g1.keys == KeyState([65, 87], false, false) && g1.slots[1]
    ensures var g2 := Tick(g1.(keys := Deliver(g1.keys, [KeyUpEvent(65)])));
      && g2.keys == KeyState([87], false, false) && g2.frames == [2]
      && !g2.slots[0] && g2.slots[1]
  {
    assert Deliver(g1.keys, [KeyUpEvent(65)]) == KeyState([87], false, true);
    TickAfterRelease(g1.(keys := KeyState([87], false, true)));
    FramesOfW();
    NotesOfAAndW();
  }

  /**
   * A tap that both presses and releases "a" (65) between two ticks raises
   * both flags but leaves nothing held, so the tick never sounds note 0: the
   * edge flags cannot replay a down-up sequence.
   */
  lemma ScenarioTapBetweenTicks(g0: GameState)
    requires Settled(g0) && g0.keys == Idle
    ensures var g1 := Tick(g0.(keys := Deliver(g0.keys, [KeyDownEvent(65), KeyUpEvent(65)])));
      && g1.keys == Idle && g1.frames == [] && (forall n :: 0 <= n < NumNotes ==> !g1.slots[n])
  {
    DeliverTap(g0.keys);
    FilterKeysKeepsLayout([]);
  }

  /** The game: a Keyboarder, a 20-note Player and the keyboard sprite. */
  class Game {
    const keyboarder: Keyboarder
    const player: Player
    const piano: Sprite

    /** Each part is consistent, there is a slot per note, and no tone sounds outside its slot. */
    ghost predicate Valid()
      reads this, keyboarder, player
    {
      keyboarder.Valid() && player.Valid() && |player.oscillators| == NumNotes &&
      player.NoStrayTones()
    }

    function State(): GameState
      reads this, keyboarder, player, piano
    {
      GameState(keyboarder.State(), player.oscillators, piano.frames)
    }

    /** The canvas, audio context and image are not modelled; the three parts start fresh. */
    constructor ()
      ensures Valid() && State() == Initial()
      ensures fresh(keyboarder) && fresh(player) && fresh(piano)
    {
      keyboarder := new Keyboarder();
      player := new Player(NumNotes);
      piano := new Sprite(960, 300);
    }

    /**
     * update: performs `Tick`. An oscillator is started only for a slot that
     * goes from empty to occupied and stopped only for one that goes from
     * occupied to empty, so no slot is ever started twice or restarted.
     */
    method Update()
      requires Valid()
      modifies keyboarder, player, piano
      ensures Valid()
      ensures State() == Tick(old(State()))
      ensures forall n :: 0 <= n < NumNotes ==>
        player.started[n] == old(player.started[n]) + (if !old(player.oscillators[n]) && player.oscillators[n] then 1 else 0)
      ensures forall n :: 0 <= n < NumNotes ==>
        player.stopped[n] == old(player.stopped[n]) + (if old(player.oscillators[n]) && !player.oscillators[n] then 1 else 0)
    {
      ghost var g0 := State();
      keyboarder.Filter();
      var held := keyboarder.keysDown;

      var frameIndices := FrameIndices(held);
      piano.Update(frameIndices);

      UpdateSlots(held, keyboarder.newKeyDown, keyboarder.newKeyUp);

      keyboarder.newKeyDown := false;
      keyboarder.newKeyUp := false;
    }

    /**
     * The two oscillator blocks of update: on a key-down edge start every held
     * note whose slot is empty, then on a key-up edge stop every occupied slot
     * of a layout key that is not held. The slots become `Reconcile` of the old
     * ones, and each tone counter moves only on its slot's transition, so no
     * stray tone is left sounding.
     */
    method UpdateSlots(held: seq<int>, keyDownEdge: bool, keyUpEdge: bool)
      requires player.Valid() && |player.oscillators| == NumNotes && player.NoStrayTones()
      requires forall k :: k in held ==> k in Keys
      modifies player
      ensures player.Valid() && |player.oscillators| == NumNotes && player.NoStrayTones()
      ensures player.oscillators == Reconcile(old(player.oscillators), held, keyDownEdge, keyUpEdge)
      ensures forall n :: 0 <= n < NumNotes ==>
        player.started[n] == old(player.started[n]) + (if !old(player.oscillators[n]) && player.oscillators[n] then 1 else 0)
      ensures forall n :: 0 <= n < NumNotes ==>
        player.stopped[n] == old(player.stopped[n]) + (if old(player.oscillators[n]) && !player.oscillators[n] then 1 else 0)
    {
      if keyDownEdge {
        StartNotes(held);
      }
      ghost var started := player.oscillators;
      if keyUpEdge {
        StopReleasedNotes(held);
      }
      ReconcileInTwoPasses(old(player.oscillators), started, player.oscillators, held, keyDownEdge, keyUpEdge);
    }

    /** The key-down half of update: start an oscillator for every held note whose slot is empty. */
    method StartNotes(held: seq<int>)
      requires player.Valid() && |player.oscillators| == NumNotes
      requires forall k :: k in held ==> k in Keys
      modifies player
      ensures player.Valid() && |player.oscillators| == NumNotes
      ensures forall n :: 0 <= n < NumNotes ==>
        player.oscillators[n] == (old(player.oscillators[n]) || AllKeys[n] in held)
      ensures forall n :: 0 <= n < NumNotes ==>
        player.started[n] == old(player.started[n]) + (if !old(player.oscillators[n]) && AllKeys[n] in held then 1 else 0)
      ensures player.stopped == old(player.stopped)
    {
      ghost var slots0 := player.oscillators;
      ghost var started0 := player.started;
      var i := 0;
      while i < |held|
        invariant 0 <= i <= |held|
        invariant player.Valid() && |player.oscillators| == NumNotes
        invariant forall n :: 0 <= n < NumNotes ==>
          player.oscillators[n] == (slots0[n] || AllKeys[n] in held[..i])
        invariant forall n :: 0 <= n < NumNotes ==>
          player.started[n] == started0[n] + (if !slots0[n] && AllKeys[n] in held[..i] then 1 else 0)
        invariant player.stopped == old(player.stopped)
      {
        var key := held[i];
        var index := NoteOf(key);
        NoteOfIsUnique(key);
        if !player.oscillators[index] {
          player.Start(index);
        }
        assert held[..i + 1] == held[..i] + [key];
        i := i + 1;
      }
      assert held[..|held|] == held;
    }

    /** The key-up half of update: stop every occupied slot of a layout key that is not held. */
    method StopReleasedNotes(held: seq<int>)
      requires player.Valid() && |player.oscillators| == NumNotes
      modifies player
      ensures player.Valid() && |player.oscillators| == NumNotes
      ensures forall n :: 0 <= n < NumNotes ==>
        player.oscillators[n] == (old(player.oscillators[n]) && AllKeys[n] in held)
      ensures forall n :: 0 <= n < NumNotes ==>
        player.stopped[n] == old(player.stopped[n]) + (if old(player.oscillators[n]) && AllKeys[n] !in held then 1 else 0)
      ensures player.started == old(player.started)
    {
      var keyDiffs := Diff(AllKeys, held);
      LayoutDiff(held);
      StopNotes(keyDiffs);
    }

    /**
     * The loop of the key-up half of update, run over `keyDiffs` (ALLKEYS minus the held
     * keys): stop every occupied slot of those keys.
     */
    method StopNotes(keyDiffs: seq<int>)
      requires player.Valid() && |player.oscillators| == NumNotes
      requires forall k :: k in keyDiffs ==> k in Keys
      modifies player
      ensures player.Valid() && |player.oscillators| == NumNotes
      ensures forall n :: 0 <= n < NumNotes ==>
        player.oscillators[n] == (old(player.oscillators[n]) && AllKeys[n] !in keyDiffs)
      ensures forall n :: 0 <= n < NumNotes ==>
        player.stopped[n] == old(player.stopped[n]) + (if old(player.oscillators[n]) && AllKeys[n] in keyDiffs then 1 else 0)
      ensures player.started == old(player.started)
    {
      ghost var slots0 := player.oscillators;
      ghost var stopped0 := player.stopped;
      var i := 0;
      while i < |keyDiffs|
        invariant 0 <= i <= |keyDiffs|
        invariant player.Valid() && |player.oscillators| == NumNotes
        invariant forall n :: 0 <= n < NumNotes ==>
          player.oscillators[n] == (slots0[n] && AllKeys[n] !in keyDiffs[..i])
        invariant forall n :: 0 <= n < NumNotes ==>
          player.stopped[n] == stopped0[n] + (if slots0[n] && AllKeys[n] in keyDiffs[..i] then 1 else 0)
        invariant player.started == old(player.started)
      {
        var key := keyDiffs[i];
        var index := NoteOf(key);
        NoteOfIsUnique(key);
        if player.oscillators[index] {
          player.Stop(index);
        }
        assert keyDiffs[..i + 1] == keyDiffs[..i] + [key];
        i := i + 1;
      }
      assert keyDiffs[..|keyDiffs|] == keyDiffs;
    }
  }
}
