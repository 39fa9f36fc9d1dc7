/**
 * The Player: one oscillator slot per note. A slot holds the handle of the
 * oscillator sounding that note, or nothing (a slot never written reads as
 * `undefined`, which the game loop treats like `null`).
 *
 * The Web Audio side is reduced to two ghost counters per note: how many
 * oscillators have been started and how many stopped. Their difference is
 * the number of tones sounding at that pitch, so an oscillator started over
 * an occupied slot (whose old handle would be lost while it keeps playing)
 * shows up as a second sounding tone.
 */
module Audio {

  class Player {
    var oscillators: seq<bool>
    ghost var started: seq<nat>
    ghost var stopped: seq<nat>

    /** Counters cover every slot, and an occupied slot's oscillator is still sounding. */
    ghost predicate Valid()
      reads this
    {
      |started| == |oscillators| && |stopped| == |oscillators| &&
      forall n :: 0 <= n < |oscillators| ==>
        stopped[n] <= started[n] && (oscillators[n] ==> stopped[n] < started[n])
    }

    /** Number of tones sounding at note `n`. */
    ghost function Sounding(n: nat): nat
      reads this
      requires Valid() && n < |oscillators|
    {
      started[n] - stopped[n]
    }

    /**
     * Every sounding tone is the one in its slot: an occupied slot sounds
     * exactly one tone and an empty slot none.
     */
    ghost predicate NoStrayTones()
      reads this
      requires Valid()
    {
      forall n :: 0 <= n < |oscillators| ==> Sounding(n) == if oscillators[n] then 1 else 0
    }

    /** `new Player(startingPitch, numNotes)`: all slots empty, nothing sounding. */
    constructor (numNotes: nat)
      ensures Valid() && NoStrayTones()
      ensures |oscillators| == numNotes
      ensures forall n :: 0 <= n < numNotes ==> !oscillators[n] && started[n] == 0 && stopped[n] == 0
    {
      oscillators := seq(numNotes, _ => false);
      started := seq(numNotes, _ => 0);
      stopped := seq(numNotes, _ => 0);
    }

    /** start: a new oscillator for note `index` goes into its slot and begins to sound. */
    method Start(index: nat)
      requires Valid() && index < |oscillators|
      modifies this
      ensures Valid()
      ensures oscillators == old(oscillators)[index := true]
      ensures started == old(started)[index := old(started[index]) + 1]
      ensures stopped == old(stopped)
      ensures Sounding(index) == old(Sounding(index)) + 1
    {
      oscillators := oscillators[index := true];
      started := started[index := started[index] + 1];
    }

    /** stop: the oscillator in slot `index` stops and the slot is emptied. */
    method Stop(index: nat)
      requires Valid() && index < |oscillators| && oscillators[index]
      modifies this
      ensures Valid()
      ensures oscillators == old(oscillators)[index := false]
      ensures started == old(started)
      ensures stopped == old(stopped)[index := old(stopped[index]) + 1]
      ensures Sounding(index) == old(Sounding(index)) - 1
    {
      stopped := stopped[index := stopped[index] + 1];
      oscillators := oscillators[index := false];
    }
  }
}
