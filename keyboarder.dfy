/**
 * The Keyboarder: the ordered list of held key codes and the two edge flags
 * that tell the game loop a key has just gone down or come up.
 *
 * `KeyState` is its observable state as a value; `Press`, `Release` and
 * `Restrict` are the transitions of keyDown, keyUp and filter on that value,
 * and the `Keyboarder` class performs them in place.
 */
module Keyboard {
  import opened ArrayOps
  import opened KeyTable

  datatype KeyState = KeyState(keysDown: seq<int>, newKeyDown: bool, newKeyUp: bool)

  /** Nothing held, no edge pending: the state a new Keyboarder starts in. */
  const Idle := KeyState([], false, false)

  /** keyDown: append the code and raise `newKeyDown`, unless it is already held. */
  function Press(s: KeyState, code: int): (r: KeyState)
    ensures forall k :: k in r.keysDown <==> k in s.keysDown || k == code
    ensures |r.keysDown| == |s.keysDown| + (if code in s.keysDown then 0 else 1)
    ensures r.keysDown[..|s.keysDown|] == s.keysDown
    ensures r.newKeyDown == (s.newKeyDown || code !in s.keysDown)
    ensures r.newKeyUp == s.newKeyUp
    ensures code in s.keysDown ==> r == s
  {
    if IndexOf(s.keysDown, code) == -1 then
      s.(keysDown := s.keysDown + [code], newKeyDown := true)
    else
      s
  }

  /**
   * keyUp: splice the code out at its first index and raise `newKeyUp`, if it
   * is held. Every other held code stays held.
   */
  function Release(s: KeyState, code: int): (r: KeyState)
    ensures forall k :: k != code ==> (k in r.keysDown <==> k in s.keysDown)
    ensures NoDuplicates(s.keysDown) ==> r.keysDown == Without(s.keysDown, code)
    ensures r.newKeyUp == (s.newKeyUp || code in s.keysDown)
    ensures r.newKeyDown == s.newKeyDown
    ensures code !in s.keysDown ==> r == s
  {
    var i := IndexOf(s.keysDown, code);
    if i > -1 then
      assert NoDuplicates(s.keysDown) ==>
          s.keysDown[..i] + s.keysDown[i + 1..] == Without(s.keysDown, code) by {
        if NoDuplicates(s.keysDown) { SpliceRemovesAll(s.keysDown, code); }
      }
      assert s.keysDown == s.keysDown[..i] + [code] + s.keysDown[i + 1..];
      s.(keysDown := s.keysDown[..i] + s.keysDown[i + 1..], newKeyUp := true)
    else
      WithoutAbsent(s.keysDown, code);
      s
  }

  /** `isInArray(list)`: the callback `e => list.indexOf(e) > -1`, a membership test. */
  function IsInArray(list: seq<int>): (isIn: int -> bool)
    ensures forall e :: isIn(e) <==> e in list
  {
    e => IndexOf(list, e) > -1
  }

  /** filter's new list: the held codes that are in ALLKEYS, in hold order. */
  function FilterKeys(keys: seq<int>): (r: seq<int>)
    ensures forall k :: k in r <==> k in keys && k in Keys
    ensures IsSubsequence(r, keys)
    ensures NoDuplicates(keys) ==> NoDuplicates(r)
  {
    KeysCoverAllKeys();
    FilterKeepsDistinct(keys, IsInArray(AllKeys));
    Filter(keys, IsInArray(AllKeys))
  }

  /** filter leaves a list of layout keys as it is. */
  lemma FilterKeysKeepsLayout(keys: seq<int>)
    requires forall k :: k in keys ==> k in Keys
    ensures FilterKeys(keys) == keys
  {
    KeysCoverAllKeys();
    FilterAllKept(keys, IsInArray(AllKeys));
  }

  /** filter: restrict the held codes to the layout; the flags are untouched. */
  function Restrict(s: KeyState): (r: KeyState)
    ensures r.newKeyDown == s.newKeyDown && r.newKeyUp == s.newKeyUp
    ensures forall k :: k in r.keysDown <==> k in s.keysDown && k in Keys
    ensures IsSubsequence(r.keysDown, s.keysDown)
    ensures NoDuplicates(s.keysDown) ==> NoDuplicates(r.keysDown)
  {
    s.(keysDown := FilterKeys(s.keysDown))
  }

  /** A repeated keyDown (auto-repeat of a held key) changes nothing. */
  lemma PressIsIdempotent(s: KeyState, code: int)
    ensures Press(Press(s, code), code) == Press(s, code)
  {
  }

  /** keyDown never lets a code be held twice. */
  lemma PressKeepsDistinct(s: KeyState, code: int)
    requires NoDuplicates(s.keysDown)
    ensures NoDuplicates(Press(s, code).keysDown)
  {
    var t := Press(s, code).keysDown;
    if code !in s.keysDown {
      forall i, j | 0 <= i < j < |t| ensures t[i] != t[j] {
        if j == |s.keysDown| {
          assert t[i] == s.keysDown[i];
        } else {
          assert t[i] == s.keysDown[i] && t[j] == s.keysDown[j];
        }
      }
    }
  }

  /** keyUp of a held code removes it entirely and keeps the list distinct. */
  lemma ReleaseKeepsDistinct(s: KeyState, code: int)
    requires NoDuplicates(s.keysDown)
    ensures NoDuplicates(Release(s, code).keysDown)
    ensures code !in Release(s, code).keysDown
  {
    FilterKeepsDistinct(s.keysDown, y => y != code);
  }

  /** Releasing a key that was just pressed restores the held list. */
  lemma {:induction false} ReleaseUndoesPress(s: KeyState, code: int)
    requires code !in s.keysDown
    ensures Release(Press(s, code), code).keysDown == s.keysDown
  {
    var t := s.keysDown + [code];
    var i := IndexOf(t, code);
    assert t[|s.keysDown|] == code;
    assert i == |s.keysDown|;
    assert t[..i] == s.keysDown;
  }

  /** filter is idempotent: a second filter in the same tick changes nothing. */
  lemma RestrictIsIdempotent(s: KeyState)
    ensures Restrict(Restrict(s)) == Restrict(s)
  {
    FilterIdempotent(s.keysDown, IsInArray(AllKeys));
  }

  /** The held codes and their edge flags, updated in place by the DOM key handlers. */
  class Keyboarder {
    var keysDown: seq<int>
    var newKeyDown: bool
    var newKeyUp: bool

    /** The held list never repeats a code. */
    ghost predicate Valid()
      reads this
    {
      NoDuplicates(keysDown)
    }

    function State(): KeyState
      reads this
    {
      KeyState(keysDown, newKeyDown, newKeyUp)
    }

    constructor ()
      ensures Valid() && State() == Idle
    {
      keysDown := [];
      newKeyDown := false;
      newKeyUp := false;
    }

    method KeyDown(code: int)
      requires Valid()
      modifies this
      ensures Valid()
      ensures State() == Press(old(State()), code)
    {
      PressKeepsDistinct(State(), code);
      if IndexOf(keysDown, code) == -1 {
        keysDown := keysDown + [code];
        newKeyDown := true;
      }
    }

    method KeyUp(code: int)
      requires Valid()
      modifies this
      ensures Valid()
      ensures State() == Release(old(State()), code)
    {
      ReleaseKeepsDistinct(State(), code);
      var index := IndexOf(keysDown, code);
      if index > -1 {
        keysDown := keysDown[..index] + keysDown[index + 1..];
        newKeyUp := true;
      }
    }

    method Filter()
      requires Valid()
      modifies this
      ensures Valid()
      ensures State() == Restrict(old(State()))
    {
      var isInAllKeys := IsInArray(AllKeys);
      FilterKeepsDistinct(keysDown, isInAllKeys);
      keysDown := ArrayOps.Filter(keysDown, isInAllKeys);
    }
  }
}
