/**
  Keyboard edge detection.  Each key has a current and a previous state; the
  key callback shifts current into previous and records the new action, and
  the queries compare the two.
 */
module Input {

  /** Size of the key state arrays. */
  const MAX_KEYS: int := 512

  /** GLFW's key action codes. */
  const GLFW_RELEASE: int := 0
  const GLFW_PRESS: int := 1
  const GLFW_REPEAT: int := 2

  /** GLFW's key code for a key it cannot identify; it is passed to the key callback like any other. */
  const GLFW_KEY_UNKNOWN: int := -1

  datatype KeyState = Pressed | Down | Released | Up

  /** `checkKeyOutOfBounds` as written: it rejects only keys above MAX_KEYS,
      so MAX_KEYS itself and every negative key pass. */
  function CheckKeyOutOfBounds(key: int): (ok: bool)
    ensures 0 <= key < MAX_KEYS ==> ok
    ensures (ok && !(0 <= key < MAX_KEYS)) <==> (key < 0 || key == MAX_KEYS)
  {
    if key > MAX_KEYS then false else true
  }

  /** The bound check the state arrays need; stricter than the one as written. */
  function KeyInBounds(key: int): (ok: bool)
    ensures ok ==> CheckKeyOutOfBounds(key)
    ensures ok <==> 0 <= key < MAX_KEYS
  {
    0 <= key && key < MAX_KEYS
  }

  /** The check as written lets through keys that index past either end of the arrays. */
  lemma BoundsCheckAdmitsOutOfRange()
    ensures CheckKeyOutOfBounds(MAX_KEYS) && !KeyInBounds(MAX_KEYS)
    ensures CheckKeyOutOfBounds(-1) && !KeyInBounds(-1)
  {
  }

  datatype Keys = Keys(current: seq<bool>, previous: seq<bool>)
  {
    /** One current and one previous flag per key. */
    ghost predicate Valid() {
      |current| == MAX_KEYS && |previous| == MAX_KEYS
    }

    /** `getKeyPressed`: down now, up before. */
    function KeyPressed(key: int): (r: bool)
      requires Valid() && KeyInBounds(key)
      ensures r <==> current[key] && !previous[key]
    {
      current[key] && !previous[key] && CheckKeyOutOfBounds(key)
    }

    /** `getKeyDown`: down now. */
    function KeyDown(key: int): (r: bool)
      requires Valid() && KeyInBounds(key)
      ensures r <==> current[key]
    {
      current[key] && CheckKeyOutOfBounds(key)
    }

    /** `getKeyReleased`: up now, down before. */
    function KeyReleased(key: int): (r: bool)
      requires Valid() && KeyInBounds(key)
      ensures r <==> !current[key] && previous[key]
    {
      !current[key] && previous[key] && CheckKeyOutOfBounds(key)
    }

    /** `getKeyUp`: up now. */
    function KeyUp(key: int): (r: bool)
      requires Valid() && KeyInBounds(key)
      ensures r <==> !current[key]
    {
      !current[key] && CheckKeyOutOfBounds(key)
    }

    /** `getKeyState`: the first of pressed, down, released that holds, else up. */
    function GetKeyState(key: int): (s: KeyState)
      requires Valid() && KeyInBounds(key)
      ensures s == Pressed <==> current[key] && !previous[key]
      ensures s == Down <==> current[key] && previous[key]
      ensures s == Released <==> !current[key] && previous[key]
      ensures s == Up <==> !current[key] && !previous[key]
    {
      if KeyPressed(key) then Pressed
      else if KeyDown(key) then Down
      else if KeyReleased(key) then Released
      else Up
    }

    /** `keyCallback` as written: the key counts as down only for GLFW_PRESS,
        so a GLFW_REPEAT of a held key records it as up. */
    function KeyCallbackAsWritten(key: int, action: int): (k: Keys)
      requires Valid() && KeyInBounds(key)
      ensures k.Valid()
      ensures k.previous[key] == current[key]
      ensures k.current[key] <==> action == GLFW_PRESS
      ensures forall j :: 0 <= j < MAX_KEYS && j != key ==> k.current[j] == current[j] && k.previous[j] == previous[j]
    {
      Keys(current[key := action == GLFW_PRESS], previous[key := current[key]])
    }

    /** The key callback with a held key kept down and unknown keys ignored: for
        a key that has a slot, the old current state becomes the previous one and
        every action but GLFW_RELEASE means down; any other key changes nothing. */
    function KeyCallback(key: int, action: int): (k: Keys)
      requires Valid()
      ensures k.Valid()
      ensures KeyInBounds(key) ==> k.previous[key] == current[key]
      ensures KeyInBounds(key) ==> (k.current[key] <==> action != GLFW_RELEASE)
      ensures !KeyInBounds(key) ==> k == this
      ensures forall j :: 0 <= j < MAX_KEYS && j != key ==> k.current[j] == current[j] && k.previous[j] == previous[j]
    {
      if KeyInBounds(key) then Keys(current[key := action != GLFW_RELEASE], previous[key := current[key]])
      else this
    }
  }

  /** Down and up are complementary. */
  lemma DownXorUp(k: Keys, key: int)
    requires k.Valid() && KeyInBounds(key)
    ensures k.KeyDown(key) != k.KeyUp(key)
  {
  }

  /** A press is a down; a release is an up. */
  lemma EdgesImplyLevels(k: Keys, key: int)
    requires k.Valid() && KeyInBounds(key)
    ensures k.KeyPressed(key) ==> k.KeyDown(key)
    ensures k.KeyReleased(key) ==> k.KeyUp(key)
  {
  }

  /** The state after a callback is fixed by the key's state before it and the action. */
  lemma CallbackThenState(k: Keys, key: int, action: int)
    requires k.Valid() && KeyInBounds(key)
    ensures var s := k.KeyCallback(key, action).GetKeyState(key);
      && (action != GLFW_RELEASE && !k.current[key] ==> s == Pressed)
      && (action != GLFW_RELEASE && k.current[key] ==> s == Down)
      && (action == GLFW_RELEASE && k.current[key] ==> s == Released)
      && (action == GLFW_RELEASE && !k.current[key] ==> s == Up)
  {
  }

  /** The callback as written indexes the state arrays with whatever key GLFW
      passes; GLFW_KEY_UNKNOWN has no slot, so the write lands outside them. */
  lemma UnknownKeyHasNoSlot()
    ensures !KeyInBounds(GLFW_KEY_UNKNOWN)
    ensures forall k: Keys :: k.Valid() ==> k.KeyCallback(GLFW_KEY_UNKNOWN, GLFW_PRESS) == k
  {
  }

  /** As written, a press followed by a repeat reads as a release, though the key is still held. */
  lemma RepeatReadsAsReleased(k: Keys, key: int)
    requires k.Valid() && KeyInBounds(key)
    ensures k.KeyCallbackAsWritten(key, GLFW_PRESS).KeyCallbackAsWritten(key, GLFW_REPEAT).GetKeyState(key) == Released
  {
  }

  /** With the corrected callback a repeat keeps a down key down; press and release
      behave as in the callback as written. */
  lemma HeldCallbackKeepsDown(k: Keys, key: int, action: int)
    requires k.Valid() && KeyInBounds(key)
    ensures k.current[key] ==> k.KeyCallback(key, GLFW_REPEAT).GetKeyState(key) == Down
    ensures k.KeyCallback(key, GLFW_PRESS).KeyCallback(key, GLFW_REPEAT).GetKeyState(key) == Down
    ensures action == GLFW_PRESS || action == GLFW_RELEASE ==>
              k.KeyCallback(key, action) == k.KeyCallbackAsWritten(key, action)
  {
  }
}
