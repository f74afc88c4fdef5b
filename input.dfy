/**
 Key handling of the game's input adapter: a bound action fires on the frame
 where its key goes down, not on every frame it is held.
 */
module Input {

  /** `ToggleKeybind`'s test: the key was up on the previous frame and is down on this one. */
  predicate KeyPressed(wasDown: bool, isDown: bool)
    ensures KeyPressed(wasDown, isDown) ==> isDown
    ensures wasDown ==> !KeyPressed(wasDown, isDown)
  {
    !wasDown && isDown
  }

  /**
   How many times a bound action fires over successive frames, given whether
   the key was down on the frame before the first and on each frame.
   */
  function Fires(wasDown: bool, frames: seq<bool>): (n: nat)
    ensures n <= |frames|
    ensures wasDown && (forall k | 0 <= k < |frames| :: frames[k]) ==> n == 0
    decreases |frames|
  {
    if frames == [] then 0
    else (if KeyPressed(wasDown, frames[0]) then 1 else 0) + Fires(frames[0], frames[1..])
  }

  /** A key pressed and held for any number of frames fires its action exactly once. */
  lemma {:induction false} HeldKeyFiresOnce(frames: seq<bool>)
    requires frames != [] && forall k | 0 <= k < |frames| :: frames[k]
    ensures Fires(false, frames) == 1
  {
    assert Fires(true, frames[1..]) == 0;
  }

  /** Two presses can never fire on consecutive frames: between two firings the key must be released. */
  lemma {:induction false} FiresAtMostHalf(wasDown: bool, frames: seq<bool>)
    ensures Fires(wasDown, frames) <= (|frames| + (if wasDown then 0 else 1)) / 2
    decreases |frames|
  {
    if frames != [] {
      FiresAtMostHalf(frames[0], frames[1..]);
    }
  }
}
