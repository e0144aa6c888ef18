/**
 * The five push buttons on port A (active low, bits 0-4 of PINA) and the
 * latch that lets each press through only once: button_pressed reports the
 * first held button in a fixed priority order and closes the latch;
 * button_unlock reopens it once every button is released.
 */
module Buttons {

  /** BUTTON_NONE, BUTTON_CENTER (1), BUTTON_UP (2), BUTTON_DOWN (3), BUTTON_LEFT (4), BUTTON_RIGHT (5). */
  datatype Button = NoButton | Center | Up | Down | Left | Right

  /** Bit of PINA that reads 0 while the button is held. */
  function Mask(b: Button): bv8
    requires b != NoButton
  {
    match b
    case Up => 0x01
    case Left => 0x02
    case Center => 0x04
    case Right => 0x08
    case Down => 0x10
  }

  /** Position in the order button_pressed tests the buttons. */
  function Priority(b: Button): nat {
    match b
    case Right => 0
    case Up => 1
    case Down => 2
    case Center => 3
    case Left => 4
    case NoButton => 5
  }

  predicate Held(pina: bv8, b: Button)
    requires b != NoButton
  {
    pina & Mask(b) == 0
  }

  /** The test of button_unlock: bits 0-4 of PINA all read 1. */
  predicate AllReleased(pina: bv8) {
    ((pina & 0x01) | (pina & 0x02) | (pina & 0x04) | (pina & 0x08) | (pina & 0x10)) == 31
  }

  /**
   * Which button button_pressed reports when the latch is open: the held
   * button that comes first in the order right, up, down, center, left.
   */
  function Decode(pina: bv8): (b: Button)
    ensures b == NoButton <==> AllReleased(pina)
    ensures b != NoButton ==> Held(pina, b)
    ensures forall c :: c != NoButton && Priority(c) < Priority(b) ==> !Held(pina, c)
  {
    if pina & 0x08 == 0 then Right
    else if pina & 0x01 == 0 then Up
    else if pina & 0x10 == 0 then Down
    else if pina & 0x04 == 0 then Center
    else if pina & 0x02 == 0 then Left
    else NoButton
  }

  /** Result of button_pressed given the latch `accept` (button_accept). */
  function Pressed(accept: bool, pina: bv8): (b: Button)
    ensures !accept ==> b == NoButton
    ensures accept ==> b == Decode(pina)
  {
    if accept then Decode(pina) else NoButton
  }

  /** button_accept after button_pressed: closed whenever a button was reported. */
  function AcceptAfterPress(accept: bool, pina: bv8): (a: bool)
    ensures a <==> accept && Pressed(accept, pina) == NoButton
  {
    accept && Decode(pina) == NoButton
  }

  /** button_accept after button_unlock: reopened when every button is released. */
  function AcceptAfterUnlock(accept: bool, pina: bv8): (a: bool)
    ensures a <==> accept || AllReleased(pina)
  {
    if AllReleased(pina) then true else accept
  }

  /**
   * The buttons reported by a run of polls, each a button_pressed read of PINA
   * (`presses[k]`) followed by a button_unlock read (`releases[k]`), as the game
   * loop does once per tick.
   */
  function PollRun(accept: bool, presses: seq<bv8>, releases: seq<bv8>): (out: seq<Button>)
    requires |presses| == |releases|
    ensures |out| == |presses|
    decreases |presses|
  {
    if presses == [] then []
    else
      var next := AcceptAfterUnlock(AcceptAfterPress(accept, presses[0]), releases[0]);
      [Pressed(accept, presses[0])] + PollRun(next, presses[1..], releases[1..])
  }

  /** With the latch closed, nothing is reported before a full release. */
  lemma {:induction false} LockedUntilRelease(presses: seq<bv8>, releases: seq<bv8>, m: nat)
    requires |presses| == |releases| && m < |presses|
    requires forall k :: 0 <= k < m ==> !AllReleased(releases[k])
    ensures PollRun(false, presses, releases)[m] == NoButton
    decreases m
  {
    if m > 0 {
      LockedUntilRelease(presses[1..], releases[1..], m - 1);
    }
  }

  /**
   * Each press is reported at most once: between any two polls that report a
   * button, button_unlock saw every button released.
   */
  lemma {:induction false} OnePressPerRelease(accept: bool, presses: seq<bv8>, releases: seq<bv8>, i: nat, j: nat)
    requires |presses| == |releases| && i < j < |presses|
    requires PollRun(accept, presses, releases)[i] != NoButton
    requires PollRun(accept, presses, releases)[j] != NoButton
    ensures exists k :: i <= k < j && AllReleased(releases[k])
    decreases |presses|
  {
    var next := AcceptAfterUnlock(AcceptAfterPress(accept, presses[0]), releases[0]);
    if i > 0 {
      OnePressPerRelease(next, presses[1..], releases[1..], i - 1, j - 1);
      var k :| i - 1 <= k < j - 1 && AllReleased(releases[1..][k]);
      assert AllReleased(releases[k + 1]);
    } else if AllReleased(releases[0]) {
      assert 0 <= 0 < j;
    } else {
      assert !next;
      if forall k :: 0 <= k < j - 1 ==> !AllReleased(releases[1..][k]) {
        LockedUntilRelease(presses[1..], releases[1..], j - 1);
        assert false;
      }
      var k :| 0 <= k < j - 1 && AllReleased(releases[1..][k]);
      assert AllReleased(releases[k + 1]);
    }
  }
}
