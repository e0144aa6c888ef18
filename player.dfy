/**
 * The dino: its row (0 = top, 1 = bottom), the jump state dino_jump
 * (1 rising, 0 on the ground, -1 falling) and air_time, the number of extra
 * ticks it may hover at the top of a jump. Its column never changes.
 */
module Player {
  import opened Buttons
  import Levels

  const Rising: int := 1
  const Grounded: int := 0
  const Falling: int := -1

  datatype Dino = Dino(row: int, jump: int, airTime: int)

  /** The power-on values of dino_row_position, dino_jump and air_time. */
  const InitialDino := Dino(1, Grounded, 0)

  predicate DinoOk(d: Dino) {
    0 <= d.row <= 1 && Falling <= d.jump <= Rising && (d.jump == Grounded ==> d.row == 1)
  }

  /** The hover budget written on a falling tick: 10 + 5 * (2 - level). */
  function HoverBudget(level: int): (h: int)
    requires 0 <= level < Levels.LevelNum
    ensures 10 <= h <= 20
  {
    10 + 5 * (Levels.TopLevel - level)
  }

  /** dino_jump after the button of this tick: Up starts a jump from the ground, Down always falls. */
  function JumpAfterInput(jump: int, b: Button): (j: int)
    ensures b == Down ==> j == Falling
    ensures b == Up && jump == Grounded ==> j == Rising
    ensures b != Down && !(b == Up && jump == Grounded) ==> j == jump
  {
    var j := if b == Up && jump == Grounded then Rising else jump;
    if b == Down then Falling else j
  }

  /**
   * One tick of input and physics (the button handling and the jump state
   * machine of the game loop). A rising dino climbs one row, then hovers on the
   * top row while air_time lasts, then starts to fall; a falling dino drops one
   * row, then lands. air_time is rewritten on every falling tick, landing or not.
   */
  function DinoStep(d: Dino, b: Button, level: int): (e: Dino)
    requires 0 <= level < Levels.LevelNum
    ensures DinoOk(d) ==> DinoOk(e)
    ensures DinoOk(d) && b == Up && d.jump == Grounded && d.row == 1 ==> e == Dino(0, Rising, d.airTime)
    ensures b != Down && d.jump == Rising && d.row == 0 && d.airTime > 0 ==> e == Dino(0, Rising, d.airTime - 1)
    ensures b != Down && d.jump == Rising && d.row == 0 && d.airTime <= 0 ==> e == Dino(0, Falling, d.airTime)
    ensures JumpAfterInput(d.jump, b) == Falling ==> e.airTime == HoverBudget(level)
    ensures DinoOk(d) && b == Down ==> e.row == 1
    ensures JumpAfterInput(d.jump, b) == Grounded ==> e == d.(jump := Grounded)
    ensures e.jump == Grounded ==> e.row == d.row
    ensures DinoOk(d) && JumpAfterInput(d.jump, b) == Falling ==>
      e.row == 1 && (e.jump == Grounded <==> d.row == 1)
    ensures DinoOk(d) && JumpAfterInput(d.jump, b) == Rising && d.row == 1 ==> e == Dino(0, Rising, d.airTime)
    ensures DinoOk(d) && JumpAfterInput(d.jump, b) == Falling && d.row == 0 ==> e == Dino(1, Falling, HoverBudget(level))
  {
    var j := JumpAfterInput(d.jump, b);
    if j == Rising then
      if d.row > 0 then Dino(d.row - 1, j, d.airTime)
      else if d.row == 0 && d.airTime > 0 then Dino(d.row, j, d.airTime - 1)
      else Dino(d.row, Falling, d.airTime)
    else if j == Falling then
      var landed := if d.row < 1 then Dino(d.row + 1, j, d.airTime) else Dino(d.row, Grounded, d.airTime);
      landed.(airTime := HoverBudget(level))
    else
      Dino(d.row, j, d.airTime)
  }

  /** Tiers for a run of ticks: the range every level sequence below must stay in. */
  predicate TiersOk(levels: seq<int>) {
    forall k :: 0 <= k < |levels| ==> 0 <= levels[k] < Levels.LevelNum
  }

  /** The dino after a run of ticks, given the button and the tier in force at each tick. */
  function DinoRun(d: Dino, buttons: seq<Button>, levels: seq<int>): Dino
    requires |levels| == |buttons| && TiersOk(levels)
    decreases |buttons|
  {
    if buttons == [] then d else DinoRun(DinoStep(d, buttons[0], levels[0]), buttons[1..], levels[1..])
  }

  /** Whatever the buttons and tiers, the dino stays on one of the two rows and in one of the three jump states. */
  lemma {:induction false} DinoStaysOnField(d: Dino, buttons: seq<Button>, levels: seq<int>)
    requires |levels| == |buttons| && TiersOk(levels) && DinoOk(d)
    ensures DinoOk(DinoRun(d, buttons, levels))
    decreases |buttons|
  {
    if buttons != [] {
      DinoStaysOnField(DinoStep(d, buttons[0], levels[0]), buttons[1..], levels[1..]);
    }
  }

  /**
   * A full jump from the ground with no further input, all at one tier: up in
   * the same tick as the press, `air` ticks of hovering, one tick to turn, one
   * to drop and one to land, after which air_time holds the tier's hover budget.
   */
  lemma JumpArc(level: int, air: nat)
    requires 0 <= level < Levels.LevelNum
    ensures DinoRun(Dino(1, Grounded, air), [Up] + NoInput(air + 3), Steady(level, air + 4))
         == Dino(1, Grounded, HoverBudget(level))
  {
    HoverRun(level, air);
    var d := Dino(1, Grounded, air);
    var buttons := [Up] + NoInput(air + 3);
    assert buttons[1..] == NoInput(air) + NoInput(3);
    assert Steady(level, air + 4)[1..] == Steady(level, air) + Steady(level, 3);
    DinoRunAppend(DinoStep(d, Up, level), NoInput(air), NoInput(3), Steady(level, air), Steady(level, 3));
    assert NoInput(3) == [NoButton, NoButton, NoButton];
    assert Steady(level, 3) == [level, level, level];
  }

  /** `n` ticks without a button. */
  function NoInput(n: nat): (s: seq<Button>)
    ensures |s| == n && forall i :: 0 <= i < n ==> s[i] == NoButton
  {
    seq(n, i => NoButton)
  }

  /** `n` ticks at one tier. */
  function Steady(level: int, n: nat): (ls: seq<int>)
    requires 0 <= level < Levels.LevelNum
    ensures |ls| == n && TiersOk(ls) && forall i :: 0 <= i < n ==> ls[i] == level
  {
    seq(n, i => level)
  }

  lemma {:induction false} DinoRunAppend(d: Dino, a: seq<Button>, b: seq<Button>, la: seq<int>, lb: seq<int>)
    requires |la| == |a| && TiersOk(la) && |lb| == |b| && TiersOk(lb)
    ensures TiersOk(la + lb)
    ensures DinoRun(d, a + b, la + lb) == DinoRun(DinoRun(d, a, la), b, lb)
    decreases |a|
  {
    assert TiersOk(la + lb) by {
      forall k | 0 <= k < |la + lb| ensures 0 <= (la + lb)[k] < Levels.LevelNum {
        if k < |la| { assert (la + lb)[k] == la[k]; } else { assert (la + lb)[k] == lb[k - |la|]; }
      }
    }
    if a != [] {
      assert (a + b)[1..] == a[1..] + b;
      assert (la + lb)[1..] == la[1..] + lb;
      DinoRunAppend(DinoStep(d, a[0], la[0]), a[1..], b, la[1..], lb);
    } else {
      assert a + b == b;
      assert la + lb == lb;
    }
  }

  /** Hovering at the top row uses up air_time one tick at a time. */
  lemma {:induction false} HoverRun(level: int, air: nat)
    requires 0 <= level < Levels.LevelNum
    ensures DinoRun(Dino(0, Rising, air), NoInput(air), Steady(level, air)) == Dino(0, Rising, 0)
    decreases air
  {
    if air > 0 {
      assert NoInput(air)[1..] == NoInput(air - 1);
      assert Steady(level, air)[1..] == Steady(level, air - 1);
      HoverRun(level, air - 1);
    }
  }

  /**
   * The jump state machine with air_time written only when the dino lands,
   * as the comment on the landing branch and its indentation suggest.
   */
  function LandingOnlyStep(d: Dino, b: Button, level: int): Dino
    requires 0 <= level < Levels.LevelNum
  {
    var j := JumpAfterInput(d.jump, b);
    if j == Rising then
      if d.row > 0 then Dino(d.row - 1, j, d.airTime)
      else if d.row == 0 && d.airTime > 0 then Dino(d.row, j, d.airTime - 1)
      else Dino(d.row, Falling, d.airTime)
    else if j == Falling then
      if d.row < 1 then Dino(d.row + 1, j, d.airTime) else Dino(d.row, Grounded, HoverBudget(level))
    else
      Dino(d.row, j, d.airTime)
  }

  function LandingOnlyRun(d: Dino, buttons: seq<Button>, levels: seq<int>): Dino
    requires |levels| == |buttons| && TiersOk(levels)
    decreases |buttons|
  {
    if buttons == [] then d else LandingOnlyRun(LandingOnlyStep(d, buttons[0], levels[0]), buttons[1..], levels[1..])
  }

  /** Two dinos that differ at most in air_time, and only while falling. */
  predicate AgreeOutsideFall(d: Dino, e: Dino) {
    d.row == e.row && d.jump == e.jump && (d.jump != Falling ==> d.airTime == e.airTime)
  }

  /**
   * Rewriting air_time on every falling tick (line 574) cannot be observed:
   * every fall ends in a landing tick that writes the same value, and air_time
   * is only read while rising. Over any run of buttons and tiers, the program's
   * dino and a dino that writes air_time only on landing agree in row and jump
   * state, and in air_time whenever they are not falling.
   */
  lemma {:induction false} AirTimeRewriteUnobservable(d: Dino, buttons: seq<Button>, levels: seq<int>)
    requires |levels| == |buttons| && TiersOk(levels)
    ensures AgreeOutsideFall(DinoRun(d, buttons, levels), LandingOnlyRun(d, buttons, levels))
  {
    AgreeingRuns(d, d, buttons, levels);
  }

  lemma {:induction false} AgreeingRuns(d: Dino, e: Dino, buttons: seq<Button>, levels: seq<int>)
    requires |levels| == |buttons| && TiersOk(levels)
    requires AgreeOutsideFall(d, e)
    ensures AgreeOutsideFall(DinoRun(d, buttons, levels), LandingOnlyRun(e, buttons, levels))
    decreases |buttons|
  {
    if buttons != [] {
      AgreeingRuns(DinoStep(d, buttons[0], levels[0]), LandingOnlyStep(e, buttons[0], levels[0]),
                   buttons[1..], levels[1..]);
    }
  }
}
