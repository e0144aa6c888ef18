/**
 * The game as a state machine over values: the whole mutable state of the
 * program (the globals and the locals of main that survive a loop turn) as
 * one World, the hardware reads of one step as Inputs, and the effect of one
 * step of main's loops as a function. The class in module Game is proved to
 * change its fields exactly as these functions say.
 */
module Flow {
  import opened Obstacles
  import opened Levels
  import opened Buttons
  import opened Player
  import opened Screen

  /** Where main is: waiting for Center (line 479), choosing a level (line 484), or in the game loop (line 510). */
  datatype Phase = AwaitStart | ChooseLevel | Playing

  /**
   * The hardware reads of one step: PINA as button_pressed sees it and as
   * button_unlock sees it, and three samples of the timer count TCNT0 for the
   * spawn chance, the obstacle kind and the cooldown.
   */
  datatype Inputs = Inputs(pinaPoll: bv8, pinaUnlock: bv8, tcntChance: bv8, tcntKind: bv8, tcntCooldown: bv8)

  /**
   * What a step shows the outside world: a level was chosen and a game
   * started, a frame was drawn (after `levelUps` level-up tunes), or the game
   * ended (the game-over tune and screen).
   */
  datatype Event = Idle | Started(level: int) | Frame(levelUps: nat, screen: seq<seq<int>>) | GameOver

  datatype World = World(
    phase: Phase,
    slots: seq<Slot>,      // obstacle_active / _col / _row / _pattern
    progress: Progress,    // level_current and LEVELS[].rows
    delayCycle: int,       // delay_cycle
    cooldown: int,         // spawn_cooldown
    dino: Dino,            // dino_row_position, dino_jump, air_time
    accept: bool)          // button_accept

  predicate WorldOk(w: World) {
    TableOk(w.slots) && ProgressOk(w.progress) && DinoOk(w.dino) &&
    w.delayCycle >= 0 && w.cooldown >= 0
  }

  /** The state at power-on: static storage zeroed, the initialisers of the globals applied. */
  const PowerOn := World(AwaitStart, Cleared(), Progress(0, InitialRows), 0, 0, InitialDino, true)

  lemma PowerOnOk()
    ensures WorldOk(PowerOn)
  {
  }

  /** The tick is due when the pre-incremented delay_cycle exceeds the tier's delay. */
  predicate Due(w: World)
    requires ProgressOk(w.progress)
  {
    w.delayCycle + 1 > TickDelay(w.progress.current)
  }

  /**
   * The advance loop on the whole state: every obstacle takes its step, and
   * each retired one is credited to the level by row_removed.
   */
  function AdvanceWorld(w: World): (v: World)
    requires WorldOk(w)
    ensures WorldOk(v)
    ensures v == w.(slots := v.slots, progress := v.progress)
    ensures v.slots == Advanced(w.slots) && v.progress == RowsRemoved(w.progress, Retired(w.slots))
    ensures ActiveCount(v.slots) + Retired(w.slots) == ActiveCount(w.slots)
    ensures w.progress.current <= v.progress.current
    ensures forall j :: 0 <= j < LevelNum ==> v.progress.rows[j] <= w.progress.rows[j]
  {
    AdvanceCountsRetired(w.slots);
    RowsOnlyDecrease(w.progress, Retired(w.slots));
    w.(slots := Advanced(w.slots), progress := RowsRemoved(w.progress, Retired(w.slots)))
  }

  /**
   * The spawn rule of a due tick (lines 531-549): a running cooldown counts
   * down; otherwise a roll below the tier's chance tries a spawn and re-rolls
   * the cooldown, whether or not a slot was free.
   */
  function SpawnRule(w: World, ins: Inputs): (v: World)
    requires WorldOk(w)
    ensures WorldOk(v)
    ensures v == w.(slots := v.slots, cooldown := v.cooldown)
    ensures w.cooldown > 0 ==> v == w.(cooldown := w.cooldown - 1)
    ensures w.cooldown == 0 && RndGen(ins.tcntChance, 100) < SpawnChance(w.progress.current) ==>
      v.slots == Spawned(w.slots, RndGen(ins.tcntKind, 100)) &&
      5 <= v.cooldown < 5 + SpawnSpread(w.progress.current)
    ensures w.cooldown == 0 && RndGen(ins.tcntChance, 100) >= SpawnChance(w.progress.current) ==> v == w
    ensures ActiveCount(v.slots) <= ActiveCount(w.slots) + 1
  {
    if w.cooldown > 0 then w.(cooldown := w.cooldown - 1)
    else if RndGen(ins.tcntChance, 100) < SpawnChance(w.progress.current) then
      var roll := RndGen(ins.tcntKind, 100);
      SpawnAddsOne(w.slots, roll);
      w.(slots := Spawned(w.slots, roll),
         cooldown := 5 + RndGen(ins.tcntCooldown, SpawnSpread(w.progress.current)))
    else w
  }

  /**
   * The obstacle schedule of one game tick (lines 516-550). Only a due tick
   * moves anything: it restarts the delay counter, advances the obstacles and
   * applies the spawn rule with the tier reached after crediting.
   */
  function Schedule(w: World, ins: Inputs): (v: World)
    requires WorldOk(w)
    ensures WorldOk(v)
    ensures v.phase == w.phase && v.dino == w.dino && v.accept == w.accept
    ensures !Due(w) ==> v == w.(delayCycle := w.delayCycle + 1)
    ensures Due(w) ==> v.delayCycle == 0 && v.progress == RowsRemoved(w.progress, Retired(w.slots))
    ensures Due(w) && w.cooldown > 0 ==> v.cooldown == w.cooldown - 1 && v.slots == Advanced(w.slots)
    ensures Due(w) && w.cooldown == 0 ==>
      var level := v.progress.current;
      if RndGen(ins.tcntChance, 100) < SpawnChance(level) then
        v.slots == Spawned(Advanced(w.slots), RndGen(ins.tcntKind, 100)) &&
        5 <= v.cooldown < 5 + SpawnSpread(level)
      else
        v.slots == Advanced(w.slots) && v.cooldown == 0
    ensures ActiveCount(v.slots) <= ActiveCount(w.slots) + 1
    ensures w.progress.current <= v.progress.current
    ensures forall j :: 0 <= j < LevelNum ==> v.progress.rows[j] <= w.progress.rows[j]
  {
    if !Due(w) then w.(delayCycle := w.delayCycle + 1)
    else SpawnRule(AdvanceWorld(w.(delayCycle := 0)), ins)
  }

  /**
   * One turn of the game loop (lines 510-582): collision first, and a
   * collision ends the game before anything moves; otherwise the schedule,
   * the button, the dino's physics, the redraw and the button unlock.
   */
  function TickWorld(w: World, ins: Inputs): (r: (World, Event))
    requires WorldOk(w)
    ensures WorldOk(r.0) && r.0.phase == w.phase
    ensures r.1 == GameOver <==> Collides(w.slots, DinoCol, w.dino.row)
    ensures r.1 == GameOver ==> r.0 == w
    ensures r.1 != GameOver ==> r.0 == PlayerTurn(Schedule(w, ins), ins)
    ensures r.1 != GameOver ==>
      r.1 == Frame(r.0.progress.current - w.progress.current, Render(r.0.slots, r.0.dino.row))
    ensures w.progress.current <= r.0.progress.current
    ensures r.1.Frame? ==> r.1.levelUps == r.0.progress.current - w.progress.current
    ensures r.1.Frame? ==> r.1.screen == Render(r.0.slots, r.0.dino.row)
    ensures forall j :: 0 <= j < LevelNum ==> r.0.progress.rows[j] <= w.progress.rows[j]
  {
    if Collides(w.slots, DinoCol, w.dino.row) then (w, GameOver)
    else
      var v := PlayerTurn(Schedule(w, ins), ins);
      (v, Frame(v.progress.current - w.progress.current, Render(v.slots, v.dino.row)))
  }

  /** A tick without a collision is the schedule followed by the player's turn, drawn. */
  lemma TickWithoutCollision(w: World, v: World, u: World, ins: Inputs, levelUps: nat, screen: seq<seq<int>>)
    requires WorldOk(w) && !Collides(w.slots, DinoCol, w.dino.row)
    requires v == Schedule(w, ins) && u == PlayerTurn(v, ins)
    requires levelUps == u.progress.current - w.progress.current && screen == Render(u.slots, u.dino.row)
    ensures TickWorld(w, ins) == (u, Frame(levelUps, screen))
  {
  }

  /**
   * The player's part of a game tick (lines 552-581): one poll of the buttons,
   * the dino's move, and the unlock at the end of the tick.
   */
  function PlayerTurn(w: World, ins: Inputs): (v: World)
    requires WorldOk(w)
    ensures WorldOk(v)
    ensures v == w.(dino := v.dino, accept := v.accept)
    ensures v.dino == DinoStep(w.dino, Pressed(w.accept, ins.pinaPoll), w.progress.current)
    ensures v.accept == AcceptAfterUnlock(AcceptAfterPress(w.accept, ins.pinaPoll), ins.pinaUnlock)
  {
    var b := Pressed(w.accept, ins.pinaPoll);
    var d := DinoStep(w.dino, b, w.progress.current);
    w.(dino := d, accept := AcceptAfterUnlock(AcceptAfterPress(w.accept, ins.pinaPoll), ins.pinaUnlock))
  }

  /**
   * Entering the game loop (lines 500-507): the delay counter and the slot
   * table are reset and one obstacle is spawned at once; the cooldown starts
   * at 0. The dino and the LEVELS row counters keep their old values.
   */
  function StartGame(w: World, level: int, ins: Inputs): (v: World)
    requires WorldOk(w) && 0 <= level < LevelNum
    ensures WorldOk(v) && v.phase == Playing
    ensures v.progress == Progress(level, w.progress.rows)
    ensures v.dino == w.dino && v.accept == w.accept
    ensures ActiveCount(v.slots) == 1 && v.delayCycle == 0 && v.cooldown == 0
    ensures |v.slots| == ObstacleMax && v.slots[0] == NewObstacle(RndGen(ins.tcntKind, 100))
    ensures forall i :: 1 <= i < |v.slots| ==> v.slots[i] == EmptySlot
  {
    NoneActive(Cleared());
    SpawnAddsOne(Cleared(), RndGen(ins.tcntKind, 100));
    World(Playing, Spawned(Cleared(), RndGen(ins.tcntKind, 100)), w.progress.(current := level), 0, 0, w.dino, w.accept)
  }

  /** The level a button picks on the difficulty screen (Left, Center, Right), if any. */
  function LevelChoice(b: Button): (level: int)
    ensures -1 <= level < LevelNum
    ensures level >= 0 <==> b == Left || b == Center || b == Right
  {
    if b == Left then 0 else if b == Center then 1 else if b == Right then 2 else -1
  }

  /**
   * One step of main: a turn of whichever loop main is in. Waiting for Center,
   * a poll that does not report Center is followed by an unlock; choosing a
   * level, a poll that reports no level is followed by an unlock; in the game,
   * one tick, and a game over returns to waiting for Center.
   */
  function StepWorld(w: World, ins: Inputs): (r: (World, Event))
    requires WorldOk(w)
    ensures WorldOk(r.0)
    ensures r.1 == GameOver <==> w.phase == Playing && Collides(w.slots, DinoCol, w.dino.row)
    ensures r.1 == GameOver ==> r.0 == w.(phase := AwaitStart)
    ensures w.phase == Playing && r.1 != GameOver ==> r == TickWorld(w, ins)
    ensures w.phase == ChooseLevel ==>
      (r.1.Started? <==> LevelChoice(Pressed(w.accept, ins.pinaPoll)) >= 0) &&
      (!r.1.Started? ==>
         (r.1 == Idle &&
          r.0 == w.(accept := AcceptAfterUnlock(AcceptAfterPress(w.accept, ins.pinaPoll), ins.pinaUnlock))))
    ensures r.1.Started? ==>
      var level := LevelChoice(Pressed(w.accept, ins.pinaPoll));
      level >= 0 && r.1.level == level &&
      r.0 == StartGame(w.(accept := AcceptAfterPress(w.accept, ins.pinaPoll)), level, ins)
    ensures r.1.Started? ==>
      (w.phase == ChooseLevel && r.0.phase == Playing &&
       r.0.progress == Progress(r.1.level, w.progress.rows) && r.0.dino == w.dino)
    ensures w.phase == AwaitStart ==>
      r.0 == w.(phase := r.0.phase, accept := r.0.accept) &&
      r.1 == Idle &&
      r.0.phase == (if Pressed(w.accept, ins.pinaPoll) == Center then ChooseLevel else AwaitStart) &&
      r.0.accept == (if Pressed(w.accept, ins.pinaPoll) == Center then AcceptAfterPress(w.accept, ins.pinaPoll)
                     else AcceptAfterUnlock(AcceptAfterPress(w.accept, ins.pinaPoll), ins.pinaUnlock))
    ensures r.0.phase == Playing && w.phase == Playing ==> w.progress.current <= r.0.progress.current
    ensures forall j :: 0 <= j < LevelNum ==> r.0.progress.rows[j] <= w.progress.rows[j]
  {
    var b := Pressed(w.accept, ins.pinaPoll);
    var a := AcceptAfterPress(w.accept, ins.pinaPoll);
    match w.phase
    case AwaitStart =>
      if b == Center then (w.(phase := ChooseLevel, accept := a), Idle)
      else (w.(accept := AcceptAfterUnlock(a, ins.pinaUnlock)), Idle)
    case ChooseLevel =>
      var level := LevelChoice(b);
      if level >= 0 then (StartGame(w.(accept := a), level, ins), Started(level))
      else (w.(accept := AcceptAfterUnlock(a, ins.pinaUnlock)), Idle)
    case Playing =>
      var t := TickWorld(w, ins);
      if t.1 == GameOver then (t.0.(phase := AwaitStart), GameOver) else t
  }

  /** The state after a run of steps. */
  function Run(w: World, ins: seq<Inputs>): World
    requires WorldOk(w)
    decreases |ins|
  {
    if ins == [] then w else Run(StepWorld(w, ins[0]).0, ins[1..])
  }

  /**
   * From any good state, every run keeps the dino on the two rows, every active
   * obstacle on the playfield and the tier in range; and no LEVELS row counter
   * ever goes up, across any number of games.
   */
  lemma {:induction false} RunKeepsInvariant(w: World, ins: seq<Inputs>)
    requires WorldOk(w)
    ensures WorldOk(Run(w, ins))
    ensures forall j :: 0 <= j < LevelNum ==> Run(w, ins).progress.rows[j] <= w.progress.rows[j]
    decreases |ins|
  {
    if ins != [] {
      RunKeepsInvariant(StepWorld(w, ins[0]).0, ins[1..]);
    }
  }

  /** Every step of the run stays in the game loop (no game over in between). */
  predicate StaysInGame(w: World, ins: seq<Inputs>)
    requires WorldOk(w)
    decreases |ins|
  {
    w.phase == Playing &&
    (ins == [] || StaysInGame(StepWorld(w, ins[0]).0, ins[1..]))
  }

  /** Within one game the tier never goes down. */
  lemma {:induction false} LevelNeverDrops(w: World, ins: seq<Inputs>)
    requires WorldOk(w) && StaysInGame(w, ins)
    ensures w.progress.current <= Run(w, ins).progress.current
    decreases |ins|
  {
    if ins != [] {
      LevelNeverDrops(StepWorld(w, ins[0]).0, ins[1..]);
    }
  }

  /** The PINA values the button polls of a run read, one per step. */
  function PollReads(ins: seq<Inputs>): (p: seq<bv8>)
    ensures |p| == |ins| && forall k :: 0 <= k < |ins| ==> p[k] == ins[k].pinaPoll
  {
    seq(|ins|, k requires 0 <= k < |ins| => ins[k].pinaPoll)
  }

  /** The PINA values the button unlocks of a run read, one per step. */
  function UnlockReads(ins: seq<Inputs>): (p: seq<bv8>)
    ensures |p| == |ins| && forall k :: 0 <= k < |ins| ==> p[k] == ins[k].pinaUnlock
  {
    seq(|ins|, k requires 0 <= k < |ins| => ins[k].pinaUnlock)
  }

  /** What button_pressed returns at each step of a run. */
  function Polled(w: World, ins: seq<Inputs>): (bs: seq<Button>)
    requires WorldOk(w)
    ensures |bs| == |ins|
    decreases |ins|
  {
    if ins == [] then [] else [Pressed(w.accept, ins[0].pinaPoll)] + Polled(StepWorld(w, ins[0]).0, ins[1..])
  }

  /**
   * Within one game the buttons the ticks see are exactly the reports of the
   * latch driven by each tick's poll and unlock, starting from the latch the
   * game began with.
   */
  lemma {:induction false} GamePollsAreLatched(w: World, ins: seq<Inputs>)
    requires WorldOk(w) && StaysInGame(w, ins)
    ensures Polled(w, ins) == PollRun(w.accept, PollReads(ins), UnlockReads(ins))
    decreases |ins|
  {
    if ins != [] {
      var r := StepWorld(w, ins[0]);
      assert r.0.phase == Playing;
      assert r.0 == PlayerTurn(Schedule(w, ins[0]), ins[0]);
      assert PollReads(ins)[1..] == PollReads(ins[1..]);
      assert UnlockReads(ins)[1..] == UnlockReads(ins[1..]);
      GamePollsAreLatched(r.0, ins[1..]);
    }
  }

  /**
   * In a game, a held button moves the dino once: between two ticks that see a
   * button, some tick's unlock found every button released.
   */
  lemma GamePressNeedsRelease(w: World, ins: seq<Inputs>, i: nat, j: nat)
    requires WorldOk(w) && StaysInGame(w, ins) && i < j < |ins|
    requires Polled(w, ins)[i] != NoButton && Polled(w, ins)[j] != NoButton
    ensures exists k :: i <= k < j && AllReleased(ins[k].pinaUnlock)
  {
    GamePollsAreLatched(w, ins);
    OnePressPerRelease(w.accept, PollReads(ins), UnlockReads(ins), i, j);
    var k :| i <= k < j && AllReleased(UnlockReads(ins)[k]);
  }
}
