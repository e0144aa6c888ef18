/**
 * The program's game state as one object: the obstacle table as four
 * parallel arrays, the rows column of LEVELS as an array, and the remaining
 * globals (and the locals of main that live across loop turns) as fields.
 * Every method is proved to change the state exactly as the functions of
 * modules Obstacles, Levels, Buttons, Player, Screen and Flow say.
 */
module Game {
  import opened Obstacles
  import opened Levels
  import opened Buttons
  import opened Player
  import opened Screen
  import opened Flow

  class DinoGame {
    const obstacleActive: array<bool>
    const obstacleCol: array<int>
    const obstacleRow: array<int>
    const obstaclePattern: array<int>
    /** The `rows` column of LEVELS; the `delay` column never changes and is Levels.TickDelays. */
    const levelRows: array<int>
    var levelCurrent: int
    var delayCycle: int
    var spawnCooldown: int
    var dinoRow: int
    var dinoJump: int
    var airTime: int
    var buttonAccept: bool
    var phase: Phase

    /** The arrays have their declared sizes and are distinct objects. */
    ghost predicate Shaped() {
      obstacleActive.Length == ObstacleMax && obstacleCol.Length == ObstacleMax &&
      obstacleRow.Length == ObstacleMax && obstaclePattern.Length == ObstacleMax &&
      levelRows.Length == LevelNum &&
      obstacleCol != obstacleRow && obstacleCol != obstaclePattern && obstacleRow != obstaclePattern &&
      levelRows != obstacleCol && levelRows != obstacleRow && levelRows != obstaclePattern
    }

    ghost function SlotAt(i: int): Slot
      requires Shaped() && 0 <= i < ObstacleMax
      reads obstacleActive, obstacleCol, obstacleRow, obstaclePattern
    {
      Slot(obstacleActive[i], obstacleCol[i], obstacleRow[i], obstaclePattern[i])
    }

    ghost function Slots(): (s: seq<Slot>)
      requires Shaped()
      reads obstacleActive, obstacleCol, obstacleRow, obstaclePattern
      ensures |s| == ObstacleMax && forall i :: 0 <= i < ObstacleMax ==> s[i] == SlotAt(i)
    {
      [SlotAt(0), SlotAt(1), SlotAt(2), SlotAt(3)]
    }

    ghost function ProgressNow(): Progress
      requires Shaped()
      reads this, levelRows
    {
      Progress(levelCurrent, levelRows[..])
    }

    ghost function DinoNow(): Dino
      reads this
    {
      Dino(dinoRow, dinoJump, airTime)
    }

    ghost function State(): World
      requires Shaped()
      reads this, obstacleActive, obstacleCol, obstacleRow, obstaclePattern, levelRows
    {
      World(phase, Slots(), ProgressNow(), delayCycle, spawnCooldown, DinoNow(), buttonAccept)
    }

    ghost predicate Valid()
      reads this, obstacleActive, obstacleCol, obstacleRow, obstaclePattern, levelRows
    {
      Shaped() && WorldOk(State())
    }

    /** Power-on: the static initialisers of the globals, zeroed static arrays, splash screen shown. */
    constructor ()
      ensures Valid() && State() == PowerOn
      ensures fresh(obstacleActive) && fresh(obstacleCol) && fresh(obstacleRow)
      ensures fresh(obstaclePattern) && fresh(levelRows)
    {
      obstacleActive := new bool[ObstacleMax](_ => false);
      obstacleCol := new int[ObstacleMax](_ => 0);
      obstacleRow := new int[ObstacleMax](_ => 0);
      obstaclePattern := new int[ObstacleMax](_ => 0);
      var rows := new int[LevelNum];
      rows[0], rows[1], rows[2] := 5, 10, 30;
      levelRows := rows;
      levelCurrent, delayCycle, spawnCooldown := 0, 0, 0;
      dinoRow, dinoJump, airTime := 1, 0, 0;
      buttonAccept := true;
      phase := AwaitStart;
      new;
      assert levelRows[..] == InitialRows;
      assert Slots() == Cleared();
    }

    /** obstacles_init: frees and zeroes every slot. */
    method ObstaclesInit()
      requires Shaped()
      modifies obstacleActive, obstacleCol, obstacleRow, obstaclePattern
      ensures Slots() == Cleared()
    {
      for i := 0 to ObstacleMax
        invariant forall j :: 0 <= j < i ==>
          !obstacleActive[j] && obstacleCol[j] == 0 && obstacleRow[j] == 0 && obstaclePattern[j] == 0
      {
        obstacleActive[i] := false;
        obstacleCol[i] := 0;
        obstacleRow[i] := 0;
        obstaclePattern[i] := 0;
      }
    }

    /** spawn_obstacle: the first free slot receives a cactus or a bird at the right edge. */
    method SpawnObstacle(tcnt: bv8)
      requires Shaped()
      modifies obstacleActive, obstacleCol, obstacleRow, obstaclePattern
      ensures Slots() == Spawned(old(Slots()), RndGen(tcnt, 100))
    {
      for i := 0 to ObstacleMax
        invariant Slots() == old(Slots())
        invariant forall j :: 0 <= j < i ==> obstacleActive[j]
      {
        if !obstacleActive[i] {
          var p := if RndGen(tcnt, 100) > 50 then 1 else 0;  // 0 = cactus, 1 = bird
          obstaclePattern[i] := Patterns[p];
          obstacleCol[i] := PlayfieldCols - 1;
          obstacleRow[i] := if p == 1 then 0 else 1;
          obstacleActive[i] := true;
          assert Slots() == Spawned(old(Slots()), RndGen(tcnt, 100)) by {
            forall j | 0 <= j < ObstacleMax
              ensures Slots()[j] == Spawned(old(Slots()), RndGen(tcnt, 100))[j]
            {
            }
          }
          return;
        }
      }
    }

    /** dino_collision: whether some active slot stands on the dino's cell. */
    method DinoCollision() returns (hit: bool)
      requires Shaped()
      ensures hit <==> Collides(Slots(), DinoCol, dinoRow)
    {
      for i := 0 to ObstacleMax
        invariant forall j :: 0 <= j < i ==> !Occupies(SlotAt(j), DinoCol, dinoRow)
      {
        if !obstacleActive[i] {
          continue;
        }
        if DinoCol == obstacleCol[i] && dinoRow == obstacleRow[i] {
          return true;
        }
      }
      return false;
    }

    /** is_obstacle_here: the pattern of the first active slot on (col, row), else 0. */
    method IsObstacleHere(col: int, row: int) returns (p: int)
      requires Shaped()
      ensures p == ObstacleAt(Slots(), col, row)
    {
      for i := 0 to ObstacleMax
        invariant forall j :: 0 <= j < i ==> !Occupies(SlotAt(j), col, row)
      {
        if !obstacleActive[i] {
          continue;
        }
        if obstacleCol[i] == col && obstacleRow[i] == row {
          return obstaclePattern[i];
        }
      }
      return 0;
    }

    /** One display line of screen_update: the glyph codes of `row`, column 0 first. */
    method ScreenLine(row: int) returns (line: seq<int>)
      requires Shaped()
      ensures line == Line(Slots(), dinoRow, row)
    {
      line := [];
      for col := 0 to PlayfieldCols
        invariant |line| == col
        invariant forall c :: 0 <= c < col ==> line[c] == CellGlyph(Slots(), dinoRow, row, c)
      {
        if col == DinoCol && dinoRow == row {
          line := line + [DinoGlyph];
        } else {
          var p := IsObstacleHere(col, row);
          if p != 0 {
            line := line + [p];
          } else {
            line := line + [BlankGlyph];
          }
        }
      }
    }

    /** screen_update: the first display line shows row 0, the second row 1. */
    method ScreenUpdate() returns (lines: seq<seq<int>>)
      requires Shaped()
      ensures lines == Render(Slots(), dinoRow)
    {
      var top := ScreenLine(0);
      var bottom := ScreenLine(1);
      lines := [top, bottom];
    }

    /** row_removed: credits one cleared obstacle to the current tier; reports a level-up. */
    method RowRemoved() returns (levelUp: bool)
      requires Shaped() && ProgressOk(ProgressNow())
      modifies this`levelCurrent, levelRows
      ensures ProgressNow() == Levels.RowRemoved(old(ProgressNow()))
      ensures levelUp <==> levelCurrent == old(levelCurrent) + 1
    {
      if levelCurrent == LevelNum - 1 {
        return false;
      }
      levelRows[levelCurrent] := levelRows[levelCurrent] - 1;
      levelUp := levelRows[levelCurrent] == 0;
      if levelUp {
        levelCurrent := levelCurrent + 1;
      }
    }

    /**
     * One turn of the advance loop on slot i: a free slot is skipped, an active
     * slot at column 0 is freed and credited by row_removed, any other active
     * slot moves one column toward 0. `s0` and `p0` are the table and the level
     * state the loop started from; slot i still holds its value from `s0`.
     */
    method AdvanceSlotAt(i: int, ghost s0: seq<Slot>, ghost p0: Progress) returns (levelUp: bool)
      requires Shaped() && 0 <= i < ObstacleMax && |s0| == ObstacleMax && SlotAt(i) == s0[i]
      requires ProgressOk(p0) && ProgressNow() == RowsRemoved(p0, Retired(s0[..i]))
      modifies obstacleActive, obstacleCol, this`levelCurrent, levelRows
      ensures obstacleActive[..] == old(obstacleActive[..])[i := AdvanceSlot(s0[i]).active]
      ensures obstacleCol[..] == old(obstacleCol[..])[i := AdvanceSlot(s0[i]).col]
      ensures ProgressNow() == RowsRemoved(p0, Retired(s0[..i + 1]))
      ensures levelUp <==> levelCurrent == old(levelCurrent) + 1
      ensures !levelUp ==> levelCurrent == old(levelCurrent)
    {
      RetiredPrefix(s0, i);
      ghost var n := Retired(s0[..i]);
      levelUp := false;
      if !obstacleActive[i] {
        assert Retired(s0[..i + 1]) == n;
        return;
      }
      if obstacleCol[i] == 0 {
        assert Retired(s0[..i + 1]) == n + 1;
        ghost var q := ProgressNow();
        obstacleActive[i] := false;
        levelUp := RowRemoved();
        assert ProgressNow() == Levels.RowRemoved(q) == RowsRemoved(p0, n + 1);
        return;
      }
      assert Retired(s0[..i + 1]) == n;
      obstacleCol[i] := obstacleCol[i] - 1;
    }

    /**
     * The advance loop of the game tick: retires active slots at column 0
     * (calling row_removed for each) and moves the other active slots one
     * column toward 0; returns how many level-ups it caused.
     */
    method AdvanceObstacles() returns (levelUps: nat)
      requires Shaped() && ProgressOk(ProgressNow())
      modifies obstacleActive, obstacleCol, this`levelCurrent, levelRows
      ensures Slots() == Advanced(old(Slots()))
      ensures ProgressNow() == RowsRemoved(old(ProgressNow()), Retired(old(Slots())))
      ensures levelUps == levelCurrent - old(levelCurrent)
    {
      ghost var s0 := Slots();
      ghost var p0 := ProgressNow();
      levelUps := 0;
      for i := 0 to ObstacleMax
        invariant forall j :: 0 <= j < i ==>
          obstacleActive[j] == AdvanceSlot(s0[j]).active && obstacleCol[j] == AdvanceSlot(s0[j]).col
        invariant forall j :: i <= j < ObstacleMax ==>
          obstacleActive[j] == s0[j].active && obstacleCol[j] == s0[j].col
        invariant ProgressNow() == RowsRemoved(p0, Retired(s0[..i]))
        invariant levelUps == levelCurrent - p0.current
      {
        assert SlotAt(i) == s0[i];
        var up := AdvanceSlotAt(i, s0, p0);
        if up {
          levelUps := levelUps + 1;
        }
      }
      assert s0[..ObstacleMax] == s0;
      assert Slots() == Advanced(s0) by {
        forall j | 0 <= j < ObstacleMax
          ensures Slots()[j] == Advanced(s0)[j]
        {
        }
      }
    }

    /** button_pressed, with the value of PINA it reads. */
    method ButtonPressed(pina: bv8) returns (b: Button)
      modifies this`buttonAccept
      ensures b == Pressed(old(buttonAccept), pina)
      ensures buttonAccept == AcceptAfterPress(old(buttonAccept), pina)
    {
      if pina & 0x08 == 0 && buttonAccept {
        buttonAccept := false;
        return Right;
      }
      if pina & 0x01 == 0 && buttonAccept {
        buttonAccept := false;
        return Up;
      }
      if pina & 0x10 == 0 && buttonAccept {
        buttonAccept := false;
        return Down;
      }
      if pina & 0x04 == 0 && buttonAccept {
        buttonAccept := false;
        return Center;
      }
      if pina & 0x02 == 0 && buttonAccept {
        buttonAccept := false;
        return Left;
      }
      return NoButton;
    }

    /** button_unlock, with the value of PINA it reads. */
    method ButtonUnlock(pina: bv8)
      modifies this`buttonAccept
      ensures buttonAccept == AcceptAfterUnlock(old(buttonAccept), pina)
    {
      if ((pina & 0x01) | (pina & 0x02) | (pina & 0x04) | (pina & 0x08) | (pina & 0x10)) == 31 {
        buttonAccept := true;
      }
    }

    /** The button handling and jump state machine of the game tick. */
    method MoveDino(button: Button)
      requires 0 <= levelCurrent < LevelNum
      modifies this`dinoRow, this`dinoJump, this`airTime
      ensures DinoNow() == DinoStep(old(DinoNow()), button, levelCurrent)
    {
      if button == Up && dinoJump == 0 {
        dinoJump := 1;
      }
      if button == Down {
        dinoJump := -1;
      }
      if dinoJump == 1 {
        if dinoRow > 0 {
          dinoRow := dinoRow - 1;
        } else if dinoRow == 0 && airTime > 0 {
          airTime := airTime - 1;
        } else {
          dinoJump := -1;
        }
      } else if dinoJump == -1 {
        if dinoRow < 1 {
          dinoRow := dinoRow + 1;
        } else {
          dinoJump := 0;
        }
        airTime := 10 + 5 * (2 - levelCurrent);
      }
    }

    /** The spawn rule of a due tick (lines 531-549). */
    method SpawnRule(ins: Inputs)
      requires Valid()
      modifies this`spawnCooldown, obstacleActive, obstacleCol, obstacleRow, obstaclePattern
      ensures Valid()
      ensures State() == Flow.SpawnRule(old(State()), ins)
    {
      if spawnCooldown > 0 {
        spawnCooldown := spawnCooldown - 1;
      } else {
        var chance, delay := SpawnChance(levelCurrent), SpawnSpread(levelCurrent);
        var r := RndGen(ins.tcntChance, 100);
        if r < chance {
          SpawnObstacle(ins.tcntKind);
          spawnCooldown := 5 + RndGen(ins.tcntCooldown, delay);
        }
      }
    }

    /** The obstacle schedule of the game tick (delay counter, advance loop, spawn rule). */
    method Schedule(ins: Inputs) returns (levelUps: nat)
      requires Valid()
      modifies this`delayCycle, this`spawnCooldown, this`levelCurrent, levelRows
      modifies obstacleActive, obstacleCol, obstacleRow, obstaclePattern
      ensures Valid()
      ensures State() == Flow.Schedule(old(State()), ins)
      ensures levelUps == levelCurrent - old(levelCurrent)
    {
      ghost var w := State();
      levelUps := 0;
      delayCycle := delayCycle + 1;
      if delayCycle > TickDelay(levelCurrent) {
        delayCycle := 0;
        levelUps := AdvanceObstacles();
        assert State() == AdvanceWorld(w.(delayCycle := 0));
        SpawnRule(ins);
      } else {
        assert State() == w.(delayCycle := w.delayCycle + 1);
      }
    }

    /** The player's part of a game tick: poll, move the dino, redraw, unlock. */
    method PlayerTurn(ins: Inputs) returns (screen: seq<seq<int>>)
      requires Valid()
      modifies this`dinoRow, this`dinoJump, this`airTime, this`buttonAccept
      ensures Valid()
      ensures State() == Flow.PlayerTurn(old(State()), ins)
      ensures screen == Render(Slots(), dinoRow)
    {
      var button := ButtonPressed(ins.pinaPoll);
      MoveDino(button);
      screen := ScreenUpdate();
      ButtonUnlock(ins.pinaUnlock);
    }

    /** One turn of the game loop; GameOver when the dino already stands on an obstacle. */
    method Tick(ins: Inputs) returns (ev: Event)
      requires Valid()
      modifies this, obstacleActive, obstacleCol, obstacleRow, obstaclePattern, levelRows
      ensures Shaped() && (State(), ev) == TickWorld(old(State()), ins)
      ensures Valid()
    {
      ghost var w := State();
      var hit := DinoCollision();
      if hit {
        return GameOver;
      }
      var levelUps := Schedule(ins);
      ghost var v := State();
      var screen := PlayerTurn(ins);
      ghost var u := State();
      ev := Frame(levelUps, screen);
      TickWithoutCollision(w, v, u, ins, levelUps, screen);
    }

    /** Entering the game loop: delay counter, slot table, first obstacle, cooldown. */
    method StartGame(ins: Inputs)
      requires Valid() && phase == ChooseLevel
      modifies this`delayCycle, this`spawnCooldown, this`phase
      modifies obstacleActive, obstacleCol, obstacleRow, obstaclePattern
      ensures Shaped() && State() == Flow.StartGame(old(State()), levelCurrent, ins)
      ensures Valid()
    {
      ghost var w := State();
      delayCycle := 0;
      ObstaclesInit();
      SpawnObstacle(ins.tcntKind);
      spawnCooldown := 0;
      phase := Playing;
      ghost var table := Spawned(Cleared(), RndGen(ins.tcntKind, 100));
      assert Slots() == table;
      assert State() == World(Playing, table, w.progress, 0, 0, w.dino, w.accept);
    }

    /** One turn of the difficulty loop: a level button starts a game at that tier. */
    method PickLevel(ins: Inputs) returns (ev: Event)
      requires Valid() && phase == ChooseLevel
      modifies this, obstacleActive, obstacleCol, obstacleRow, obstaclePattern
      ensures Shaped() && (State(), ev) == StepWorld(old(State()), ins)
      ensures Valid()
    {
      var b := ButtonPressed(ins.pinaPoll);
      if b == Left {
        levelCurrent := 0;
      } else if b == Center {
        levelCurrent := 1;
      } else if b == Right {
        levelCurrent := 2;
      } else {
        ButtonUnlock(ins.pinaUnlock);
        return Idle;
      }
      StartGame(ins);
      ev := Started(levelCurrent);
    }

    /** One turn of whichever loop of main the program is in. */
    method Step(ins: Inputs) returns (ev: Event)
      requires Valid()
      modifies this, obstacleActive, obstacleCol, obstacleRow, obstaclePattern, levelRows
      ensures Shaped() && (State(), ev) == StepWorld(old(State()), ins)
      ensures Valid()
    {
      match phase
      case AwaitStart =>
        var b := ButtonPressed(ins.pinaPoll);
        if b != Center {
          ButtonUnlock(ins.pinaUnlock);
        } else {
          phase := ChooseLevel;
        }
        ev := Idle;
      case ChooseLevel =>
        ev := PickLevel(ins);
      case Playing =>
        ev := Tick(ins);
        if ev == GameOver {
          phase := AwaitStart;
        }
    }
  }
}
